/**
 * The error-translation wrapper every route goes through (`db_operation`):
 * it runs the handler and turns a raised exception into a JSON error
 * response, classifying integrity violations by substring tests on the
 * database's message.
 */
module ErrorTranslation {
  import opened Outcomes
  import opened Responses

  const UniqueText: string := "UNIQUE constraint failed"
  const ForeignKeyText: string := "FOREIGN KEY constraint failed"
  const NotNullText: string := "NOT NULL constraint failed"

  /** Python's `sub in s` on strings, scanning `s` from the left. */
  function Contains(s: string, sub: string): bool
    decreases |s|
  {
    sub <= s || (|s| > 0 && Contains(s[1..], sub))
  }

  /** `sub` occurs in `s` starting at index `i`. */
  ghost predicate OccursAt(s: string, sub: string, i: int)
  {
    0 <= i && i + |sub| <= |s| && s[i..i + |sub|] == sub
  }

  /** The reference meaning of substring containment. */
  ghost predicate Occurs(s: string, sub: string)
  {
    exists i :: OccursAt(s, sub, i)
  }

  /** The left-to-right scan decides exactly substring occurrence. */
  lemma {:induction false} ContainsIff(s: string, sub: string)
    ensures Contains(s, sub) <==> Occurs(s, sub)
    decreases |s|
  {
    if sub <= s {
      assert OccursAt(s, sub, 0);
    }
    if |s| > 0 {
      ContainsIff(s[1..], sub);
      if Occurs(s[1..], sub) {
        var i :| OccursAt(s[1..], sub, i);
        assert s[1..][i..i + |sub|] == s[i + 1..i + 1 + |sub|];
        assert OccursAt(s, sub, i + 1);
      }
      if Occurs(s, sub) && !(sub <= s) {
        var i :| OccursAt(s, sub, i) && i != 0;
        assert s[1..][i - 1..i - 1 + |sub|] == s[i..i + |sub|];
        assert OccursAt(s[1..], sub, i - 1);
      }
    } else if Occurs(s, sub) {
      var i :| OccursAt(s, sub, i);
      assert |sub| == 0;
      assert sub <= s;
    }
  }

  /** A string that lacks a character of `sub` cannot contain `sub`. */
  lemma MissingCharRulesOut(s: string, sub: string, j: int)
    requires 0 <= j < |sub| && sub[j] !in s
    ensures !Occurs(s, sub)
  {
    forall i | 0 <= i && i + |sub| <= |s|
      ensures !OccursAt(s, sub, i)
    {
      assert s[i..i + |sub|][j] == s[i + j];
      assert s[i + j] in s;
    }
  }

  /** The classes of failure an integrity violation is sorted into. */
  datatype Classification = Conflict | BadRequest | Internal

  /**
   * Classifies an integrity message; the uniqueness test comes first, then
   * the foreign-key test, then the not-null test.
   */
  function ClassifyIntegrity(message: string): (c: Classification)
    ensures c == Conflict <==> Occurs(message, UniqueText)
    ensures c == BadRequest <==>
      !Occurs(message, UniqueText) && (Occurs(message, ForeignKeyText) || Occurs(message, NotNullText))
    ensures c == Internal <==>
      !Occurs(message, UniqueText) && !Occurs(message, ForeignKeyText) && !Occurs(message, NotNullText)
  {
    ContainsIff(message, UniqueText);
    ContainsIff(message, ForeignKeyText);
    ContainsIff(message, NotNullText);
    if Contains(message, UniqueText) then Conflict
    else if Contains(message, ForeignKeyText) then BadRequest
    else if Contains(message, NotNullText) then BadRequest
    else Internal
  }

  /** The HTTP status code each class is answered with. */
  function StatusCode(c: Classification): int
  {
    match c
    case Conflict => 409
    case BadRequest => 400
    case Internal => 500
  }

  /**
   * `db_operation`: the handler's own response when it returns, otherwise
   * an error response that echoes the exception's text.
   */
  function DbOperation(outcome: Outcome): (r: Response)
    ensures outcome.Ok? ==> r == outcome.value
    ensures outcome.Err? ==>
      (r.body.SqliteError? || r.body.ExceptionError?) && r.body.message == outcome.error.message
    ensures outcome.Err? ==> (r.body.SqliteError? <==> outcome.error.IntegrityError?)
    ensures outcome.Err? ==> (r.body.ExceptionError? <==> outcome.error.OtherError?)
    ensures outcome.Err? ==>
      (r.code == 409 <==> outcome.error.IntegrityError? && Occurs(outcome.error.message, UniqueText))
    ensures outcome.Err? ==>
      (r.code == 400 <==>
        && outcome.error.IntegrityError?
        && !Occurs(outcome.error.message, UniqueText)
        && (Occurs(outcome.error.message, ForeignKeyText) || Occurs(outcome.error.message, NotNullText)))
    ensures outcome.Err? ==>
      (r.code == 500 <==>
        || outcome.error.OtherError?
        || (&& !Occurs(outcome.error.message, UniqueText)
            && !Occurs(outcome.error.message, ForeignKeyText)
            && !Occurs(outcome.error.message, NotNullText)))
  {
    match outcome
    case Ok(resp) => resp
    case Err(IntegrityError(message)) => Response(StatusCode(ClassifyIntegrity(message)), SqliteError(message))
    case Err(OtherError(message)) => Response(500, ExceptionError(message))
  }

  /**
   * Precedence: a message that names both a uniqueness and a foreign-key
   * failure is a conflict, not a bad request.
   */
  lemma UniqueTakesPrecedence(message: string)
    requires Occurs(message, UniqueText) && Occurs(message, ForeignKeyText)
    ensures DbOperation(Err(IntegrityError(message))) == Response(409, SqliteError(message))
  {
  }

  /** A message made of a constraint text and a detail without 'Q' has no 'Q'. */
  lemma NoQ(text: string, detail: string)
    requires text == ForeignKeyText || text == NotNullText
    requires 'Q' !in detail
    ensures 'Q' !in text + detail
  {
    forall i | 0 <= i < |text + detail|
      ensures (text + detail)[i] != 'Q'
    {
      if i >= |text| {
        assert (text + detail)[i] == detail[i - |text|];
      }
    }
  }

  /** The engine's message for a duplicate key classifies as a conflict. */
  lemma UniqueMessageClassified(detail: string)
    ensures ClassifyIntegrity(UniqueText + detail) == Conflict
  {
    assert OccursAt(UniqueText + detail, UniqueText, 0);
  }

  /**
   * The engine's message for a broken foreign key classifies as a bad
   * request, as long as its detail cannot spell the UNIQUE text (it has no 'Q').
   */
  lemma ForeignKeyMessageClassified(detail: string)
    requires 'Q' !in detail
    ensures ClassifyIntegrity(ForeignKeyText + detail) == BadRequest
  {
    var message := ForeignKeyText + detail;
    assert OccursAt(message, ForeignKeyText, 0);
    assert UniqueText[3] == 'Q';
    NoQ(ForeignKeyText, detail);
    MissingCharRulesOut(message, UniqueText, 3);
  }

  /**
   * The engine's message for a NULL in a NOT NULL column classifies as a
   * bad request, as long as its detail has no 'Q'.
   */
  lemma NotNullMessageClassified(detail: string)
    requires 'Q' !in detail
    ensures ClassifyIntegrity(NotNullText + detail) == BadRequest
  {
    var message := NotNullText + detail;
    assert OccursAt(message, NotNullText, 0);
    assert UniqueText[3] == 'Q';
    NoQ(NotNullText, detail);
    MissingCharRulesOut(message, UniqueText, 3);
  }
}

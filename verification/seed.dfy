/**
 * The demo rows that `POST /students` creates instead of one student when
 * the body's id is the marker "11223344": fifteen students whose ids,
 * names, last names and birthdays are built from their index.
 */
module Seed {
  import opened Rows

  const SeedMarker: string := "11223344"
  const SeedCount: nat := 15

  const FirstNames: seq<string> := [
    "Juan", "María", "Pedro", "Ana", "Luis",
    "Sofía", "Carlos", "Valentina", "Andrés", "Camila",
    "Jorge", "Paula", "Mateo", "Isabella", "Daniel"
  ]

  const LastNames: seq<string> := [
    "García", "Martínez", "Rodríguez", "López", "Hernández",
    "Gómez", "Díaz", "Pérez", "Ramírez", "Torres",
    "Castro", "Moreno", "Ruiz", "Ortiz", "Jiménez"
  ]

  /** The character of a decimal digit. */
  function DigitChar(d: nat): (c: char)
    requires d < 10
    ensures '0' <= c <= '9'
  {
    (48 + d) as char
  }

  predicate IsDigits(s: string)
  {
    forall k :: 0 <= k < |s| ==> '0' <= s[k] <= '9'
  }

  /** Python's `str(n)` for a non-negative integer: its decimal digits, no leading zero. */
  function Decimal(n: nat): (s: string)
    ensures |s| > 0 && IsDigits(s)
    ensures s[0] == '0' ==> n == 0
    decreases n
  {
    if n < 10 then [DigitChar(n)] else Decimal(n / 10) + [DigitChar(n % 10)]
  }

  /** The number a string of decimal digits denotes (the partner of Decimal). */
  function DigitsValue(s: string): (v: nat)
    requires IsDigits(s)
  {
    if s == [] then 0 else DigitsValue(s[..|s| - 1]) * 10 + (s[|s| - 1] as int - 48)
  }

  /** Reading back the digits Decimal writes gives the number. */
  lemma {:induction false} DecimalRoundTrip(n: nat)
    ensures IsDigits(Decimal(n)) && DigitsValue(Decimal(n)) == n
    decreases n
  {
    if n >= 10 {
      DecimalRoundTrip(n / 10);
      var s := Decimal(n);
      assert s[..|s| - 1] == Decimal(n / 10);
    }
  }

  /** Python's `f"{i:02d}"`: the digits of n, zero-padded on the left to two characters. */
  function Pad2(n: nat): (s: string)
    ensures IsDigits(s) && DigitsValue(s) == n
    ensures n < 100 ==> |s| == 2
  {
    DecimalRoundTrip(n);
    if n < 10 then
      assert ("0" + Decimal(n))[..1] == "0";
      "0" + Decimal(n)
    else
      assert n / 10 < 10 ==> |Decimal(n / 10)| == 1;
      Decimal(n)
  }

  /** The i-th seed id, `f"{data['id']}{i}"`: the marker followed by `str(i)`. */
  function SeedId(i: nat): string
  {
    SeedMarker + Decimal(i)
  }

  /** The i-th seed birthday, `f"200{i:02d}-01-01"`. */
  function SeedBirthday(i: nat): string
  {
    "200" + Pad2(i) + "-01-01"
  }

  /** The i-th seed row: stored under its seed id, with no NULL column. */
  function SeedStudent(i: nat): (row: Student)
    requires i < SeedCount
    ensures row.id == Text(SeedId(i)) && NoNullColumn(row)
  {
    Student(Text(SeedId(i)), Text(FirstNames[i]), Text(LastNames[i] + " Dummy"), Text(SeedBirthday(i)))
  }

  /** The first n seed rows, keyed by id, as the loop inserts them; each is stored under its own id, without NULL. */
  function SeedRows(n: nat): (rows: map<Value, Student>)
    requires n <= SeedCount
    ensures forall v :: v in rows ==> rows[v].id == v && NoNullColumn(rows[v])
  {
    if n == 0 then map[] else SeedRows(n - 1)[Text(SeedId(n - 1)) := SeedStudent(n - 1)]
  }

  /** Different indexes give different seed ids. */
  lemma SeedIdInjective(i: nat, j: nat)
    requires SeedId(i) == SeedId(j)
    ensures i == j
  {
    assert SeedId(i)[|SeedMarker|..] == Decimal(i);
    assert SeedId(j)[|SeedMarker|..] == Decimal(j);
    DecimalRoundTrip(i);
    DecimalRoundTrip(j);
  }

  lemma SeedIdsDistinct()
    ensures forall i: nat, j: nat :: SeedId(i) == SeedId(j) ==> i == j
  {
    forall i: nat, j: nat | SeedId(i) == SeedId(j)
      ensures i == j
    {
      SeedIdInjective(i, j);
    }
  }

  /** The seed id ends in the index written in decimal. */
  lemma SeedIdDenotesIndex(i: nat)
    ensures SeedId(i)[..|SeedMarker|] == SeedMarker
    ensures IsDigits(SeedId(i)[|SeedMarker|..]) && DigitsValue(SeedId(i)[|SeedMarker|..]) == i
  {
    assert SeedId(i)[|SeedMarker|..] == Decimal(i);
    DecimalRoundTrip(i);
  }

  /** The row has no NULL column. */
  predicate NoNullColumn(row: Student)
  {
    row.id.Text? && row.name.Text? && row.lastname.Text? && row.birthday.Text?
  }

  /** No seed id of index n or above is among the first n seed rows. */
  lemma {:induction false} SeedRowsAbsent(n: nat)
    requires n <= SeedCount
    ensures forall j: nat :: n <= j ==> Text(SeedId(j)) !in SeedRows(n)
  {
    if n > 0 {
      SeedRowsAbsent(n - 1);
      SeedIdsDistinct();
    }
  }

  /** The first n seed rows hold the i-th seed row under the i-th seed id, for every i below n. */
  lemma {:induction false} SeedRowsLookup(n: nat)
    requires n <= SeedCount
    ensures forall j :: 0 <= j < n ==> Text(SeedId(j)) in SeedRows(n) && SeedRows(n)[Text(SeedId(j))] == SeedStudent(j)
  {
    if n > 0 {
      SeedRowsLookup(n - 1);
      forall j | 0 <= j < n - 1
        ensures Text(SeedId(j)) != Text(SeedId(n - 1))
      {
        if SeedId(j) == SeedId(n - 1) {
          SeedIdInjective(j, n - 1);
        }
      }
    }
  }

  /** The first n seed rows are n distinct rows. */
  lemma {:induction false} SeedRowsSize(n: nat)
    requires n <= SeedCount
    ensures |SeedRows(n)| == n
  {
    if n > 0 {
      SeedRowsSize(n - 1);
      SeedRowsAbsent(n - 1);
    }
  }

  /**
   * The first n seed rows hold exactly the n ids of indexes below n, each
   * with its own row, none of them NULL.
   */
  lemma SeedRowsContents(n: nat)
    requires n <= SeedCount
    ensures |SeedRows(n)| == n
    ensures forall j :: 0 <= j < n ==> Text(SeedId(j)) in SeedRows(n) && SeedRows(n)[Text(SeedId(j))] == SeedStudent(j)
    ensures forall j: nat :: n <= j ==> Text(SeedId(j)) !in SeedRows(n)
    ensures forall v :: v in SeedRows(n) ==> SeedRows(n)[v].id == v && NoNullColumn(SeedRows(n)[v])
  {
    SeedRowsSize(n);
    SeedRowsLookup(n);
    SeedRowsAbsent(n);
  }

  /** The seed rows avoid every table that holds none of their ids. */
  lemma {:induction false} SeedRowsAvoid(students: map<Value, Student>, n: nat)
    requires n <= SeedCount
    requires forall j :: 0 <= j < n ==> Text(SeedId(j)) !in students
    ensures students.Keys !! SeedRows(n).Keys
  {
    if n > 0 {
      SeedRowsAvoid(students, n - 1);
    }
  }

  /** Reading back one more digit appended to a digit string. */
  lemma DigitsValueSnoc(s: string, c: char)
    requires IsDigits(s) && '0' <= c <= '9'
    ensures IsDigits(s + [c]) && DigitsValue(s + [c]) == DigitsValue(s) * 10 + (c as int - 48)
  {
    assert (s + [c])[..|s|] == s;
  }

  /**
   * The i-th seed birthday has a five-digit year, 20000 + i, as
   * "200" followed by two padded digits reads: "20000-01-01" .. "20014-01-01".
   */
  lemma SeedBirthdayYear(i: nat)
    requires i < SeedCount
    ensures |SeedBirthday(i)| == 11
    ensures SeedBirthday(i)[5..] == "-01-01"
    ensures IsDigits(SeedBirthday(i)[..5]) && DigitsValue(SeedBirthday(i)[..5]) == 20000 + i
  {
    var b := SeedBirthday(i);
    var tens, units := DigitChar(i / 10), DigitChar(i % 10);
    if i < 10 {
      assert tens == '0';
      assert Pad2(i) == "0" + [units];
    } else {
      assert Decimal(i / 10) == [tens];
    }
    assert Pad2(i) == [tens, units];
    assert b == "200" + [tens, units] + "-01-01";
    var year := b[..5];
    assert year == "200" + [tens] + [units];
    assert DigitsValue("200") == 200 by {
      assert "200"[..2] == "20";
      assert "20"[..1] == "2";
      assert "2"[..0] == "";
    }
    DigitsValueSnoc("200", tens);
    DigitsValueSnoc("200" + [tens], units);
  }
}

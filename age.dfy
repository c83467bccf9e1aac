/** The age normalizer (`__age_normalized__` with `__get_quinquenios__`):
    a fixed cascade turns the raw age text of each row into a number, and
    the number is then looked up in the five-year buckets. */
module Age {
  import opened Py
  import opened PyStr

  /** One entry of the `age_quinquennia` catalog, in catalog order. */
  datatype Bucket = Bucket(id: string, ages: set<int>)

  /** The two columns the normalizer reads from a row. */
  datatype AgeInput = AgeInput(patientAge: string, gender: string)

  /** Age texts that are really a status or a sex: the gender column is read instead. */
  const Placeholders: seq<string> := ["Hospitalized", "Ambulatory", "Male", "Female"]

  // ---------------------------------------------------------------------
  // The quinquennium lookup
  // ---------------------------------------------------------------------

  /** Bucket `j` is the first bucket that holds `val`. */
  predicate FirstBucket(val: int, buckets: seq<Bucket>, j: int)
  {
    0 <= j < |buckets| && val in buckets[j].ages &&
    forall i :: 0 <= i < j ==> val !in buckets[i].ages
  }

  /** The pair `(val, id)` for the first bucket holding `val`, `None` when none does. */
  function Quinquennium(val: int, buckets: seq<Bucket>): (r: Option<(int, string)>)
    ensures r.None? <==> forall j :: 0 <= j < |buckets| ==> val !in buckets[j].ages
    ensures r.Some? ==> r.value.0 == val && exists j :: FirstBucket(val, buckets, j) && r.value.1 == buckets[j].id
    decreases |buckets|
  {
    if |buckets| == 0 then None
    else if val in buckets[0].ages then
      assert FirstBucket(val, buckets, 0);
      Some((val, buckets[0].id))
    else
      var r := Quinquennium(val, buckets[1..]);
      if r.Some? then
        var j :| FirstBucket(val, buckets[1..], j) && r.value.1 == buckets[1..][j].id;
        assert FirstBucket(val, buckets, j + 1);
        r
      else r
  }

  /** `__get_quinquenios__`: the loop over the buckets that returns at the first hit. */
  method GetQuinquennium(val: int, buckets: seq<Bucket>) returns (r: Option<(int, string)>)
    ensures r == Quinquennium(val, buckets)
  {
    var j := 0;
    while j < |buckets|
      invariant 0 <= j <= |buckets|
      invariant Quinquennium(val, buckets[j..]) == Quinquennium(val, buckets)
    {
      assert buckets[j..][1..] == buckets[j + 1..];
      if val in buckets[j].ages {
        return Some((val, buckets[j].id));
      }
      j := j + 1;
    }
    return None;
  }

  // ---------------------------------------------------------------------
  // The age cascade
  // ---------------------------------------------------------------------

  /** `int(text)` inside the `except` branch, where a `ValueError` is not caught. */
  function IntOrRaise(text: string): (r: Result<int>)
    ensures r.Err? <==> PyInt(text).None?
    ensures r.Err? ==> r.error == ValueError
  {
    match PyInt(text)
    case Some(n) => Ok(n)
    case None => Err(ValueError)
  }

  /** The number the cascade gives a row; -1 is the unresolved age. */
  function ResolveAge(row: AgeInput, aliases: map<string, int>): (r: Result<int>)
    ensures r.Err? ==> r.error == ValueError
    ensures r.Err? ==> PyInt(row.patientAge).None? && Lower(row.patientAge) !in aliases &&
                        (row.patientAge in Placeholders || 'A' in row.patientAge || '.' in row.patientAge)
  {
    var a := row.patientAge;
    match PyInt(a)
    case Some(n) => Ok(n)
    case None =>
      if Lower(a) in aliases then Ok(aliases[Lower(a)])
      else if a in Placeholders then IntOrRaise(row.gender)
      else if 'A' in a then IntOrRaise(a[..Find(a, 'A').value])
      else if Contains(a, "onths") then Ok(0)
      else if '.' in a then IntOrRaise(a[..Find(a, '.').value])
      else Ok(-1)
  }

  /** The element a row contributes: its bucket pair, or `None` without a bucket. */
  function AgeCell(row: AgeInput, aliases: map<string, int>, buckets: seq<Bucket>): (r: Result<Option<(int, string)>>)
    ensures r.Err? <==> ResolveAge(row, aliases).Err?
    ensures r.Err? ==> r.error == ValueError
  {
    match ResolveAge(row, aliases)
    case Err(e) => Err(e)
    case Ok(val) => Ok(Quinquennium(val, buckets))
  }

  /** The column the normalizer returns: one element per row, in row order,
      or the `ValueError` of the first row whose cascade raises. */
  function AgeColumn(rows: seq<AgeInput>, aliases: map<string, int>, buckets: seq<Bucket>): (r: Result<seq<Option<(int, string)>>>)
    ensures r.Ok? <==> forall i :: 0 <= i < |rows| ==> ResolveAge(rows[i], aliases).Ok?
    ensures r.Ok? ==> |r.value| == |rows|
    ensures r.Err? ==> r.error == ValueError
  {
    MapOrRaise(rows, row => AgeCell(row, aliases, buckets))
  }

  /** The column after one more row, computed from the column before it. */
  lemma AgeColumnStep(rows: seq<AgeInput>, i: nat, aliases: map<string, int>, buckets: seq<Bucket>)
    requires i < |rows| && AgeColumn(rows[..i], aliases, buckets).Ok?
    ensures AgeColumn(rows[..i + 1], aliases, buckets) ==
              match AgeCell(rows[i], aliases, buckets)
              case Err(e) => Err(e)
              case Ok(c) => Ok(AgeColumn(rows[..i], aliases, buckets).value + [c])
  {
    assert rows[..i + 1][..i] == rows[..i];
  }

  /** Once a prefix of the column raises, the whole column raises. */
  lemma AgeColumnAborts(rows: seq<AgeInput>, k: nat, aliases: map<string, int>, buckets: seq<Bucket>)
    requires k <= |rows| && AgeColumn(rows[..k], aliases, buckets).Err?
    ensures AgeColumn(rows, aliases, buckets) == AgeColumn(rows[..k], aliases, buckets)
  {
    MapOrRaisePrefix(rows, row => AgeCell(row, aliases, buckets), k);
  }

  /** `__age_normalized__`: one element per row, or the exception that aborts it. */
  method AgeNormalized(rows: seq<AgeInput>, aliases: map<string, int>, buckets: seq<Bucket>)
    returns (r: Result<seq<Option<(int, string)>>>)
    ensures r == AgeColumn(rows, aliases, buckets)
  {
    var variant: seq<Option<(int, string)>> := [];
    var i := 0;
    while i < |rows|
      invariant 0 <= i <= |rows|
      invariant AgeColumn(rows[..i], aliases, buckets) == Ok(variant)
    {
      var val := ResolveAge(rows[i], aliases);
      AgeColumnStep(rows, i, aliases, buckets);
      if val.Err? {
        AgeColumnAborts(rows, i + 1, aliases, buckets);
        return Err(val.error);
      }
      var q := GetQuinquennium(val.value, buckets);
      variant := variant + [q];
      i := i + 1;
    }
    assert rows[..|rows|] == rows;
    return Ok(variant);
  }

  // ---------------------------------------------------------------------
  // What each step of the cascade does
  // ---------------------------------------------------------------------

  /** Step 1: text `int()` accepts is that age, whatever the catalogs hold;
      the decimal spelling of every integer is such a text. */
  lemma IntegerAge(a: string, n: int, gender: string, aliases: map<string, int>)
    requires PyInt(a) == Some(n)
    ensures ResolveAge(AgeInput(a, gender), aliases) == Ok(n)
    ensures ResolveAge(AgeInput(ShowInt(n), gender), aliases) == Ok(n)
  {
    PyIntShowInt(n);
  }

  /** Step 2: text `int()` rejects whose lower-cased form is in the alias
      catalog takes the catalog's number; this comes before every later
      step, placeholders included. */
  lemma AliasAge(a: string, gender: string, aliases: map<string, int>)
    requires PyInt(a).None? && Lower(a) in aliases
    ensures ResolveAge(AgeInput(a, gender), aliases) == Ok(aliases[Lower(a)])
  {
  }

  /** Step 3: a status or sex placeholder takes its number from the gender
      column, and a gender that is not an integer aborts the column. */
  lemma PlaceholderAge(k: nat, gender: string, aliases: map<string, int>)
    requires k < |Placeholders|
    requires Lower(Placeholders[k]) !in aliases
    ensures ResolveAge(AgeInput(Placeholders[k], gender), aliases) == IntOrRaise(gender)
  {
    var p := Placeholders[k];
    assert p[0] in p;
    PyIntRejects(p, p[0]);
  }

  /** Step 4: the text before the first 'A' is read as the number (surrounding
      whitespace allowed, as `int()` allows it). */
  lemma DecadeAge(head: string, rest: string, gender: string, aliases: map<string, int>)
    requires 'A' !in head && PyInt(head).Some?
    requires Lower(head + "A" + rest) !in aliases && head + "A" + rest !in Placeholders
    ensures ResolveAge(AgeInput(head + "A" + rest, gender), aliases) == Ok(PyInt(head).value)
  {
    var a := head + "A" + rest;
    assert a[|head|] == 'A';
    PyIntRejects(a, 'A');
    assert a[..|head|] == head;
    assert Find(a, 'A') == Some(|head|);
  }

  /** Step 5: without an 'A', text mentioning months is an infant: age 0. */
  lemma MonthsAge(a: string, gender: string, aliases: map<string, int>)
    requires 'A' !in a && Contains(a, "onths")
    requires Lower(a) !in aliases && a !in Placeholders
    ensures ResolveAge(AgeInput(a, gender), aliases) == Ok(0)
  {
    ContainsAt(a, "onths");
    var k :| OccursAt(a, "onths", k);
    assert a[k] == "onths"[0];
    PyIntRejects(a, 'o');
  }

  /** Step 6: otherwise the integer part of a decimal is the number. */
  lemma DecimalAge(whole: string, frac: string, gender: string, aliases: map<string, int>)
    requires '.' !in whole && PyInt(whole).Some?
    requires 'A' !in whole + "." + frac && !Contains(whole + "." + frac, "onths")
    requires Lower(whole + "." + frac) !in aliases && whole + "." + frac !in Placeholders
    ensures ResolveAge(AgeInput(whole + "." + frac, gender), aliases) == Ok(PyInt(whole).value)
  {
    var a := whole + "." + frac;
    assert a[|whole|] == '.';
    PyIntRejects(a, '.');
    assert a[..|whole|] == whole;
    assert Find(a, '.') == Some(|whole|);
  }

  /** Step 7: text that no step recognises is the unresolved age -1, which
      has no bucket unless a bucket lists -1. */
  lemma UnresolvedAge(a: string, gender: string, aliases: map<string, int>, buckets: seq<Bucket>)
    requires PyInt(a).None? && Lower(a) !in aliases && a !in Placeholders
    requires 'A' !in a && !Contains(a, "onths") && '.' !in a
    requires forall j :: 0 <= j < |buckets| ==> -1 !in buckets[j].ages
    ensures ResolveAge(AgeInput(a, gender), aliases) == Ok(-1)
    ensures AgeCell(AgeInput(a, gender), aliases, buckets) == Ok(None)
  {
  }

  /** "Male" next to gender "1" is age 1. */
  lemma MaleExample(aliases: map<string, int>)
    requires "male" !in aliases
    ensures ResolveAge(AgeInput("Male", "1"), aliases) == Ok(1)
  {
    assert Lower("Male") == "male";
    assert Placeholders[2] == "Male";
    PlaceholderAge(2, "1", aliases);
    PyIntShowInt(1);
    assert ShowInt(1) == "1";
  }

  /** "Male" with "male" in the alias catalog takes the alias, not the gender. */
  lemma MaleAliasExample(gender: string, aliases: map<string, int>)
    requires "male" in aliases
    ensures ResolveAge(AgeInput("Male", gender), aliases) == Ok(aliases["male"])
  {
    assert Lower("Male") == "male";
    PyIntRejects("Male", 'M');
    AliasAge("Male", gender, aliases);
  }

  /** " 045" is age 45: `int()` strips the space and accepts the leading zero. */
  lemma PaddedIntegerExample(gender: string, aliases: map<string, int>)
    ensures ResolveAge(AgeInput(" 045", gender), aliases) == Ok(45)
  {
    assert TrimStart(" 045") == "045";
    assert TrimEnd("045") == "045";
    assert IsDecimal("045");
    assert DigitsValue("045") == 45 by {
      assert "045"[..2] == "04" && "04"[..1] == "0" && "0"[..0] == "";
    }
    IntegerAge(" 045", 45, gender, aliases);
  }

  /** "40 Años" is age 40: the space before the 'A' is stripped by `int()`. */
  lemma YearsTextExample(aliases: map<string, int>)
    requires "40 años" !in aliases
    ensures ResolveAge(AgeInput("40 Años", "0"), aliases) == Ok(40)
  {
    assert "40 Años" == "40 " + "A" + "ños";
    assert Lower("40 Años") == "40 años";
    assert TrimStart("40 ") == "40 ";
    assert TrimEnd("40 ") == "40";
    PyIntShowInt(40);
    assert ShowInt(40) == "40";
    DecadeAge("40 ", "ños", "0", aliases);
  }

  /** Text starting with 'A' leaves nothing to read before it: the column aborts. */
  lemma AdultAborts(gender: string, aliases: map<string, int>)
    requires "adult" !in aliases
    ensures ResolveAge(AgeInput("Adult", gender), aliases) == Err(ValueError)
  {
    assert Lower("Adult") == "adult";
    PyIntRejects("Adult", 'A');
    assert Find("Adult", 'A') == Some(0);
  }
}

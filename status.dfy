/** The patient-status grouper (`__state_group_patient_status__`): the
    lower-cased status is looked up in the `patient_status` catalog and its
    code read with `int()`; a miss (or a code `int()` rejects) that mentions
    "home" is code 1; any other row adds no code. */
module PatientStatus {
  import opened Py
  import opened PyStr

  /** The code one status text contributes, if any. */
  function StatusCode(status: string, catalog: map<string, JsonScalar>): (r: Option<int>)
    ensures Lower(status) in catalog && IntOf(catalog[Lower(status)]).Some? ==> r == IntOf(catalog[Lower(status)])
    ensures r.None? <==> (Lower(status) !in catalog || IntOf(catalog[Lower(status)]).None?) &&
                         !Contains(Lower(status), "home")
    ensures r.Some? && r.value != 1 ==> Lower(status) in catalog
  {
    var key := Lower(status);
    if key in catalog && IntOf(catalog[key]).Some? then IntOf(catalog[key])
    else if Contains(key, "home") then Some(1)
    else None
  }

  /** The codes of a status column, in row order: one per resolved row. */
  function StatusGroups(statuses: seq<string>, catalog: map<string, JsonScalar>): (r: seq<int>)
    ensures |r| <= |statuses|
  {
    if |statuses| == 0 then []
    else
      var c := StatusCode(statuses[|statuses| - 1], catalog);
      StatusGroups(statuses[..|statuses| - 1], catalog) + (if c.Some? then [c.value] else [])
  }

  /** `__state_group_patient_status__`: the `try` is the catalog lookup and
      the `int()`; the `except` is the "home" test. */
  method GroupPatientStatus(statuses: seq<string>, catalog: map<string, JsonScalar>) returns (variant: seq<int>)
    ensures variant == StatusGroups(statuses, catalog)
  {
    variant := [];
    var i := 0;
    while i < |statuses|
      invariant 0 <= i <= |statuses|
      invariant variant == StatusGroups(statuses[..i], catalog)
    {
      assert statuses[..i + 1][..i] == statuses[..i];
      var key := Lower(statuses[i]);
      var code: Option<int> := None;
      if key in catalog {
        code := IntOf(catalog[key]);
      }
      if code.Some? {
        variant := variant + [code.value];
      } else if Contains(key, "home") {
        variant := variant + [1];
      }
      i := i + 1;
    }
    assert statuses[..|statuses|] == statuses;
  }

  /** Grouping works row by row, so rows keep their relative order. */
  lemma {:induction false} StatusGroupsAppend(a: seq<string>, b: seq<string>, catalog: map<string, JsonScalar>)
    ensures StatusGroups(a + b, catalog) == StatusGroups(a, catalog) + StatusGroups(b, catalog)
    decreases |b|
  {
    if |b| == 0 {
      assert a + b == a;
    } else {
      var ab := a + b;
      assert ab[..|ab| - 1] == a + b[..|b| - 1];
      StatusGroupsAppend(a, b[..|b| - 1], catalog);
    }
  }

  /** No row is dropped exactly when every row resolves to a code. */
  lemma {:induction false} StatusGroupsLength(statuses: seq<string>, catalog: map<string, JsonScalar>)
    ensures |StatusGroups(statuses, catalog)| == |statuses| <==>
              forall i :: 0 <= i < |statuses| ==> StatusCode(statuses[i], catalog).Some?
    decreases |statuses|
  {
    if |statuses| > 0 {
      var init := statuses[..|statuses| - 1];
      StatusGroupsLength(init, catalog);
      forall i | 0 <= i < |init| ensures init[i] == statuses[i] { }
    }
  }

  /** A catalog hit whose code is an integer gives that integer, whatever
      the letter case of the status text. */
  lemma CatalogHit(status: string, catalog: map<string, JsonScalar>, n: int)
    requires Lower(status) in catalog && IntOf(catalog[Lower(status)]) == Some(n)
    ensures StatusGroups([status], catalog) == [n]
  {
    assert [status][..0] == [];
  }

  /** A miss that mentions "home" in any letter case is code 1. */
  lemma HomeFallback(status: string, catalog: map<string, JsonScalar>)
    requires Lower(status) !in catalog || IntOf(catalog[Lower(status)]).None?
    requires Contains(Lower(status), "home")
    ensures StatusGroups([status], catalog) == [1]
  {
    assert [status][..0] == [];
  }

  /** Any other row contributes nothing. */
  lemma UnknownDropped(status: string, catalog: map<string, JsonScalar>)
    requires Lower(status) !in catalog || IntOf(catalog[Lower(status)]).None?
    requires !Contains(Lower(status), "home")
    ensures StatusGroups([status], catalog) == []
  {
    assert [status][..0] == [];
  }

  /** "At Home" misses a catalog without "at home" and still groups as 1. */
  lemma AtHomeExample(catalog: map<string, JsonScalar>)
    requires "at home" !in catalog
    ensures StatusGroups(["At Home"], catalog) == [1]
  {
    assert Lower("At Home") == "at home";
    assert "at home" == "at " + "home" + "";
    ContainsInfix("at ", "home", "", "home");
    HomeFallback("At Home", catalog);
  }
}

/** The lineage classifier (`__linage_normalized__`): every lineage that
    contains "AY" is Delta; any other lineage gets the label of the first
    `variant_types` entry that lists it, unless the catch-all entry comes
    first; a lineage that nothing classifies adds no label. */
module Lineage {
  import opened Py
  import opened PyStr

  /** One entry of the `variant_types` catalog, in catalog order: a variant
      label and the lineage names listed under it. */
  datatype VariantEntry = VariantEntry(variant: string, lineages: seq<string>)

  /** The label (spelled as in the catalog) that ends the scan wherever it stands. */
  const CatchAll := "Other linages"

  /** Entry `e` ends the scan for `lineage`: it lists the lineage, or it is the catch-all. */
  predicate Fires(lineage: string, e: VariantEntry)
  {
    lineage in e.lineages || e.variant == CatchAll
  }

  /** Entry `j` is the first entry of `catalog` that fires for `lineage`. */
  predicate FirstFiring(lineage: string, catalog: seq<VariantEntry>, j: int)
  {
    0 <= j < |catalog| && Fires(lineage, catalog[j]) &&
    forall i :: 0 <= i < j ==> !Fires(lineage, catalog[i])
  }

  /** The scan over the catalog entries, in order, that stops at the first
      entry that fires. */
  function Scan(lineage: string, catalog: seq<VariantEntry>): (r: Option<string>)
    ensures r.None? <==> forall j :: 0 <= j < |catalog| ==> !Fires(lineage, catalog[j])
    ensures r.Some? ==> exists j :: FirstFiring(lineage, catalog, j) && r.value == catalog[j].variant
    decreases |catalog|
  {
    if |catalog| == 0 then None
    else if Fires(lineage, catalog[0]) then
      assert FirstFiring(lineage, catalog, 0);
      Some(catalog[0].variant)
    else
      var r := Scan(lineage, catalog[1..]);
      if r.Some? then
        var j :| FirstFiring(lineage, catalog[1..], j) && r.value == catalog[1..][j].variant;
        assert FirstFiring(lineage, catalog, j + 1);
        r
      else r
  }

  /** The label one lineage contributes, if any. */
  function Classify(lineage: string, catalog: seq<VariantEntry>): (r: Option<string>)
    ensures Contains(lineage, "AY") ==> r == Some("Delta")
    ensures r.None? <==> !Contains(lineage, "AY") && forall j :: 0 <= j < |catalog| ==> !Fires(lineage, catalog[j])
    ensures r.Some? && !Contains(lineage, "AY") ==>
              exists j :: FirstFiring(lineage, catalog, j) && r.value == catalog[j].variant
  {
    if Contains(lineage, "AY") then Some("Delta") else Scan(lineage, catalog)
  }

  /** The labels of a lineage column, in row order: one per classified row. */
  function Labels(lineages: seq<string>, catalog: seq<VariantEntry>): (r: seq<string>)
    ensures |r| <= |lineages|
  {
    if |lineages| == 0 then []
    else
      var c := Classify(lineages[|lineages| - 1], catalog);
      Labels(lineages[..|lineages| - 1], catalog) + (if c.Some? then [c.value] else [])
  }

  /** `__linage_normalized__`. The empty column raises: the final logging
      line reads the loop variable, which no iteration has bound. */
  method LineageNormalized(lineages: seq<string>, catalog: seq<VariantEntry>) returns (r: Result<seq<string>>)
    ensures |lineages| == 0 ==> r == Err(UnboundLocalError)
    ensures |lineages| > 0 ==> r == Ok(Labels(lineages, catalog))
  {
    var variant: seq<string> := [];
    var i := 0;
    while i < |lineages|
      invariant 0 <= i <= |lineages|
      invariant variant == Labels(lineages[..i], catalog)
    {
      var lineage := lineages[i];
      assert lineages[..i + 1][..i] == lineages[..i];
      if Contains(lineage, "AY") {
        variant := variant + ["Delta"];
      } else {
        ghost var before := variant;
        var j := 0;
        while j < |catalog|
          invariant 0 <= j <= |catalog|
          invariant variant == before
          invariant Scan(lineage, catalog[j..]) == Scan(lineage, catalog)
        {
          assert catalog[j..][1..] == catalog[j + 1..];
          if lineage in catalog[j].lineages {
            variant := variant + [catalog[j].variant];
            break;
          }
          if catalog[j].variant == CatchAll {
            variant := variant + [catalog[j].variant];
            break;
          }
          j := j + 1;
        }
      }
      i := i + 1;
    }
    assert lineages[..|lineages|] == lineages;
    if |variant| == 0 && |lineages| == 0 {
      r := Err(UnboundLocalError);
    } else {
      r := Ok(variant);
    }
  }

  /** Classification works row by row: the labels of a concatenation are
      the labels of its parts, so rows keep their relative order. */
  lemma {:induction false} LabelsAppend(a: seq<string>, b: seq<string>, catalog: seq<VariantEntry>)
    ensures Labels(a + b, catalog) == Labels(a, catalog) + Labels(b, catalog)
    decreases |b|
  {
    if |b| == 0 {
      assert a + b == a;
    } else {
      var ab := a + b;
      assert ab[..|ab| - 1] == a + b[..|b| - 1];
      LabelsAppend(a, b[..|b| - 1], catalog);
    }
  }

  /** No row is dropped exactly when every row is classified. */
  lemma {:induction false} LabelsLength(lineages: seq<string>, catalog: seq<VariantEntry>)
    ensures |Labels(lineages, catalog)| == |lineages| <==>
              forall i :: 0 <= i < |lineages| ==> Classify(lineages[i], catalog).Some?
    decreases |lineages|
  {
    if |lineages| > 0 {
      var init := lineages[..|lineages| - 1];
      LabelsLength(init, catalog);
      forall i | 0 <= i < |init| ensures init[i] == lineages[i] { }
    }
  }

  /** With the catch-all in the catalog every lineage is classified. */
  lemma CatchAllTotal(lineage: string, catalog: seq<VariantEntry>)
    requires exists j :: 0 <= j < |catalog| && catalog[j].variant == CatchAll
    ensures Classify(lineage, catalog).Some?
  {
    var j :| 0 <= j < |catalog| && catalog[j].variant == CatchAll;
    assert Fires(lineage, catalog[j]);
  }

  /** With the catch-all in the catalog the labels line up with the rows:
      row `i` gets Delta when its lineage contains "AY", and otherwise the
      label of the first entry that fires. */
  lemma {:induction false} LabelsAligned(lineages: seq<string>, catalog: seq<VariantEntry>)
    requires exists j :: 0 <= j < |catalog| && catalog[j].variant == CatchAll
    ensures |Labels(lineages, catalog)| == |lineages|
    ensures forall i :: 0 <= i < |lineages| ==>
              (Contains(lineages[i], "AY") ==> Labels(lineages, catalog)[i] == "Delta") &&
              (!Contains(lineages[i], "AY") ==>
                 exists j :: FirstFiring(lineages[i], catalog, j) && Labels(lineages, catalog)[i] == catalog[j].variant)
    decreases |lineages|
  {
    if |lineages| > 0 {
      var init := lineages[..|lineages| - 1];
      var last := lineages[|lineages| - 1];
      LabelsAligned(init, catalog);
      CatchAllTotal(last, catalog);
      var labels := Labels(lineages, catalog);
      assert labels == Labels(init, catalog) + [Classify(last, catalog).value];
      forall i | 0 <= i < |init| ensures init[i] == lineages[i] && labels[i] == Labels(init, catalog)[i] { }
    }
  }

  /** The "AY" override ignores the catalog: even a catalog that lists the
      lineage under another label yields Delta. */
  lemma DeltaOverride(lineage: string, catalog: seq<VariantEntry>)
    requires Contains(lineage, "AY")
    ensures Labels([lineage], catalog) == ["Delta"]
  {
    assert [lineage][..0] == [];
  }

  /** A lineage that no entry lists, with no catch-all entry, adds no label. */
  lemma UnmatchedDropped(lineage: string, catalog: seq<VariantEntry>)
    requires !Contains(lineage, "AY")
    requires forall j :: 0 <= j < |catalog| ==> lineage !in catalog[j].lineages && catalog[j].variant != CatchAll
    ensures Labels([lineage], catalog) == []
  {
    assert [lineage][..0] == [];
  }
}

/** `properties_mutations`: the cross-tabulation of requested mutation
    changes against variant types. For every change and every variant type
    present in the table, the number of rows of that variant whose
    substitution text contains the change. */
module CrossTab {
  import opened PyStr

  /** The two columns of a normalized row the cross-tabulation reads. */
  datatype TypedRow = TypedRow(aaSubstitutions: string, variantType: string)

  /** `df['variant_type'].unique()`, as a set. */
  function VariantTypes(rows: seq<TypedRow>): set<string>
  {
    set i | 0 <= i < |rows| :: rows[i].variantType
  }

  /** 1 when `row` is of variant `v` and its substitutions contain `change`. */
  function Hit(row: TypedRow, change: string, v: string): nat
  {
    if row.variantType == v && Contains(row.aaSubstitutions, change) then 1 else 0
  }

  /** The number of rows of variant `v` whose substitutions contain `change`. */
  function Hits(rows: seq<TypedRow>, change: string, v: string): (n: nat)
    ensures n <= |rows|
  {
    if |rows| == 0 then 0
    else Hits(rows[..|rows| - 1], change, v) + Hit(rows[|rows| - 1], change, v)
  }

  /** The number of times `change` is requested. */
  function Copies(changes: seq<string>, change: string): nat
  {
    multiset(changes)[change]
  }

  /** What `row` adds to entry [c][v]: one per time `c` is requested, when
      the row is a hit. */
  function Score(row: TypedRow, changes: seq<string>, c: string, v: string): nat
  {
    if Hit(row, c, v) == 1 then Copies(changes, c) else 0
  }

  /** Entry [c][v] after the rows `rows`: the sum of their scores. */
  function Weighted(rows: seq<TypedRow>, changes: seq<string>, c: string, v: string): nat
  {
    if |rows| == 0 then 0
    else Weighted(rows[..|rows| - 1], changes, c, v) + Score(rows[|rows| - 1], changes, c, v)
  }

  // ---------------------------------------------------------------------
  // The loops, as functions
  // ---------------------------------------------------------------------

  /** One pass of the inner loop: create the change's entry, all zeros,
      when it is missing, then count the row under its variant when its
      substitutions contain the change. */
  function Step(table: map<string, map<string, nat>>, row: TypedRow, change: string, types: set<string>)
    : map<string, map<string, nat>>
  {
    var t := if change !in table then table[change := map v | v in types :: 0] else table;
    if Contains(row.aaSubstitutions, change) && row.variantType in t[change]
    then t[change := t[change][row.variantType := t[change][row.variantType] + 1]]
    else t
  }

  /** The inner loop over the changes `cs`, for one row. */
  function RowCount(table: map<string, map<string, nat>>, row: TypedRow, cs: seq<string>, types: set<string>)
    : map<string, map<string, nat>>
  {
    if |cs| == 0 then table
    else Step(RowCount(table, row, cs[..|cs| - 1], types), row, cs[|cs| - 1], types)
  }

  /** Both loops over the rows `rows`. */
  function Tabulate(rows: seq<TypedRow>, changes: seq<string>, types: set<string>): (r: map<string, map<string, nat>>)
    ensures |rows| == 0 ==> r == map[]
    ensures |rows| > 0 ==> r.Keys == set c | c in changes
  {
    if |rows| == 0 then map[]
    else
      var before := Tabulate(rows[..|rows| - 1], changes, types);
      RowCountKeys(before, rows[|rows| - 1], changes, types);
      RowCount(before, rows[|rows| - 1], changes, types)
  }

  /** Every entry has a count for each variant type. */
  ghost predicate Shaped(table: map<string, map<string, nat>>, types: set<string>)
  {
    forall c :: c in table ==> table[c].Keys == types
  }

  /** `properties_mutations(df, aminos)`. An empty table gives an empty map.
      Otherwise every requested change has an entry for every variant type
      of the table, and that entry counts the matching rows once per time
      the change is requested. */
  method PropertiesMutations(rows: seq<TypedRow>, changes: seq<string>) returns (table: map<string, map<string, nat>>)
    ensures table == Tabulate(rows, changes, VariantTypes(rows))
    ensures |rows| == 0 ==> table == map[]
    ensures |rows| > 0 ==> table.Keys == set c | c in changes
    ensures |rows| > 0 ==> forall c :: c in table ==> table[c].Keys == VariantTypes(rows)
    ensures forall c, v :: c in table && v in table[c] ==> table[c][v] == Copies(changes, c) * Hits(rows, c, v)
  {
    table := map[];
    var types := VariantTypes(rows);
    var i := 0;
    while i < |rows|
      invariant 0 <= i <= |rows|
      invariant table == Tabulate(rows[..i], changes, types)
      invariant Shaped(table, types)
    {
      var row := rows[i];
      assert row.variantType in types;
      table := CountRow(table, row, changes, types);
      RowCountShaped(Tabulate(rows[..i], changes, types), row, changes, types);
      assert rows[..i + 1][..i] == rows[..i];
      i := i + 1;
    }
    assert rows[..|rows|] == rows;
    TabulateSpec(rows, changes);
  }

  /** Every entry of the table has a count for variant `v`. */
  ghost predicate HasVariant(table: map<string, map<string, nat>>, v: string)
  {
    forall c :: c in table ==> v in table[c]
  }

  /** The inner loop of `properties_mutations`, for one row. */
  method CountRow(table0: map<string, map<string, nat>>, row: TypedRow, changes: seq<string>, types: set<string>)
    returns (table: map<string, map<string, nat>>)
    requires row.variantType in types
    requires Shaped(table0, types)
    ensures table == RowCount(table0, row, changes, types)
  {
    table := table0;
    assert HasVariant(table, row.variantType);
    var j := 0;
    while j < |changes|
      invariant 0 <= j <= |changes|
      invariant table == RowCount(table0, row, changes[..j], types)
      invariant HasVariant(table, row.variantType)
    {
      var change := changes[j];
      assert changes[..j + 1][..j] == changes[..j];
      if change !in table {
        table := table[change := map v | v in types :: 0];
      }
      if Contains(row.aaSubstitutions, change) {
        table := table[change := table[change][row.variantType := table[change][row.variantType] + 1]];
      }
      j := j + 1;
    }
    assert changes[..|changes|] == changes;
  }

  // ---------------------------------------------------------------------
  // What the loops compute
  // ---------------------------------------------------------------------

  lemma StepShaped(table: map<string, map<string, nat>>, row: TypedRow, change: string, types: set<string>)
    requires Shaped(table, types)
    ensures Shaped(Step(table, row, change, types), types)
  {
  }

  /** One pass of the inner loop gives the change an entry, all zeros when
      it is new, and adds one under the row's variant exactly when the
      row's substitutions contain the change; nothing else changes. */
  lemma StepEffect(table: map<string, map<string, nat>>, row: TypedRow, change: string, types: set<string>)
    ensures Step(table, row, change, types).Keys == table.Keys + {change}
    ensures forall c :: c in table && c != change ==> Step(table, row, change, types)[c] == table[c]
    ensures Step(table, row, change, types)[change].Keys == if change in table then table[change].Keys else types
    ensures forall v :: v in Step(table, row, change, types)[change] && v != row.variantType ==>
              Step(table, row, change, types)[change][v] == (if change in table then table[change][v] else 0)
    ensures row.variantType in Step(table, row, change, types)[change] ==>
              Step(table, row, change, types)[change][row.variantType] ==
                (if change in table then table[change][row.variantType] else 0) +
                (if Contains(row.aaSubstitutions, change) then 1 else 0)
  {
  }

  /** The inner loop gives every change of the row's list an entry and
      leaves the entries of other changes as they were. */
  lemma {:induction false} RowCountKeys(table: map<string, map<string, nat>>, row: TypedRow, cs: seq<string>,
                                        types: set<string>)
    ensures RowCount(table, row, cs, types).Keys == table.Keys + (set c | c in cs)
    ensures forall c :: c in table && c !in cs ==> RowCount(table, row, cs, types)[c] == table[c]
    decreases |cs|
  {
    if |cs| > 0 {
      var init := cs[..|cs| - 1];
      RowCountKeys(table, row, init, types);
      StepEffect(RowCount(table, row, init, types), row, cs[|cs| - 1], types);
      assert cs == init + [cs[|cs| - 1]];
      assert (set c | c in cs) == (set c | c in init) + {cs[|cs| - 1]};
    }
  }

  lemma {:induction false} RowCountShaped(table: map<string, map<string, nat>>, row: TypedRow, cs: seq<string>,
                                          types: set<string>)
    requires Shaped(table, types)
    ensures Shaped(RowCount(table, row, cs, types), types)
    decreases |cs|
  {
    if |cs| > 0 {
      RowCountShaped(table, row, cs[..|cs| - 1], types);
      StepShaped(RowCount(table, row, cs[..|cs| - 1], types), row, cs[|cs| - 1], types);
    }
  }

  /** The entries after the rows `done`, and the first `k` changes of the
      current row. */
  ghost predicate Counted(table: map<string, map<string, nat>>, done: seq<TypedRow>, row: TypedRow,
                          changes: seq<string>, k: nat)
    requires k <= |changes|
  {
    forall c, v :: c in table && v in table[c] ==>
      table[c][v] == Weighted(done, changes, c, v) + (if Hit(row, c, v) == 1 then Copies(changes[..k], c) else 0)
  }

  /** The changes that have an entry once the first `k` changes of a row
      are done: only those seen so far on the first row, all of them later. */
  ghost function KeysAfter(changes: seq<string>, k: nat, first: bool): set<string>
    requires k <= |changes|
  {
    if first then set c | c in changes[..k] else set c | c in changes
  }

  /** One pass of the inner loop: the change has its entry afterwards. */
  lemma StepKeys(table: map<string, map<string, nat>>, row: TypedRow, changes: seq<string>, j: nat,
                 types: set<string>, first: bool)
    requires j < |changes|
    requires table.Keys == KeysAfter(changes, j, first)
    ensures Step(table, row, changes[j], types).Keys == KeysAfter(changes, j + 1, first)
  {
    assert changes[..j + 1] == changes[..j] + [changes[j]];
    if !first {
      assert changes[j] in set c | c in changes;
    }
  }

  /** One pass of the inner loop keeps the entries counted. */
  lemma StepCounted(table: map<string, map<string, nat>>, done: seq<TypedRow>, row: TypedRow,
                    changes: seq<string>, j: nat, types: set<string>)
    requires j < |changes|
    requires row.variantType in types && Shaped(table, types)
    requires table.Keys == KeysAfter(changes, j, |done| == 0)
    requires Counted(table, done, row, changes, j)
    ensures Counted(Step(table, row, changes[j], types), done, row, changes, j + 1)
  {
    var change := changes[j];
    var after := Step(table, row, change, types);
    assert changes[..j + 1] == changes[..j] + [change];
    if change !in table {
      assert |done| == 0 && change !in changes[..j];
    }
    forall c, v | c in after && v in after[c]
      ensures after[c][v] == Weighted(done, changes, c, v) + (if Hit(row, c, v) == 1 then Copies(changes[..j + 1], c) else 0)
    {
      if c == change {
        assert Copies(changes[..j + 1], c) == Copies(changes[..j], c) + 1;
      } else {
        assert Copies(changes[..j + 1], c) == Copies(changes[..j], c);
        assert after[c] == table[c];
      }
    }
  }

  /** The inner loop over the first `k` changes keeps keys, shape and counts. */
  lemma {:induction false} RowCountInv(table: map<string, map<string, nat>>, done: seq<TypedRow>, row: TypedRow,
                                       changes: seq<string>, k: nat, types: set<string>)
    requires k <= |changes|
    requires row.variantType in types && Shaped(table, types)
    requires table.Keys == KeysAfter(changes, 0, |done| == 0)
    requires Counted(table, done, row, changes, 0)
    ensures RowCount(table, row, changes[..k], types).Keys == KeysAfter(changes, k, |done| == 0)
    ensures Shaped(RowCount(table, row, changes[..k], types), types)
    ensures Counted(RowCount(table, row, changes[..k], types), done, row, changes, k)
    decreases k
  {
    if k > 0 {
      RowCountInv(table, done, row, changes, k - 1, types);
      var prev := RowCount(table, row, changes[..k - 1], types);
      assert changes[..k][..k - 1] == changes[..k - 1];
      assert RowCount(table, row, changes[..k], types) == Step(prev, row, changes[k - 1], types);
      StepKeys(prev, row, changes, k - 1, types, |done| == 0);
      StepShaped(prev, row, changes[k - 1], types);
      StepCounted(prev, done, row, changes, k - 1, types);
    }
  }

  /** Before the first change of a row, and after the last. */
  lemma RowCountAll(table: map<string, map<string, nat>>, done: seq<TypedRow>, row: TypedRow,
                    changes: seq<string>, types: set<string>)
    requires row.variantType in types && Shaped(table, types)
    requires |done| == 0 ==> table == map[]
    requires |done| > 0 ==> table.Keys == set c | c in changes
    requires forall c, v :: c in table && v in table[c] ==> table[c][v] == Weighted(done, changes, c, v)
    ensures RowCount(table, row, changes, types).Keys == set c | c in changes
    ensures Shaped(RowCount(table, row, changes, types), types)
    ensures forall c, v :: c in RowCount(table, row, changes, types) && v in RowCount(table, row, changes, types)[c] ==>
              RowCount(table, row, changes, types)[c][v] == Weighted(done + [row], changes, c, v)
  {
    assert table.Keys == KeysAfter(changes, 0, |done| == 0);
    assert Counted(table, done, row, changes, 0);
    RowCountInv(table, done, row, changes, |changes|, types);
    assert changes[..|changes|] == changes;
    assert (done + [row])[..|done|] == done;
    var after := RowCount(table, row, changes, types);
    assert Counted(after, done, row, changes, |changes|);
  }

  /** Both loops: keys, shape and counts of the whole cross-tabulation. */
  lemma {:induction false} TabulateInv(rows: seq<TypedRow>, changes: seq<string>, types: set<string>)
    requires forall i :: 0 <= i < |rows| ==> rows[i].variantType in types
    ensures |rows| == 0 ==> Tabulate(rows, changes, types) == map[]
    ensures |rows| > 0 ==> Tabulate(rows, changes, types).Keys == set c | c in changes
    ensures Shaped(Tabulate(rows, changes, types), types)
    ensures forall c, v :: c in Tabulate(rows, changes, types) && v in Tabulate(rows, changes, types)[c] ==>
              Tabulate(rows, changes, types)[c][v] == Weighted(rows, changes, c, v)
    decreases |rows|
  {
    if |rows| > 0 {
      var init := rows[..|rows| - 1];
      TabulateInv(init, changes, types);
      assert rows == init + [rows[|rows| - 1]];
      RowCountAll(Tabulate(init, changes, types), init, rows[|rows| - 1], changes, types);
    }
  }

  /** What `properties_mutations` returns, in terms of its inputs. */
  lemma TabulateSpec(rows: seq<TypedRow>, changes: seq<string>)
    ensures |rows| == 0 ==> Tabulate(rows, changes, VariantTypes(rows)) == map[]
    ensures |rows| > 0 ==> Tabulate(rows, changes, VariantTypes(rows)).Keys == set c | c in changes
    ensures |rows| > 0 ==> forall c :: c in Tabulate(rows, changes, VariantTypes(rows)) ==>
              Tabulate(rows, changes, VariantTypes(rows))[c].Keys == VariantTypes(rows)
    ensures forall c, v :: c in Tabulate(rows, changes, VariantTypes(rows)) &&
                           v in Tabulate(rows, changes, VariantTypes(rows))[c] ==>
              Tabulate(rows, changes, VariantTypes(rows))[c][v] == Copies(changes, c) * Hits(rows, c, v)
  {
    var types := VariantTypes(rows);
    TabulateInv(rows, changes, types);
    var t := Tabulate(rows, changes, types);
    forall c, v | c in t && v in t[c] ensures t[c][v] == Copies(changes, c) * Hits(rows, c, v) {
      WeightedHits(rows, changes, c, v);
    }
  }

  /** The sum of the scores is the request count times the number of hits. */
  lemma {:induction false} WeightedHits(rows: seq<TypedRow>, changes: seq<string>, c: string, v: string)
    ensures Weighted(rows, changes, c, v) == Copies(changes, c) * Hits(rows, c, v)
    decreases |rows|
  {
    if |rows| > 0 {
      WeightedHits(rows[..|rows| - 1], changes, c, v);
      var k, h := Copies(changes, c), Hits(rows[..|rows| - 1], c, v);
      assert k * (h + 1) == k * h + k;
    }
  }

  /** With every change requested once, an entry is the number of rows of
      that variant containing the change, which never exceeds the number of
      rows of that variant. */
  lemma DistinctChanges(rows: seq<TypedRow>, changes: seq<string>, c: string, v: string)
    requires c in changes
    requires forall i, j :: 0 <= i < j < |changes| ==> changes[i] != changes[j]
    ensures Copies(changes, c) * Hits(rows, c, v) == Hits(rows, c, v)
    ensures Hits(rows, c, v) <= Count(rows, v)
  {
    SingleCopy(changes, c);
    HitsBound(rows, c, v);
  }

  /** The number of rows of variant `v`. */
  function Count(rows: seq<TypedRow>, v: string): nat
  {
    if |rows| == 0 then 0
    else Count(rows[..|rows| - 1], v) + (if rows[|rows| - 1].variantType == v then 1 else 0)
  }

  lemma {:induction false} HitsBound(rows: seq<TypedRow>, c: string, v: string)
    ensures Hits(rows, c, v) <= Count(rows, v)
    decreases |rows|
  {
    if |rows| > 0 {
      HitsBound(rows[..|rows| - 1], c, v);
    }
  }

  lemma {:induction false} SingleCopy(changes: seq<string>, c: string)
    requires c in changes
    requires forall i, j :: 0 <= i < j < |changes| ==> changes[i] != changes[j]
    ensures Copies(changes, c) == 1
    decreases |changes|
  {
    assert changes == [changes[0]] + changes[1..];
    if changes[0] == c {
      assert c !in changes[1..] by {
        forall k | 0 <= k < |changes[1..]| ensures changes[1..][k] != c {
          assert changes[1..][k] == changes[k + 1];
        }
      }
    } else {
      SingleCopy(changes[1..], c);
    }
  }

  /** Two rows, one Delta and one Omicron, both carrying N_R203K: one hit
      each. */
  lemma TwoVariantsExample()
    ensures Hits([TypedRow("(N_R203K,Spike_D614G)", "Delta"), TypedRow("(N_R203K)", "Omicron")], "N_R203K", "Delta") == 1
    ensures Hits([TypedRow("(N_R203K,Spike_D614G)", "Delta"), TypedRow("(N_R203K)", "Omicron")], "N_R203K", "Omicron") == 1
  {
    var a := TypedRow("(N_R203K,Spike_D614G)", "Delta");
    var b := TypedRow("(N_R203K)", "Omicron");
    ContainsInfix("(", "N_R203K", ",Spike_D614G)", "N_R203K");
    ContainsInfix("(", "N_R203K", ")", "N_R203K");
    assert a.aaSubstitutions == "(" + "N_R203K" + ",Spike_D614G)";
    assert b.aaSubstitutions == "(" + "N_R203K" + ")";
    assert [a, b][..1] == [a];
    assert [a][..0] == [];
  }
}

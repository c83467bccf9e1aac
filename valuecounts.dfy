/** `np.unique(values, return_counts=True)` on a list of strings: the
    distinct values in ascending order, each with the number of times it
    occurs. The two arrays numpy returns are kept here as one sequence of
    (value, count) pairs. */
module ValueCounts {

  // ---------------------------------------------------------------------
  // The order numpy sorts strings in
  // ---------------------------------------------------------------------

  /** Code point by code point; a proper prefix comes first. */
  predicate LexLess(a: string, b: string)
    decreases |a|
  {
    |b| > 0 && (|a| == 0 || a[0] < b[0] || (a[0] == b[0] && LexLess(a[1..], b[1..])))
  }

  lemma {:induction false} LexIrreflexive(a: string)
    ensures !LexLess(a, a)
    decreases |a|
  {
    if |a| > 0 {
      LexIrreflexive(a[1..]);
    }
  }

  lemma {:induction false} LexTransitive(a: string, b: string, c: string)
    requires LexLess(a, b) && LexLess(b, c)
    ensures LexLess(a, c)
    decreases |a|
  {
    if |a| > 0 && a[0] == b[0] && b[0] == c[0] {
      LexTransitive(a[1..], b[1..], c[1..]);
    }
  }

  lemma {:induction false} LexTotal(a: string, b: string)
    requires a != b
    ensures LexLess(a, b) || LexLess(b, a)
    decreases |a|
  {
    if |a| > 0 && |b| > 0 && a[0] == b[0] {
      assert a == [a[0]] + a[1..] && b == [b[0]] + b[1..];
      LexTotal(a[1..], b[1..]);
    }
  }

  // ---------------------------------------------------------------------
  // Tallies
  // ---------------------------------------------------------------------

  /** The values in strictly ascending order: sorted and pairwise distinct. */
  predicate Ascending(t: seq<(string, nat)>)
  {
    forall i, j :: 0 <= i < j < |t| ==> LexLess(t[i].0, t[j].0)
  }

  /** Every count is at least one. */
  predicate Positive(t: seq<(string, nat)>)
  {
    forall i :: 0 <= i < |t| ==> t[i].1 >= 1
  }

  /** `x` is below every value of the tally. */
  predicate Above(x: string, t: seq<(string, nat)>)
  {
    forall i :: 0 <= i < |t| ==> LexLess(x, t[i].0)
  }

  /** `x` has an entry in the tally. */
  predicate Listed(t: seq<(string, nat)>, x: string)
  {
    exists i :: 0 <= i < |t| && t[i].0 == x
  }

  /** The count the tally records for `x`: the sum over its entries. */
  function Occ(t: seq<(string, nat)>, x: string): nat
  {
    if |t| == 0 then 0 else (if t[0].0 == x then t[0].1 else 0) + Occ(t[1..], x)
  }

  /** The sum of all counts. */
  function Total(t: seq<(string, nat)>): nat
  {
    if |t| == 0 then 0 else t[0].1 + Total(t[1..])
  }

  /** One more occurrence of `x`, keeping the values ascending. */
  function Insert(t: seq<(string, nat)>, x: string): seq<(string, nat)>
  {
    if |t| == 0 then [(x, 1)]
    else if t[0].0 == x then [(x, t[0].1 + 1)] + t[1..]
    else if LexLess(x, t[0].0) then [(x, 1)] + t
    else [t[0]] + Insert(t[1..], x)
  }

  /** Prepending a value below every value keeps a tally ascending. */
  lemma AscendingCons(e: (string, nat), t: seq<(string, nat)>)
    requires Ascending(t) && Above(e.0, t)
    ensures Ascending([e] + t)
  {
    var s := [e] + t;
    forall i, j | 0 <= i < j < |s| ensures LexLess(s[i].0, s[j].0) {
      assert s[j] == t[j - 1];
      if i > 0 {
        assert s[i] == t[i - 1];
      }
    }
  }

  /** The first value of an ascending tally is below the rest. */
  lemma AscendingHead(t: seq<(string, nat)>)
    requires |t| > 0 && Ascending(t)
    ensures Ascending(t[1..]) && Above(t[0].0, t[1..])
  {
    forall i | 0 <= i < |t[1..]| ensures LexLess(t[0].0, t[1..][i].0) {
      assert t[1..][i] == t[i + 1];
    }
  }

  /** A value below another value and below a tally is below the tally with
      that other value inserted. */
  lemma {:induction false} InsertAbove(t: seq<(string, nat)>, x: string, a: string)
    requires Above(a, t) && LexLess(a, x)
    ensures Above(a, Insert(t, x))
    decreases |t|
  {
    if |t| > 0 && t[0].0 != x && !LexLess(x, t[0].0) {
      InsertAbove(t[1..], x, a);
      var r := Insert(t, x);
      forall i | 0 <= i < |r| ensures LexLess(a, r[i].0) {
        if i > 0 { assert r[i] == Insert(t[1..], x)[i - 1]; }
      }
    }
  }

  lemma {:induction false} InsertAscending(t: seq<(string, nat)>, x: string)
    requires Ascending(t) && Positive(t)
    ensures Ascending(Insert(t, x)) && Positive(Insert(t, x))
    decreases |t|
  {
    if |t| > 0 {
      AscendingHead(t);
      if t[0].0 == x {
        AscendingCons((x, t[0].1 + 1), t[1..]);
      } else if LexLess(x, t[0].0) {
        forall i | 0 <= i < |t| ensures LexLess(x, t[i].0) {
          if i > 0 { LexTransitive(x, t[0].0, t[i].0); }
        }
        AscendingCons((x, 1), t);
      } else {
        LexTotal(x, t[0].0);
        InsertAscending(t[1..], x);
        InsertAbove(t[1..], x, t[0].0);
        AscendingCons(t[0], Insert(t[1..], x));
        assert t[0].1 >= 1;
      }
    }
  }

  lemma {:induction false} InsertOcc(t: seq<(string, nat)>, x: string, y: string)
    ensures Occ(Insert(t, x), y) == Occ(t, y) + (if y == x then 1 else 0)
    ensures Total(Insert(t, x)) == Total(t) + 1
    decreases |t|
  {
    var r := Insert(t, x);
    if |t| == 0 {
      assert r[1..] == [];
    } else if t[0].0 == x {
      assert r[1..] == t[1..];
    } else if LexLess(x, t[0].0) {
      assert r[1..] == t;
    } else {
      InsertOcc(t[1..], x, y);
      assert r[1..] == Insert(t[1..], x);
    }
  }

  /** In an ascending tally the count recorded for a value is the count of
      its one entry, and a value with no entry has count zero. */
  lemma {:induction false} OccAscending(t: seq<(string, nat)>, x: string)
    requires Ascending(t)
    ensures forall i :: 0 <= i < |t| && t[i].0 == x ==> Occ(t, x) == t[i].1
    ensures !Listed(t, x) ==> Occ(t, x) == 0
    decreases |t|
  {
    if |t| > 0 {
      var tail := t[1..];
      AscendingHead(t);
      OccAscending(tail, x);
      forall i | 0 <= i < |t| && t[i].0 == x ensures Occ(t, x) == t[i].1 {
        if i == 0 {
          if Listed(tail, x) {
            var k :| 0 <= k < |tail| && tail[k].0 == x;
            LexIrreflexive(x);
          }
        } else {
          assert tail[i - 1].0 == x;
          if t[0].0 == x {
            LexIrreflexive(x);
          }
        }
      }
      if Listed(tail, x) {
        var k :| 0 <= k < |tail| && tail[k].0 == x;
        assert t[k + 1].0 == x;
      }
      if t[0].0 == x {
        assert Listed(t, x);
      }
    }
  }

  /** The tally of `xs` built one value at a time, in list order. */
  function Tally(xs: seq<string>): (t: seq<(string, nat)>)
    ensures Ascending(t) && Positive(t)
    ensures forall y :: Occ(t, y) == multiset(xs)[y]
    ensures Total(t) == |xs|
  {
    if |xs| == 0 then []
    else
      var init := xs[..|xs| - 1];
      var last := xs[|xs| - 1];
      var prev := Tally(init);
      InsertAscending(prev, last);
      assert xs == init + [last];
      forall y ensures Occ(Insert(prev, last), y) == multiset(xs)[y] {
        InsertOcc(prev, last, y);
      }
      InsertOcc(prev, last, last);
      Insert(prev, last)
  }

  /** `np.unique(values, return_counts=True)`: the distinct values in
      strictly ascending order, each with the number of its occurrences;
      every count is at least one, a value is listed exactly when it occurs,
      and the counts add up to the length of the input. */
  lemma UniqueCounts(xs: seq<string>)
    ensures Ascending(Tally(xs))
    ensures forall i :: 0 <= i < |Tally(xs)| ==> 1 <= Tally(xs)[i].1 == multiset(xs)[Tally(xs)[i].0]
    ensures forall x :: x in xs <==> Listed(Tally(xs), x)
    ensures Total(Tally(xs)) == |xs|
  {
    var t := Tally(xs);
    forall i | 0 <= i < |t| ensures t[i].1 == multiset(xs)[t[i].0] {
      OccAscending(t, t[i].0);
    }
    forall x ensures x in xs <==> Listed(t, x) {
      OccAscending(t, x);
      if Listed(t, x) {
        var i :| 0 <= i < |t| && t[i].0 == x;
        assert t[i].1 >= 1;
      }
    }
  }
}

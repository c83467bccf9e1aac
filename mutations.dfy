/** The mutation helpers: extracting a protein segment's tokens from the
    amino-acid substitution column (`search_amino`), the position written in
    a token, the region of the protein that position falls in, and the rows
    of the per-segment mutation table built from the value counts. */
module Mutations {
  import opened Py
  import opened PyStr
  import opened ValueCounts

  // ---------------------------------------------------------------------
  // search_amino
  // ---------------------------------------------------------------------

  /** The tokens of one substitution cell: both parentheses deleted, then
      split on ','. */
  function Tokens(cell: string): (r: seq<string>)
    ensures |r| >= 1
    ensures forall i :: 0 <= i < |r| ==> '(' !in r[i] && ')' !in r[i] && ',' !in r[i]
  {
    var stripped := Remove(Remove(cell, '('), ')');
    SplitAbsent(stripped, ',', '(');
    SplitAbsent(stripped, ',', ')');
    Split(stripped, ',')
  }

  /** Token `j` is the first of `tokens` that contains `segment`. */
  predicate FirstContaining(tokens: seq<string>, segment: string, j: int)
  {
    0 <= j < |tokens| && Contains(tokens[j], segment) &&
    forall i :: 0 <= i < j ==> !Contains(tokens[i], segment)
  }

  /** The first token containing `segment`, if any. */
  function FirstWith(tokens: seq<string>, segment: string): (r: Option<string>)
    ensures r.None? <==> forall i :: 0 <= i < |tokens| ==> !Contains(tokens[i], segment)
    ensures r.Some? ==> exists j :: FirstContaining(tokens, segment, j) && r.value == tokens[j]
    decreases |tokens|
  {
    if |tokens| == 0 then None
    else if Contains(tokens[0], segment) then
      assert FirstContaining(tokens, segment, 0);
      Some(tokens[0])
    else
      var r := FirstWith(tokens[1..], segment);
      if r.Some? then
        var j :| FirstContaining(tokens[1..], segment, j) && r.value == tokens[1..][j];
        assert FirstContaining(tokens, segment, j + 1);
        r
      else r
  }

  /** What one cell adds: its first token containing `segment`, or nothing. */
  function CellHit(segment: string, cell: string): (r: seq<string>)
    ensures |r| <= 1
    ensures |r| == 1 <==> exists i :: 0 <= i < |Tokens(cell)| && Contains(Tokens(cell)[i], segment)
    ensures forall y :: y in r ==> Contains(y, segment) && '(' !in y && ')' !in y && ',' !in y
  {
    var tokens := Tokens(cell);
    var hit := FirstWith(tokens, segment);
    if hit.Some? then
      var j :| FirstContaining(tokens, segment, j) && hit.value == tokens[j];
      [hit.value]
    else []
  }

  /** The tokens `search_amino` takes from a column, in row order: the
      first token of each cell that contains `segment`. */
  function Extracted(segment: string, cells: seq<string>): (r: seq<string>)
    ensures |r| <= |cells|
    ensures forall y :: y in r ==> Contains(y, segment) && '(' !in y && ')' !in y && ',' !in y
  {
    FlatMapAtMostOne(cells, cell => CellHit(segment, cell));
    FlatMapAll(cells, cell => CellHit(segment, cell), y => Contains(y, segment) && '(' !in y && ')' !in y && ',' !in y);
    FlatMap(cells, cell => CellHit(segment, cell))
  }

  /** `search_amino(segment, sustitution, amino)`: the accumulator with the
      tokens extracted from the column appended in row order. */
  method SearchAmino(segment: string, sustitution: seq<string>, amino: seq<string>) returns (r: seq<string>)
    ensures r == amino + Extracted(segment, sustitution)
  {
    r := amino;
    var i := 0;
    while i < |sustitution|
      invariant 0 <= i <= |sustitution|
      invariant r == amino + Extracted(segment, sustitution[..i])
    {
      assert sustitution[..i + 1][..i] == sustitution[..i];
      var tokens := Split(Remove(Remove(sustitution[i], '('), ')'), ',');
      ghost var before := r;
      var j := 0;
      while j < |tokens|
        invariant 0 <= j <= |tokens|
        invariant r == before
        invariant FirstWith(tokens[j..], segment) == FirstWith(tokens, segment)
      {
        assert tokens[j..][1..] == tokens[j + 1..];
        if Contains(tokens[j], segment) {
          r := r + [tokens[j]];
          break;
        }
        j := j + 1;
      }
      i := i + 1;
    }
    assert sustitution[..|sustitution|] == sustitution;
  }

  /** Extraction works cell by cell: the accumulator keeps the tokens of
      earlier cells before those of later ones. */
  lemma ExtractedAppend(segment: string, a: seq<string>, b: seq<string>)
    ensures Extracted(segment, a + b) == Extracted(segment, a) + Extracted(segment, b)
  {
    FlatMapAppend(a, b, cell => CellHit(segment, cell));
  }

  /** At most one token per cell; every extracted token contains the
      segment and is free of parentheses and commas; and every cell adds one
      exactly when one of its tokens contains the segment. */
  lemma {:induction false} ExtractedTokens(segment: string, cells: seq<string>)
    ensures |Extracted(segment, cells)| <= |cells|
    ensures forall k :: 0 <= k < |Extracted(segment, cells)| ==>
              Contains(Extracted(segment, cells)[k], segment) &&
              '(' !in Extracted(segment, cells)[k] && ')' !in Extracted(segment, cells)[k] &&
              ',' !in Extracted(segment, cells)[k]
    ensures |Extracted(segment, cells)| == |cells| <==>
              forall i :: 0 <= i < |cells| ==> FirstWith(Tokens(cells[i]), segment).Some?
    decreases |cells|
  {
    if |cells| > 0 {
      var init := cells[..|cells| - 1];
      var hit := FirstWith(Tokens(cells[|cells| - 1]), segment);
      ExtractedTokens(segment, init);
      var r := Extracted(segment, cells);
      assert r == Extracted(segment, init) + CellHit(segment, cells[|cells| - 1]);
      forall k | 0 <= k < |r|
        ensures Contains(r[k], segment) && '(' !in r[k] && ')' !in r[k] && ',' !in r[k]
      {
        if k == |Extracted(segment, init)| {
          var j :| FirstContaining(Tokens(cells[|cells| - 1]), segment, j) && hit.value == Tokens(cells[|cells| - 1])[j];
        }
      }
      forall i | 0 <= i < |init| ensures init[i] == cells[i] { }
    }
  }

  /** The segment is found anywhere in a token, not only at its start. */
  lemma InfixMatch(pre: string, segment: string, post: string)
    requires '(' !in pre + segment + post && ')' !in pre + segment + post && ',' !in pre + segment + post
    ensures Extracted(segment, [pre + segment + post]) == [pre + segment + post]
  {
    var tok := pre + segment + post;
    ContainsInfix(pre, segment, post, segment);
    assert Remove(tok, '(') == tok by { RemoveAbsent(tok, '('); }
    assert Remove(tok, ')') == tok by { RemoveAbsent(tok, ')'); }
    SplitNoSep(tok, ',');
    assert Tokens(tok) == [tok];
    assert CellHit(segment, tok) == [tok];
    assert [tok][..0] == [];
    assert FlatMap([tok], cell => CellHit(segment, cell)) == FlatMap([], cell => CellHit(segment, cell)) + CellHit(segment, tok);
  }

  /** Deleting a character that does not occur changes nothing. */
  lemma {:induction false} RemoveAbsent(s: string, c: char)
    requires c !in s
    ensures Remove(s, c) == s
    decreases |s|
  {
    if |s| > 0 {
      RemoveAbsent(s[1..], c);
      assert [s[0]] + s[1..] == s;
    }
  }

  // ---------------------------------------------------------------------
  // position
  // ---------------------------------------------------------------------

  /** `int(re.findall("\d+", token.split('_')[1])[0])`: the value of the
      first run of digits in the second '_'-separated field. Both failures
      are `IndexError`: no second field, or no digit in it. */
  function Position(token: string): (r: Result<nat>)
    ensures r.Err? ==> r.error == IndexError
    ensures r.Ok? ==> '_' in token
  {
    SplitCount(token, '_');
    var fields := Split(token, '_');
    if |fields| < 2 then Err(IndexError)
    else
      match FirstDigitRun(fields[1])
      case None => Err(IndexError)
      case Some(d) => Ok(DigitsValue(d))
  }

  /** A token "segment_<letters><number><rest>" has that number as its
      position, whatever follows the digits in the second field and
      whatever fields follow. */
  lemma PositionOf(segment: string, letters: string, n: nat, tail: string, more: string)
    requires '_' !in segment && '_' !in letters && '_' !in tail
    requires forall i :: 0 <= i < |letters| ==> !IsDigit(letters[i])
    requires |tail| == 0 || !IsDigit(tail[0])
    requires more == "" || more[0] == '_'
    ensures Position(segment + "_" + letters + ShowNat(n) + tail + more) == Ok(n)
  {
    var digits := ShowNat(n);
    ShowNatValue(n);
    assert '_' !in digits by {
      assert forall k :: 0 <= k < |digits| ==> IsDigit(digits[k]);
    }
    var field := letters + digits + tail;
    var token := segment + "_" + letters + digits + tail + more;
    assert token == segment + ['_'] + (field + more);
    SplitHead(segment, '_', field + more);
    var rest := FieldThen(field, '_', more);
    FirstDigitRunOf(letters, digits, tail);
    assert Split(token, '_')[1] == field;
  }

  /** A token without '_' has no position. */
  lemma PositionNoSeparator(token: string)
    requires '_' !in token
    ensures Position(token) == Err(IndexError)
  {
    SplitNoSep(token, '_');
  }

  /** A second field without digits has no position. */
  lemma PositionNoDigits(segment: string, field: string, more: string)
    requires '_' !in segment && '_' !in field
    requires forall i :: 0 <= i < |field| ==> !IsDigit(field[i])
    requires more == "" || more[0] == '_'
    ensures Position(segment + "_" + field + more) == Err(IndexError)
  {
    var token := segment + "_" + field + more;
    assert token == segment + ['_'] + (field + more);
    SplitHead(segment, '_', field + more);
    var rest := FieldThen(field, '_', more);
    FirstDigitRunNone(field);
  }

  lemma PositionExample()
    ensures Position("Spike_D614G") == Ok(614)
  {
    assert ShowNat(614) == "614";
    assert "Spike_D614G" == "Spike" + "_" + "D" + ShowNat(614) + "G" + "";
    PositionOf("Spike", "D", 614, "G", "");
  }

  // ---------------------------------------------------------------------
  // p_p: the region of a position
  // ---------------------------------------------------------------------

  /** A named region of a protein: positions `start` up to, not including, `end`. */
  datatype Region = Region(name: string, start: int, end: int)

  /** `p in range(r.start, r.end)`. */
  predicate Covers(r: Region, p: int)
  {
    r.start <= p < r.end
  }

  /** Region `j` is the first of `regions` that covers `p`. */
  predicate FirstCovering(regions: seq<Region>, p: int, j: int)
  {
    0 <= j < |regions| && Covers(regions[j], p) &&
    forall i :: 0 <= i < j ==> !Covers(regions[i], p)
  }

  /** The name of the first region covering `p`, if any. */
  function FirstCover(regions: seq<Region>, p: int): (r: Option<string>)
    ensures r.None? <==> forall i :: 0 <= i < |regions| ==> !Covers(regions[i], p)
    ensures r.Some? ==> exists j :: FirstCovering(regions, p, j) && r.value == regions[j].name
    decreases |regions|
  {
    if |regions| == 0 then None
    else if Covers(regions[0], p) then
      assert FirstCovering(regions, p, 0);
      Some(regions[0].name)
    else
      var r := FirstCover(regions[1..], p);
      if r.Some? then
        var j :| FirstCovering(regions[1..], p, j) && r.value == regions[1..][j].name;
        assert FirstCovering(regions, p, j + 1);
        r
      else r
  }

  /** `p_p(token, protein)`: the first region of `parts[protein]`, in
      catalog order, whose half-open range holds the token's position. A
      protein missing from the catalog raises `KeyError`; an empty region
      list, a token without position or a position no region covers raise
      `IndexError`. */
  function RegionOf(token: string, protein: string, parts: map<string, seq<Region>>): (r: Result<string>)
    ensures r.Ok? <==> protein in parts && Position(token).Ok? &&
                       exists j :: 0 <= j < |parts[protein]| && Covers(parts[protein][j], Position(token).value)
    ensures r.Ok? ==> exists j :: FirstCovering(parts[protein], Position(token).value, j) &&
                                  r.value == parts[protein][j].name
    ensures r.Err? ==> r.error == (if protein in parts then IndexError else KeyError)
  {
    if protein !in parts then Err(KeyError)
    else if |parts[protein]| == 0 then Err(IndexError)
    else
      match Position(token)
      case Err(e) => Err(e)
      case Ok(p) =>
        match FirstCover(parts[protein], p)
        case None => Err(IndexError)
        case Some(name) => Ok(name)
  }

  // ---------------------------------------------------------------------
  // table
  // ---------------------------------------------------------------------

  /** One row of a segment's mutation table. */
  datatype MutationRow = MutationRow(token: string, count: nat, segment: string, position: nat, region: string)

  /** `(val[i], count[i], val[i].split('_')[0], position(val[i]), p_p(val[i], aa))`. */
  function TableRow(entry: (string, nat), protein: string, parts: map<string, seq<Region>>): (r: Result<MutationRow>)
    ensures r.Ok? <==> RegionOf(entry.0, protein, parts).Ok?
    ensures r.Ok? ==> r.value.token == entry.0 && r.value.count == entry.1
    ensures r.Ok? ==> Position(entry.0) == Ok(r.value.position) &&
                      RegionOf(entry.0, protein, parts) == Ok(r.value.region)
    ensures r.Ok? ==> '_' !in r.value.segment && r.value.segment + "_" <= entry.0
    ensures r.Err? ==> r.error == (if Position(entry.0).Err? then IndexError else RegionOf(entry.0, protein, parts).error)
  {
    var token := entry.0;
    match Position(token)
    case Err(e) => Err(e)
    case Ok(p) =>
      match RegionOf(token, protein, parts)
      case Err(e) => Err(e)
      case Ok(region) =>
        SplitCount(token, '_');
        SplitFirst(token, '_');
        Ok(MutationRow(token, entry.1, Split(token, '_')[0], p, region))
  }

  /** The `table` lambda with the region looked up per token: one row per
      (value, count) pair, in the order of the pairs; the first token
      without a region aborts the table. */
  function Table(counts: seq<(string, nat)>, protein: string, parts: map<string, seq<Region>>): (r: Result<seq<MutationRow>>)
    ensures r.Ok? <==> forall i :: 0 <= i < |counts| ==> RegionOf(counts[i].0, protein, parts).Ok?
    ensures r.Ok? ==> |r.value| == |counts|
    ensures r.Ok? ==> forall i :: 0 <= i < |counts| ==> TableRow(counts[i], protein, parts) == Ok(r.value[i])
  {
    MapOrRaise(counts, e => TableRow(e, protein, parts))
  }

  /** The table of a segment's extracted tokens: one row per distinct
      token, tokens strictly ascending, each row counting the token's
      occurrences and carrying its position and region. */
  lemma TableOfTokens(tokens: seq<string>, protein: string, parts: map<string, seq<Region>>)
    requires Table(Tally(tokens), protein, parts).Ok?
    ensures var rows := Table(Tally(tokens), protein, parts).value;
            (forall i, j :: 0 <= i < j < |rows| ==> LexLess(rows[i].token, rows[j].token)) &&
            (forall x :: x in tokens <==> exists i :: 0 <= i < |rows| && rows[i].token == x) &&
            (forall i :: 0 <= i < |rows| ==>
               1 <= rows[i].count == multiset(tokens)[rows[i].token] &&
               Position(rows[i].token) == Ok(rows[i].position) &&
               RegionOf(rows[i].token, protein, parts) == Ok(rows[i].region))
  {
    var t := Tally(tokens);
    var rows := Table(t, protein, parts).value;
    UniqueCounts(tokens);
    forall i | 0 <= i < |rows| ensures rows[i].token == t[i].0 && rows[i].count == t[i].1 {
      assert TableRow(t[i], protein, parts) == Ok(rows[i]);
    }
    forall x ensures x in tokens <==> exists i :: 0 <= i < |rows| && rows[i].token == x {
      if x in tokens {
        assert Listed(t, x);
        var i :| 0 <= i < |t| && t[i].0 == x;
        assert rows[i].token == x;
      }
      if exists i :: 0 <= i < |rows| && rows[i].token == x {
        var i :| 0 <= i < |rows| && rows[i].token == x;
        assert t[i].0 == x;
      }
    }
  }

  // ---------------------------------------------------------------------
  // table as written: p_p receives the whole array
  // ---------------------------------------------------------------------

  /** `p_p(val, aa)` with `val` the whole value array: the catalog lookup
      and the empty-list case behave as before, and otherwise `position`
      calls `.split` on the array, which has no such method. */
  function RegionOfArray(protein: string, parts: map<string, seq<Region>>): (r: Result<string>)
    ensures r.Err?
    ensures r.error == KeyError <==> protein !in parts
  {
    if protein !in parts then Err(KeyError)
    else if |parts[protein]| == 0 then Err(IndexError)
    else Err(AttributeError)
  }

  /** A row of the `table` lambda as written. */
  function TableRowAsWritten(entry: (string, nat), protein: string, parts: map<string, seq<Region>>): (r: Result<MutationRow>)
    ensures r.Err?
  {
    match Position(entry.0)
    case Err(e) => Err(e)
    case Ok(p) =>
      match RegionOfArray(protein, parts)
      case Err(e) => Err(e)
      case Ok(region) => Ok(MutationRow(entry.0, entry.1, Split(entry.0, '_')[0], p, region))
  }

  /** The `table` lambda as written: it raises for every non-empty table. */
  function TableAsWritten(counts: seq<(string, nat)>, protein: string, parts: map<string, seq<Region>>): (r: Result<seq<MutationRow>>)
    ensures r.Ok? <==> |counts| == 0
  {
    MapOrRaise(counts, e => TableRowAsWritten(e, protein, parts))
  }

  /** One Spike token whose position lies in the S1 subunit: the table as
      written raises `AttributeError`, the per-token table has its row. */
  lemma TableAsWrittenExample()
    ensures TableAsWritten([("Spike_D614G", 1)], "Spike", map["Spike" := [Region("S1", 14, 686)]]) == Err(AttributeError)
    ensures Table([("Spike_D614G", 1)], "Spike", map["Spike" := [Region("S1", 14, 686)]])
              == Ok([MutationRow("Spike_D614G", 1, "Spike", 614, "S1")])
  {
    var parts := map["Spike" := [Region("S1", 14, 686)]];
    var e := ("Spike_D614G", 1);
    SpikeRowAsWritten(parts);
    SpikeRow(parts);
    var r := Table([e], "Spike", parts);
    assert TableRow([e][0], "Spike", parts) == Ok(r.value[0]);
    assert r.value == [r.value[0]];
  }

  lemma SpikeRowAsWritten(parts: map<string, seq<Region>>)
    requires parts == map["Spike" := [Region("S1", 14, 686)]]
    ensures TableAsWritten([("Spike_D614G", 1)], "Spike", parts) == Err(AttributeError)
  {
    PositionExample();
    var e := ("Spike_D614G", 1);
    assert TableRowAsWritten(e, "Spike", parts) == Err(AttributeError);
    var none: seq<(string, nat)> := [];
    assert [e][..0] == none;
  }

  lemma SpikeRow(parts: map<string, seq<Region>>)
    requires parts == map["Spike" := [Region("S1", 14, 686)]]
    ensures TableRow(("Spike_D614G", 1), "Spike", parts) == Ok(MutationRow("Spike_D614G", 1, "Spike", 614, "S1"))
  {
    PositionExample();
    assert FirstCover(parts["Spike"], 614) == Some("S1");
    assert RegionOf("Spike_D614G", "Spike", parts) == Ok("S1");
    SpikeToken();
    SplitHead("Spike", '_', "D614G");
    assert Split("Spike_D614G", '_')[0] == "Spike";
  }

  lemma SpikeToken()
    ensures "Spike_D614G" == "Spike" + ['_'] + "D614G"
  {
  }
}

/** The Python string operations the classifiers are built from, on
    `seq<char>`: literal pattern search (`re.search` with a pattern that has
    no special characters, and `in`), the first index of a character
    (`re.search(c, s).span()[0]`), ASCII `lower()`, `split` and `join` on one
    separator character, `replace(c, '')`, `int()` of decimal text, `str()`
    of an integer, and the first run of digits (`re.findall("\d+", s)[0]`). */
module PyStr {
  import opened Py

  // ---------------------------------------------------------------------
  // Literal search
  // ---------------------------------------------------------------------

  /** `needle` occurs in `hay`: at its start, or somewhere further on. */
  predicate Contains(hay: string, needle: string)
    decreases |hay|
  {
    needle <= hay || (|hay| > 0 && Contains(hay[1..], needle))
  }

  /** `needle` occurs in `hay` starting at offset `k`. */
  predicate OccursAt(hay: string, needle: string, k: int)
  {
    0 <= k <= |hay| - |needle| && hay[k..k + |needle|] == needle
  }

  /** A literal search finds the pattern anywhere, not only as a prefix. */
  lemma {:induction false} ContainsAt(hay: string, needle: string)
    ensures Contains(hay, needle) <==> exists k :: OccursAt(hay, needle, k)
    decreases |hay|
  {
    if needle <= hay {
      assert OccursAt(hay, needle, 0);
    } else if |hay| == 0 {
    } else {
      ContainsAt(hay[1..], needle);
      if Contains(hay[1..], needle) {
        var k :| OccursAt(hay[1..], needle, k);
        assert hay[1..][k..k + |needle|] == hay[k + 1..k + 1 + |needle|];
        assert OccursAt(hay, needle, k + 1);
      }
      if exists k :: OccursAt(hay, needle, k) {
        var k :| OccursAt(hay, needle, k);
        assert k != 0;
        assert hay[1..][k - 1..k - 1 + |needle|] == hay[k..k + |needle|];
        assert OccursAt(hay[1..], needle, k - 1);
      }
    }
  }

  /** An occurrence inside a part is an occurrence inside the whole. */
  lemma ContainsInfix(pre: string, mid: string, post: string, needle: string)
    requires Contains(mid, needle)
    ensures Contains(pre + mid + post, needle)
  {
    ContainsAt(mid, needle);
    var k :| OccursAt(mid, needle, k);
    var whole := pre + mid + post;
    assert whole[|pre| + k..|pre| + k + |needle|] == mid[k..k + |needle|];
    assert OccursAt(whole, needle, |pre| + k);
    ContainsAt(whole, needle);
  }

  /** Index of the first `c` in `s`: the start of `re.search(c, s).span()`. */
  function Find(s: string, c: char): (r: Option<nat>)
    ensures r.Some? ==> r.value < |s| && s[r.value] == c && c !in s[..r.value]
    ensures r.None? <==> c !in s
  {
    if |s| == 0 then None
    else if s[0] == c then Some(0)
    else match Find(s[1..], c)
      case None => None
      case Some(i) => assert s[..i + 1] == [s[0]] + s[1..][..i]; Some(i + 1)
  }

  // ---------------------------------------------------------------------
  // lower()
  // ---------------------------------------------------------------------

  function LowerChar(c: char): char
  {
    if 'A' <= c <= 'Z' then (c as int + 32) as char else c
  }

  /** `s.lower()` for ASCII letters. */
  function Lower(s: string): (r: string)
    ensures |r| == |s|
    ensures forall i :: 0 <= i < |s| ==> r[i] == LowerChar(s[i])
  {
    seq(|s|, i requires 0 <= i < |s| => LowerChar(s[i]))
  }

  // ---------------------------------------------------------------------
  // split / join / replace
  // ---------------------------------------------------------------------

  /** `s.split(sep)`: the fields between the occurrences of `sep`. */
  function Split(s: string, sep: char): (r: seq<string>)
    ensures |r| >= 1
    ensures forall i :: 0 <= i < |r| ==> sep !in r[i]
    decreases |s|
  {
    if |s| == 0 then [""]
    else
      var rest := Split(s[1..], sep);
      if s[0] == sep then [""] + rest
      else [[s[0]] + rest[0]] + rest[1..]
  }

  /** `sep.join(parts)`. */
  function Join(parts: seq<string>, sep: char): string
  {
    if |parts| == 0 then ""
    else if |parts| == 1 then parts[0]
    else parts[0] + [sep] + Join(parts[1..], sep)
  }

  /** Joining the fields of a split gives back the text. */
  lemma {:induction false} JoinSplit(s: string, sep: char)
    ensures Join(Split(s, sep), sep) == s
    decreases |s|
  {
    if |s| > 0 {
      var rest := Split(s[1..], sep);
      JoinSplit(s[1..], sep);
      if s[0] == sep {
        assert ([""] + rest)[1..] == rest;
      } else {
        var r := [[s[0]] + rest[0]] + rest[1..];
        if |rest| > 1 {
          assert r[1..] == rest[1..];
        }
      }
    }
  }

  /** Splitting at a separator that ends a separator-free field peels off that field. */
  lemma {:induction false} SplitHead(p: string, sep: char, rest: string)
    requires sep !in p
    ensures Split(p + [sep] + rest, sep) == [p] + Split(rest, sep)
    decreases |p|
  {
    var s := p + [sep] + rest;
    if |p| == 0 {
      assert s[1..] == rest;
    } else {
      assert s[1..] == p[1..] + [sep] + rest;
      SplitHead(p[1..], sep, rest);
      assert [p[0]] + p[1..] == p;
    }
  }

  /** A separator-free field followed by nothing or by a separator is the
      first field of the split. */
  lemma FieldThen(p: string, sep: char, rest: string) returns (more: seq<string>)
    requires sep !in p
    requires rest == [] || rest[0] == sep
    ensures Split(p + rest, sep) == [p] + more
  {
    if rest == [] {
      assert p + rest == p;
      SplitNoSep(p, sep);
      more := [];
    } else {
      assert p + rest == p + [sep] + rest[1..];
      SplitHead(p, sep, rest[1..]);
      more := Split(rest[1..], sep);
    }
  }

  /** With at least two fields, the text is the first field, the separator
      and the join of the others. */
  lemma SplitFirst(s: string, sep: char)
    requires |Split(s, sep)| >= 2
    ensures s == Split(s, sep)[0] + [sep] + Join(Split(s, sep)[1..], sep)
  {
    JoinSplit(s, sep);
  }

  /** Text without the separator is a single field. */
  lemma {:induction false} SplitNoSep(p: string, sep: char)
    requires sep !in p
    ensures Split(p, sep) == [p]
    decreases |p|
  {
    if |p| > 0 {
      SplitNoSep(p[1..], sep);
      assert [p[0]] + p[1..] == p;
    }
  }

  /** Splitting a join of separator-free fields gives back the fields. */
  lemma {:induction false} SplitJoin(parts: seq<string>, sep: char)
    requires |parts| >= 1
    requires forall i :: 0 <= i < |parts| ==> sep !in parts[i]
    ensures Split(Join(parts, sep), sep) == parts
    decreases |parts|
  {
    if |parts| == 1 {
      SplitNoSep(parts[0], sep);
    } else {
      SplitJoin(parts[1..], sep);
      SplitHead(parts[0], sep, Join(parts[1..], sep));
      assert [parts[0]] + parts[1..] == parts;
    }
  }

  /** A split has one more field than there are separators. */
  lemma {:induction false} SplitCount(s: string, sep: char)
    ensures |Split(s, sep)| == multiset(s)[sep] + 1
    decreases |s|
  {
    if |s| > 0 {
      SplitCount(s[1..], sep);
      assert s == [s[0]] + s[1..];
      assert multiset(s) == multiset{s[0]} + multiset(s[1..]);
    }
  }

  /** A character absent from the text is absent from every field. */
  lemma {:induction false} SplitAbsent(s: string, sep: char, c: char)
    requires c !in s
    ensures forall i :: 0 <= i < |Split(s, sep)| ==> c !in Split(s, sep)[i]
    decreases |s|
  {
    if |s| > 0 {
      SplitAbsent(s[1..], sep, c);
    }
  }

  /** `s.replace(c, '')`: `s` with every `c` deleted. */
  function Remove(s: string, c: char): (r: string)
    ensures |r| <= |s|
    ensures forall x :: x in r <==> x in s && x != c
  {
    if |s| == 0 then ""
    else (if s[0] == c then "" else [s[0]]) + Remove(s[1..], c)
  }

  // ---------------------------------------------------------------------
  // int() and str() of integers
  // ---------------------------------------------------------------------

  predicate IsDigit(c: char) { '0' <= c <= '9' }

  /** The ASCII characters Python's `int()` strips from both ends. */
  predicate IsSpace(c: char)
  {
    c == ' ' || '\t' <= c <= '\r' || '\U{1C}' <= c <= '\U{1F}'
  }

  /** A non-empty run of decimal digits. */
  predicate IsDecimal(d: string)
  {
    |d| > 0 && forall i :: 0 <= i < |d| ==> IsDigit(d[i])
  }

  function DigitValue(c: char): nat
    requires IsDigit(c)
  {
    c as int - '0' as int
  }

  /** The number a run of decimal digits denotes (leading zeros allowed). */
  function DigitsValue(d: string): nat
    requires forall i :: 0 <= i < |d| ==> IsDigit(d[i])
  {
    if |d| == 0 then 0 else DigitsValue(d[..|d| - 1]) * 10 + DigitValue(d[|d| - 1])
  }

  function TrimStart(s: string): (r: string)
    ensures |r| > 0 ==> !IsSpace(r[0])
    ensures forall c :: c in s ==> c in r || IsSpace(c)
  {
    if |s| > 0 && IsSpace(s[0]) then TrimStart(s[1..]) else s
  }

  function TrimEnd(s: string): (r: string)
    ensures |r| > 0 ==> !IsSpace(r[|r| - 1])
    ensures forall c :: c in s ==> c in r || IsSpace(c)
  {
    if |s| > 0 && IsSpace(s[|s| - 1]) then TrimEnd(s[..|s| - 1]) else s
  }

  /** `int(t)` for text with no surrounding whitespace: an optional sign and digits. */
  function ParseInt(t: string): Option<int>
  {
    if |t| > 0 && (t[0] == '-' || t[0] == '+') then
      if IsDecimal(t[1..]) then
        var v: int := DigitsValue(t[1..]);
        Some(if t[0] == '-' then -v else v)
      else None
    else if IsDecimal(t) then Some(DigitsValue(t))
    else None
  }

  /** Python's `int(s)` on text: `None` where it raises `ValueError`. */
  function PyInt(s: string): (r: Option<int>)
    ensures r.Some? ==> forall c :: c in s ==> IsDigit(c) || IsSpace(c) || c == '-' || c == '+'
    ensures IsDecimal(s) ==> r == Some(DigitsValue(s))
  {
    ParseInt(TrimEnd(TrimStart(s)))
  }

  function DigitChar(n: nat): (c: char)
    requires n < 10
    ensures IsDigit(c) && DigitValue(c) == n
  {
    ('0' as int + n) as char
  }

  /** The decimal spelling of a natural number, without leading zeros. */
  function ShowNat(n: nat): (r: string)
    ensures |r| > 0 && IsDigit(r[0]) && IsDigit(r[|r| - 1])
  {
    if n < 10 then [DigitChar(n)] else ShowNat(n / 10) + [DigitChar(n % 10)]
  }

  /** `str(i)` of an integer. */
  function ShowInt(i: int): (r: string)
    ensures |r| > 0 && !IsSpace(r[0]) && !IsSpace(r[|r| - 1])
  {
    if i < 0 then "-" + ShowNat(-i) else ShowNat(i)
  }

  lemma {:induction false} ShowNatValue(n: nat)
    ensures IsDecimal(ShowNat(n)) && DigitsValue(ShowNat(n)) == n
    decreases n
  {
    if n >= 10 {
      ShowNatValue(n / 10);
      var s := ShowNat(n);
      assert s[..|s| - 1] == ShowNat(n / 10);
    }
  }

  /** `int(str(i)) == i`. */
  lemma PyIntShowInt(i: int)
    ensures PyInt(ShowInt(i)) == Some(i)
  {
    var s := ShowInt(i);
    NoTrim(s);
    if i < 0 {
      NegativeText(i);
    } else {
      ShowNatValue(i);
      assert s[0] != '-' && s[0] != '+';
    }
  }

  lemma NoTrim(s: string)
    requires |s| > 0 && !IsSpace(s[0]) && !IsSpace(s[|s| - 1])
    ensures TrimEnd(TrimStart(s)) == s
  {
  }

  lemma NegativeText(i: int)
    requires i < 0
    ensures ParseInt("-" + ShowNat(-i)) == Some(i)
  {
    var t := "-" + ShowNat(-i);
    ShowNatValue(-i);
    assert t[1..] == ShowNat(-i);
  }

  /** `int()` accepts only digits, a sign and surrounding whitespace: any
      other character in the text makes it raise. */
  lemma PyIntRejects(s: string, c: char)
    requires c in s && !IsDigit(c) && !IsSpace(c) && c != '-' && c != '+'
    ensures PyInt(s) == None
  {
    var t := TrimEnd(TrimStart(s));
    assert c in t;
    var k :| 0 <= k < |t| && t[k] == c;
    if |t| > 0 && (t[0] == '-' || t[0] == '+') {
      assert k > 0;
      assert t[1..][k - 1] == c;
    }
  }

  // ---------------------------------------------------------------------
  // The first run of digits
  // ---------------------------------------------------------------------

  function DropNonDigits(s: string): (r: string)
    ensures |r| <= |s|
    ensures |r| > 0 ==> IsDigit(r[0])
    ensures |r| == 0 <==> forall i :: 0 <= i < |s| ==> !IsDigit(s[i])
  {
    if |s| == 0 || IsDigit(s[0]) then s else DropNonDigits(s[1..])
  }

  function TakeDigits(s: string): (r: string)
    ensures forall i :: 0 <= i < |r| ==> IsDigit(r[i])
    ensures |s| > 0 && IsDigit(s[0]) ==> |r| > 0
  {
    if |s| == 0 || !IsDigit(s[0]) then "" else [s[0]] + TakeDigits(s[1..])
  }

  /** `re.findall("\d+", s)[0]`: the first maximal run of digits, `None`
      where the list is empty and the subscript raises. */
  function FirstDigitRun(s: string): (r: Option<string>)
    ensures r.None? <==> forall i :: 0 <= i < |s| ==> !IsDigit(s[i])
    ensures r.Some? ==> IsDecimal(r.value)
  {
    var t := DropNonDigits(s);
    if |t| == 0 then None else Some(TakeDigits(t))
  }

  /** The run found is the one that follows a digit-free prefix and stops at
      the first non-digit. */
  lemma {:induction false} FirstDigitRunOf(pre: string, d: string, post: string)
    requires forall i :: 0 <= i < |pre| ==> !IsDigit(pre[i])
    requires IsDecimal(d)
    requires |post| == 0 || !IsDigit(post[0])
    ensures FirstDigitRun(pre + d + post) == Some(d)
  {
    DropPrefix(pre, d + post);
    assert pre + d + post == pre + (d + post);
    TakeRun(d, post);
  }

  lemma {:induction false} DropPrefix(pre: string, rest: string)
    requires forall i :: 0 <= i < |pre| ==> !IsDigit(pre[i])
    requires |rest| > 0 && IsDigit(rest[0])
    ensures DropNonDigits(pre + rest) == rest
    decreases |pre|
  {
    if |pre| > 0 {
      assert (pre + rest)[1..] == pre[1..] + rest;
      DropPrefix(pre[1..], rest);
    }
  }

  lemma {:induction false} TakeRun(d: string, post: string)
    requires forall i :: 0 <= i < |d| ==> IsDigit(d[i])
    requires |post| == 0 || !IsDigit(post[0])
    ensures TakeDigits(d + post) == d
    decreases |d|
  {
    if |d| > 0 {
      assert (d + post)[1..] == d[1..] + post;
      TakeRun(d[1..], post);
      assert [d[0]] + d[1..] == d;
    }
  }

  /** Text without any digit has no run to find. */
  lemma {:induction false} FirstDigitRunNone(s: string)
    requires forall i :: 0 <= i < |s| ==> !IsDigit(s[i])
    ensures FirstDigitRun(s) == None
    decreases |s|
  {
    if |s| > 0 {
      FirstDigitRunNone(s[1..]);
    }
  }

  // ---------------------------------------------------------------------
  // Scalar catalog values
  // ---------------------------------------------------------------------

  /** A scalar read from a JSON catalog: a number or a string. */
  datatype JsonScalar = JNum(n: int) | JStr(s: string)

  /** Python's `int(v)`: `None` where it raises `ValueError`. */
  function IntOf(v: JsonScalar): Option<int>
  {
    match v
    case JNum(n) => Some(n)
    case JStr(s) => PyInt(s)
  }

  /** Python's `str(v)`. */
  function StrOf(v: JsonScalar): string
  {
    match v
    case JNum(n) => ShowInt(n)
    case JStr(s) => s
  }
}

/**
 * The regular expressions of the regex-based extractor, each written out as
 * the match it denotes under Python's backtracking `re` semantics: the
 * greedy runs, the single backtracking outcome that can succeed, and the
 * leftmost-position search of `re.search`. Also `re.split` on the list-card
 * opening marker.
 */
module Patterns {
  import opened Text
  import opened Wrappers

  // ---------------------------------------------------------------------
  // character runs

  /** The character classes used: `[^<]`, `[^<\n]`, `[^>]`, `\s`, `[0-9]`. */
  datatype CharClass = NotLt | NotLtNl | NotGt | Space | Digit

  predicate IsDigit(c: char) {
    '0' <= c <= '9'
  }

  predicate InClass(c: char, k: CharClass) {
    match k
    case NotLt => c != '<'
    case NotLtNl => c != '<' && c != '\n'
    case NotGt => c != '>'
    case Space => IsSpace(c)
    case Digit => IsDigit(c)
  }

  /** The end of the longest run of class `k` starting at `i`: where a greedy
      `k*` stops. */
  function RunEnd(t: string, i: nat, k: CharClass): (e: nat)
    requires i <= |t|
    ensures i <= e <= |t|
    ensures e == |t| || !InClass(t[e], k)
    decreases |t| - i
  {
    if i == |t| || !InClass(t[i], k) then i else RunEnd(t, i + 1, k)
  }

  /** Every character of the run is of class `k`. */
  lemma {:induction false} RunEndAll(t: string, i: nat, k: CharClass)
    requires i <= |t|
    ensures forall m | i <= m < RunEnd(t, i, k) :: InClass(t[m], k)
    decreases |t| - i
  {
    if i < |t| && InClass(t[i], k) {
      RunEndAll(t, i + 1, k);
    }
  }

  /** A run is determined by where it stops. */
  lemma {:induction false} RunEndUnique(t: string, i: nat, k: CharClass, e: nat)
    requires i <= e <= |t|
    requires forall m | i <= m < e :: InClass(t[m], k)
    requires e == |t| || !InClass(t[e], k)
    ensures RunEnd(t, i, k) == e
    decreases e - i
  {
    if i < e {
      RunEndUnique(t, i + 1, k, e);
    }
  }

  /** Whitespace is never `<`, so a whitespace run stops no later than a
      `[^<]` run from the same place. */
  lemma SpaceRunWithin(t: string, j: nat)
    requires j <= |t|
    ensures RunEnd(t, j, Space) <= RunEnd(t, j, NotLt)
  {
    RunEndAll(t, j, Space);
  }

  // ---------------------------------------------------------------------
  // the pattern shapes

  /** The four shapes of pattern the extractor uses; `prefix` is the literal
      text that starts each one.
      - `Capture(P, false)` is `P([^<]+)<`, `Capture(P, true)` is `P\s*([^<]+)<`;
      - `CaptureDd(P)` is `P\s*<dd>([^<]+)<`;
      - `SpanCapture(P)` is `P[^>]*>\s*<span>\s*([^<\n]+)`;
      - `DigitsCapture(P)` is `P\s*([0-9]+)`. */
  datatype Pattern =
    | Capture(prefix: string, skipSpace: bool)
    | CaptureDd(prefix: string)
    | SpanCapture(prefix: string)
    | DigitsCapture(prefix: string)

  /** The largest `u` in `[q, v)` with `t[u] != '\n'`. */
  function LastNonNewline(t: string, q: nat, v: nat): (r: Option<nat>)
    requires q <= v <= |t|
    ensures r.Some? ==> (q <= r.value < v && t[r.value] != '\n' &&
      forall m | r.value < m < v :: t[m] == '\n')
    ensures r.None? ==> forall m | q <= m < v :: t[m] == '\n'
    decreases v
  {
    if v == q then None
    else if t[v - 1] != '\n' then Some(v - 1)
    else LastNonNewline(t, q, v - 1)
  }

  /** Group 1 of `([^<]+)<`, or of `\s*([^<]+)<` when `skip` holds, matched
      from `j`. `[^<]+` is greedy and must be followed by `<`, so it takes
      the whole run. With `skip`, the greedy `\s*` gives back one character
      when the run is all whitespace, and that character is the group. */
  function CaptureGroup(t: string, j: nat, skip: bool): Option<string>
    requires j <= |t|
  {
    var e := RunEnd(t, j, NotLt);
    if e == j || e == |t| then None
    else if !skip then Some(t[j..e])
    else
      var w := RunEnd(t, j, Space);
      SpaceRunWithin(t, j);
      if w < e then Some(t[w..e]) else Some(t[e - 1..e])
  }

  /** Group 1 of `\s*<dd>([^<]+)<` matched from `j`. */
  function DdGroup(t: string, j: nat): Option<string>
    requires j <= |t|
  {
    var w := RunEnd(t, j, Space);
    if !SliceAt(t, w, "<dd>") then None
    else
      var v := w + 4;
      var e := RunEnd(t, v, NotLt);
      if e == v || e == |t| then None else Some(t[v..e])
  }

  /** Group 1 of `[^>]*>\s*<span>\s*([^<\n]+)` matched from `j`. When the
      text after the second `\s*` starts with `<` or a newline, backtracking
      hands `[^<\n]+` the last whitespace character that is not a newline,
      which it matches alone. */
  function SpanGroup(t: string, j: nat): Option<string>
    requires j <= |t|
  {
    var g := RunEnd(t, j, NotGt);
    if g == |t| then None else SpanAfterTag(t, g + 1)
  }

  /** `\s*<span>\s*([^<\n]+)` from `k`, just after the tag's `>`. */
  function SpanAfterTag(t: string, k: nat): Option<string>
    requires k <= |t|
  {
    var w := RunEnd(t, k, Space);
    if !SliceAt(t, w, "<span>") then None else SpanValue(t, w + 6)
  }

  /** `\s*([^<\n]+)` from `q`, just after `<span>`. */
  function SpanValue(t: string, q: nat): Option<string>
    requires q <= |t|
  {
    var v := RunEnd(t, q, Space);
    var e := RunEnd(t, v, NotLtNl);
    if v < e then Some(t[v..e])
    else
      match LastNonNewline(t, q, v)
      case None => None
      case Some(u) => Some(t[u..u + 1])
  }

  /** Group 1 of `\s*([0-9]+)` matched from `j`. */
  function DigitsGroup(t: string, j: nat): Option<string>
    requires j <= |t|
  {
    var w := RunEnd(t, j, Space);
    var e := RunEnd(t, w, Digit);
    if w < e then Some(t[w..e]) else None
  }

  /** Group 1 of the match of `p` starting exactly at `i`, if there is one. */
  function MatchAt(p: Pattern, t: string, i: nat): Option<string>
    requires i <= |t|
  {
    if !SliceAt(t, i, p.prefix) then None
    else
      var j := i + |p.prefix|;
      match p
      case Capture(_, skip) => CaptureGroup(t, j, skip)
      case CaptureDd(_) => DdGroup(t, j)
      case SpanCapture(_) => SpanGroup(t, j)
      case DigitsCapture(_) => DigitsGroup(t, j)
  }

  /** The leftmost position at or after `i` where `p` matches. */
  function FirstMatchFrom(p: Pattern, t: string, i: nat): (r: Option<nat>)
    requires i <= |t|
    ensures r.Some? ==> (i <= r.value <= |t| && MatchAt(p, t, r.value).Some? &&
      forall m | i <= m < r.value :: MatchAt(p, t, m).None?)
    ensures r.None? ==> forall m | i <= m <= |t| :: MatchAt(p, t, m).None?
    decreases |t| - i
  {
    if MatchAt(p, t, i).Some? then Some(i)
    else if i == |t| then None
    else FirstMatchFrom(p, t, i + 1)
  }

  /** `re.search(p, t)`: group 1 of the leftmost match. */
  function Search(p: Pattern, t: string): Option<string> {
    match FirstMatchFrom(p, t, 0)
    case None => None
    case Some(k) => MatchAt(p, t, k)
  }

  /** `extract(text, pattern, default)`: the leftmost match's group 1 with
      surrounding whitespace removed, or `default` when nothing matches. */
  function Extract(t: string, p: Pattern, default: string): string {
    match Search(p, t)
    case None => default
    case Some(g) => Strip(g)
  }

  /** `extract` gives `default` when the pattern matches nowhere, and
      otherwise the stripped group of the leftmost match. */
  lemma ExtractLeftmost(t: string, p: Pattern, default: string)
    ensures (forall k | 0 <= k <= |t| :: MatchAt(p, t, k).None?) ==> Extract(t, p, default) == default
    ensures forall k | 0 <= k <= |t| ::
      MatchAt(p, t, k).Some? && (forall m | 0 <= m < k :: MatchAt(p, t, m).None?) ==>
        Extract(t, p, default) == Strip(MatchAt(p, t, k).value)
  {
  }

  // ---------------------------------------------------------------------
  // what a match can capture

  /** A `[^<]+` group is non-empty, holds no `<`, and is followed in the text
      by a `<`. */
  lemma CaptureGroupNoLt(p: Pattern, t: string, i: nat)
    requires p.Capture? || p.CaptureDd?
    requires i <= |t| && MatchAt(p, t, i).Some?
    ensures var g := MatchAt(p, t, i).value;
      && g != [] && '<' !in g
      && exists e | |g| <= e < |t| :: t[e] == '<' && t[e - |g|..e] == g
  {
    var j := i + |p.prefix|;
    if p.Capture? {
      CaptureGroupChars(t, j, p.skipSpace);
    } else {
      DdGroupChars(t, j);
    }
  }

  lemma CaptureGroupChars(t: string, j: nat, skip: bool)
    requires j <= |t| && CaptureGroup(t, j, skip).Some?
    ensures var g := CaptureGroup(t, j, skip).value;
      && g != [] && '<' !in g
      && exists e | |g| <= e < |t| :: t[e] == '<' && t[e - |g|..e] == g
  {
    var e := RunEnd(t, j, NotLt);
    RunEndAll(t, j, NotLt);
    LtRunGroup(t, j, e, CaptureGroup(t, j, skip).value);
  }

  lemma DdGroupChars(t: string, j: nat)
    requires j <= |t| && DdGroup(t, j).Some?
    ensures var g := DdGroup(t, j).value;
      && g != [] && '<' !in g
      && exists e | |g| <= e < |t| :: t[e] == '<' && t[e - |g|..e] == g
  {
    var v := RunEnd(t, j, Space) + 4;
    var e := RunEnd(t, v, NotLt);
    RunEndAll(t, v, NotLt);
    LtRunGroup(t, v, e, DdGroup(t, j).value);
  }

  /** A non-empty tail of a `[^<]+` run that stops at a `<`. */
  lemma LtRunGroup(t: string, j: nat, e: nat, g: string)
    requires j < e < |t| && t[e] == '<'
    requires forall m | j <= m < e :: InClass(t[m], NotLt)
    requires g != [] && |g| <= e - j && g == t[e - |g|..e]
    ensures '<' !in g
    ensures exists e' | |g| <= e' < |t| :: t[e'] == '<' && t[e' - |g|..e'] == g
  {
    forall x | 0 <= x < |g| ensures g[x] != '<' {
      assert g[x] == t[e - |g| + x];
    }
  }

  /** The span group holds neither `<` nor a newline. */
  lemma SpanGroupNoLtNl(p: Pattern, t: string, i: nat)
    requires p.SpanCapture? && i <= |t| && MatchAt(p, t, i).Some?
    ensures '<' !in MatchAt(p, t, i).value && '\n' !in MatchAt(p, t, i).value
  {
    SpanGroupChars(t, i + |p.prefix|);
  }

  lemma SpanGroupChars(t: string, j: nat)
    requires j <= |t| && SpanGroup(t, j).Some?
    ensures '<' !in SpanGroup(t, j).value && '\n' !in SpanGroup(t, j).value
  {
    var g := RunEnd(t, j, NotGt);
    var w := RunEnd(t, g + 1, Space);
    SpanValueChars(t, w + 6);
  }

  lemma SpanValueChars(t: string, q: nat)
    requires q <= |t| && SpanValue(t, q).Some?
    ensures '<' !in SpanValue(t, q).value && '\n' !in SpanValue(t, q).value
  {
    var v := RunEnd(t, q, Space);
    var e := RunEnd(t, v, NotLtNl);
    if v < e {
      RunEndAll(t, v, NotLtNl);
      assert SpanValue(t, q).value == t[v..e];
    } else {
      RunEndAll(t, q, Space);
      var u := LastNonNewline(t, q, v).value;
      assert SpanValue(t, q).value == [t[u]];
    }
  }

  /** The digit group consists of digits only. */
  lemma DigitsGroupDigits(p: Pattern, t: string, i: nat)
    requires p.DigitsCapture? && i <= |t| && MatchAt(p, t, i).Some?
    ensures MatchAt(p, t, i).value != []
    ensures forall m | 0 <= m < |MatchAt(p, t, i).value| :: IsDigit(MatchAt(p, t, i).value[m])
  {
    var w := RunEnd(t, i + |p.prefix|, Space);
    RunEndAll(t, w, Digit);
  }

  /** The group `re.search` reports is the group of some match. */
  lemma SearchFindsMatch(p: Pattern, t: string)
    requires Search(p, t).Some?
    ensures exists k | 0 <= k <= |t| :: MatchAt(p, t, k) == Search(p, t)
  {
  }

  /** Values extracted with a `[^<]+` group have no `<`, nor whitespace at
      either end. */
  lemma ExtractNoLt(t: string, p: Pattern, default: string)
    requires p.Capture? || p.CaptureDd?
    requires '<' !in default && IsStripped(default)
    ensures '<' !in Extract(t, p, default) && IsStripped(Extract(t, p, default))
  {
    if Search(p, t).Some? {
      var k := FirstMatchFrom(p, t, 0).value;
      CaptureGroupNoLt(p, t, k);
      StripChars(Search(p, t).value);
    }
  }

  /** A value extracted with the span pattern has neither `<` nor a
      newline. */
  lemma ExtractSpanNoLtNl(t: string, p: Pattern)
    requires p.SpanCapture?
    ensures '<' !in Extract(t, p, "") && '\n' !in Extract(t, p, "")
  {
    if Search(p, t).Some? {
      var k := FirstMatchFrom(p, t, 0).value;
      SpanGroupNoLtNl(p, t, k);
      StripChars(Search(p, t).value);
    }
  }

  /** A value extracted with the digit pattern consists of digits only. */
  lemma ExtractDigits(t: string, p: Pattern)
    requires p.DigitsCapture?
    ensures forall m | 0 <= m < |Extract(t, p, "")| :: IsDigit(Extract(t, p, "")[m])
  {
    if Search(p, t).Some? {
      var k := FirstMatchFrom(p, t, 0).value;
      var g := MatchAt(p, t, k).value;
      DigitsGroupDigits(p, t, k);
      assert IsStripped(g) by {
        assert IsDigit(g[0]) && IsDigit(g[|g| - 1]);
      }
      StripStripped(g);
    }
  }

  // ---------------------------------------------------------------------
  // what a match reads

  /** A slice of `a + b` is a slice of `a` followed by a slice of `b`. */
  lemma SliceSplit(t: string, i: nat, a: string, b: string)
    requires SliceAt(t, i, a + b)
    ensures SliceAt(t, i, a) && SliceAt(t, i + |a|, b)
  {
    assert t[i..i + |a|] == (a + b)[..|a|];
    assert t[i + |a|..i + |a| + |b|] == (a + b)[|a|..];
  }

  /** The characters of a slice, one by one. */
  lemma SliceChars(t: string, i: nat, s: string)
    requires SliceAt(t, i, s)
    ensures forall m | 0 <= m < |s| :: t[i + m] == s[m]
  {
    forall m | 0 <= m < |s| ensures t[i + m] == s[m] {
      assert t[i..i + |s|][m] == t[i + m];
    }
  }

  /** `P([^<]+)<` on `P`, a value without `<`, then `<`: the group is that
      value. */
  lemma CaptureReads(t: string, i: nat, prefix: string, v: string)
    requires v != [] && '<' !in v
    requires SliceAt(t, i, prefix + v + "<")
    ensures MatchAt(Capture(prefix, false), t, i) == Some(v)
  {
    SliceSplit(t, i, prefix + v, "<");
    SliceSplit(t, i, prefix, v);
    CaptureGroupReads(t, i + |prefix|, v);
    MatchAtCaptureThen(t, i, prefix, false, i + |prefix|, v);
  }

  lemma CaptureGroupReads(t: string, j: nat, v: string)
    requires v != [] && '<' !in v
    requires SliceAt(t, j, v) && SliceAt(t, j + |v|, "<")
    ensures CaptureGroup(t, j, false) == Some(v)
  {
    SliceChars(t, j, v);
    SliceChars(t, j + |v|, "<");
    RunEndUnique(t, j, NotLt, j + |v|);
  }

  /** `P\s*([^<]+)<` on `P`, whitespace, a value without `<` starting with a
      non-space character, then `<`: the group is that value. */
  lemma CaptureSkipReads(t: string, i: nat, prefix: string, sp: string, v: string)
    requires AllSpace(sp) && v != [] && '<' !in v && !IsSpace(v[0])
    requires SliceAt(t, i, prefix + sp + v + "<")
    ensures MatchAt(Capture(prefix, true), t, i) == Some(v)
  {
    SliceSplit(t, i, prefix + sp + v, "<");
    SliceSplit(t, i, prefix + sp, v);
    SliceSplit(t, i, prefix, sp);
    CaptureSkipGroupReads(t, i + |prefix|, sp, v);
    MatchAtCaptureThen(t, i, prefix, true, i + |prefix|, v);
  }

  lemma CaptureSkipGroupReads(t: string, j: nat, sp: string, v: string)
    requires AllSpace(sp) && v != [] && '<' !in v && !IsSpace(v[0])
    requires SliceAt(t, j, sp) && SliceAt(t, j + |sp|, v) && SliceAt(t, j + |sp| + |v|, "<")
    ensures CaptureGroup(t, j, true) == Some(v)
  {
    var w := j + |sp|;
    SliceChars(t, j, sp);
    SliceChars(t, w, v);
    SliceChars(t, w + |v|, "<");
    assert forall m | j <= m < w :: t[m] == sp[m - j] && t[m] != '<';
    RunEndUnique(t, j, Space, w);
    RunEndUnique(t, j, NotLt, w + |v|);
  }

  /** `P\s*([^<]+)<` on `P`, whitespace only, then `<`: the group is the last
      whitespace character, so the extracted value is empty. */
  lemma CaptureSkipBlank(t: string, i: nat, prefix: string, sp: string)
    requires sp != [] && AllSpace(sp)
    requires SliceAt(t, i, prefix + sp + "<")
    ensures MatchAt(Capture(prefix, true), t, i) == Some([sp[|sp| - 1]])
    ensures Strip(MatchAt(Capture(prefix, true), t, i).value) == ""
  {
    SliceSplit(t, i, prefix + sp, "<");
    SliceSplit(t, i, prefix, sp);
    CaptureSkipGroupBlank(t, i + |prefix|, sp);
    MatchAtCaptureThen(t, i, prefix, true, i + |prefix|, [sp[|sp| - 1]]);
    StripOneSpace(sp[|sp| - 1]);
  }

  lemma StripOneSpace(c: char)
    requires IsSpace(c)
    ensures Strip([c]) == ""
  {
    assert AllSpace([c][..1]) && AllSpace([c][1..]);
    StripUnique([c], 1, "");
  }

  lemma CaptureSkipGroupBlank(t: string, j: nat, sp: string)
    requires sp != [] && AllSpace(sp)
    requires SliceAt(t, j, sp) && SliceAt(t, j + |sp|, "<")
    ensures CaptureGroup(t, j, true) == Some([sp[|sp| - 1]])
  {
    var e := j + |sp|;
    SliceChars(t, j, sp);
    SliceChars(t, e, "<");
    assert forall m | j <= m < e :: t[m] == sp[m - j] && t[m] != '<';
    RunEndUnique(t, j, Space, e);
    RunEndUnique(t, j, NotLt, e);
    assert t[e - 1..e] == [sp[|sp| - 1]];
  }

  /** `P\s*([0-9]+)` on `P`, whitespace, digits and then a non-digit or the
      end: the group is those digits. */
  lemma DigitsReads(t: string, i: nat, prefix: string, sp: string, d: string)
    requires AllSpace(sp) && d != [] && forall m | 0 <= m < |d| :: IsDigit(d[m])
    requires SliceAt(t, i, prefix + sp + d)
    requires i + |prefix + sp + d| == |t| || !IsDigit(t[i + |prefix + sp + d|])
    ensures MatchAt(DigitsCapture(prefix), t, i) == Some(d)
  {
    SliceSplit(t, i, prefix + sp, d);
    SliceSplit(t, i, prefix, sp);
    DigitsGroupReads(t, i + |prefix|, sp, d);
    MatchAtDigitsThen(t, i, prefix, i + |prefix|, d);
  }

  lemma DigitsGroupReads(t: string, j: nat, sp: string, d: string)
    requires AllSpace(sp) && d != [] && forall m | 0 <= m < |d| :: IsDigit(d[m])
    requires SliceAt(t, j, sp) && SliceAt(t, j + |sp|, d)
    requires j + |sp| + |d| == |t| || !IsDigit(t[j + |sp| + |d|])
    ensures DigitsGroup(t, j) == Some(d)
  {
    var w := j + |sp|;
    SliceChars(t, j, sp);
    SliceChars(t, w, d);
    assert !IsSpace(t[w]);
    RunEndUnique(t, j, Space, w);
    RunEndUnique(t, w, Digit, w + |d|);
  }

  /** A slice without character `c` puts no `c` in the text. */
  lemma SliceLacks(t: string, i: nat, s: string, c: char)
    requires SliceAt(t, i, s) && c !in s
    ensures forall m | i <= m < i + |s| :: t[m] != c
  {
    SliceChars(t, i, s);
    assert forall m | i <= m < i + |s| :: t[m] == s[m - i];
  }

  /** A whitespace slice puts only whitespace in the text. */
  lemma SliceSpace(t: string, i: nat, s: string)
    requires SliceAt(t, i, s) && AllSpace(s)
    ensures forall m | i <= m < i + |s| :: IsSpace(t[m])
  {
    SliceChars(t, i, s);
    assert forall m | i <= m < i + |s| :: t[m] == s[m - i];
  }

  /** `P[^>]*>\s*<span>\s*([^<\n]+)` on `P`, the rest of the tag, `>`,
      whitespace, `<span>`, whitespace, then a value without `<` or newline
      starting with a non-space character and followed by `<`, a newline or
      the end: the group is that value. */
  lemma SpanReads(t: string, i: nat, prefix: string, x: string, sp1: string, sp2: string, v: string)
    requires '>' !in x && AllSpace(sp1) && AllSpace(sp2)
    requires v != [] && '<' !in v && '\n' !in v && !IsSpace(v[0])
    requires SliceAt(t, i, prefix + x + ">" + sp1 + "<span>" + sp2 + v)
    requires var e := i + |prefix + x + ">" + sp1 + "<span>" + sp2 + v|;
      e == |t| || t[e] == '<' || t[e] == '\n'
    ensures MatchAt(SpanCapture(prefix), t, i) == Some(v)
  {
    var j := i + |prefix|;
    var k := j + |x| + 1;
    var q := k + |sp1| + 6;
    SpanPieces(t, i, prefix, x, sp1, sp2, v, j, k, q);
    SpanTail(t, j, x, k, sp1, q, sp2, v);
    MatchAtSpanThen(t, i, prefix, j, v);
  }

  /** The part after the prefix, stage by stage. */
  lemma SpanTail(t: string, j: nat, x: string, k: nat, sp1: string, q: nat, sp2: string, v: string)
    requires k == j + |x| + 1 && q == k + |sp1| + 6
    requires '>' !in x && SliceAt(t, j, x) && SliceAt(t, j + |x|, ">")
    requires AllSpace(sp1) && SliceAt(t, k, sp1) && SliceAt(t, k + |sp1|, "<span>")
    requires AllSpace(sp2)
    requires v != [] && '<' !in v && '\n' !in v && !IsSpace(v[0])
    requires SliceAt(t, q, sp2) && SliceAt(t, q + |sp2|, v)
    requires var e := q + |sp2| + |v|;
      e == |t| || t[e] == '<' || t[e] == '\n'
    ensures SpanGroup(t, j) == Some(v)
  {
    SpanAfterTagTail(t, k, sp1, q, sp2, v);
    SpanGroupThen(t, j, x, k, v);
  }

  lemma SpanAfterTagTail(t: string, k: nat, sp1: string, q: nat, sp2: string, v: string)
    requires q == k + |sp1| + 6
    requires AllSpace(sp1) && SliceAt(t, k, sp1) && SliceAt(t, k + |sp1|, "<span>")
    requires AllSpace(sp2)
    requires v != [] && '<' !in v && '\n' !in v && !IsSpace(v[0])
    requires SliceAt(t, q, sp2) && SliceAt(t, q + |sp2|, v)
    requires var e := q + |sp2| + |v|;
      e == |t| || t[e] == '<' || t[e] == '\n'
    ensures SpanAfterTag(t, k) == Some(v)
  {
    SpanValueReads(t, q, sp2, v);
    SpanAfterTagThen(t, k, sp1, q, v);
  }

  lemma SpanAfterTagThen(t: string, k: nat, sp1: string, q: nat, v: string)
    requires AllSpace(sp1) && SliceAt(t, k, sp1) && SliceAt(t, k + |sp1|, "<span>")
    requires q == k + |sp1| + 6 && q <= |t| && SpanValue(t, q) == Some(v)
    ensures SpanAfterTag(t, k) == Some(v)
  {
    SpanAfterTagOver(t, k, sp1, k + |sp1|);
  }

  lemma SpanGroupThen(t: string, j: nat, x: string, k: nat, v: string)
    requires '>' !in x && SliceAt(t, j, x) && SliceAt(t, j + |x|, ">")
    requires k == j + |x| + 1 && k <= |t| && SpanAfterTag(t, k) == Some(v)
    ensures SpanGroup(t, j) == Some(v)
  {
    SpanGroupOver(t, j, x, j + |x|);
  }

  lemma MatchAtCaptureThen(t: string, i: nat, prefix: string, skip: bool, j: nat, v: string)
    requires SliceAt(t, i, prefix) && j == i + |prefix| && j <= |t| && CaptureGroup(t, j, skip) == Some(v)
    ensures MatchAt(Capture(prefix, skip), t, i) == Some(v)
  {
  }

  lemma MatchAtDigitsThen(t: string, i: nat, prefix: string, j: nat, v: string)
    requires SliceAt(t, i, prefix) && j == i + |prefix| && j <= |t| && DigitsGroup(t, j) == Some(v)
    ensures MatchAt(DigitsCapture(prefix), t, i) == Some(v)
  {
  }

  lemma MatchAtSpanThen(t: string, i: nat, prefix: string, j: nat, v: string)
    requires SliceAt(t, i, prefix) && j == i + |prefix| && SpanGroup(t, j) == Some(v)
    ensures MatchAt(SpanCapture(prefix), t, i) == Some(v)
  {
  }

  /** `[^>]*>` takes the rest of the tag and its `>`. */
  lemma SpanGroupOver(t: string, j: nat, x: string, g: nat)
    requires g == j + |x|
    requires '>' !in x && SliceAt(t, j, x) && SliceAt(t, g, ">")
    ensures SpanGroup(t, j) == SpanAfterTag(t, g + 1)
  {
    SliceLacks(t, j, x, '>');
    assert t[g] == ">"[0];
    SpanGroupFrom(t, j, g);
  }

  /** `\s*<span>` takes the whitespace and the opening `span` tag. */
  lemma SpanAfterTagOver(t: string, k: nat, sp1: string, w: nat)
    requires w == k + |sp1|
    requires AllSpace(sp1) && SliceAt(t, k, sp1) && SliceAt(t, w, "<span>")
    ensures SpanAfterTag(t, k) == SpanValue(t, w + 6)
  {
    SliceSpace(t, k, sp1);
    SpanAfterTagFrom(t, k, w);
  }

  lemma SpanPieces(t: string, i: nat, prefix: string, x: string, sp1: string, sp2: string, v: string,
                   j: nat, k: nat, q: nat)
    requires j == i + |prefix| && k == j + |x| + 1 && q == k + |sp1| + 6
    requires SliceAt(t, i, prefix + x + ">" + sp1 + "<span>" + sp2 + v)
    ensures SliceAt(t, i, prefix) && SliceAt(t, j, x) && SliceAt(t, j + |x|, ">")
    ensures SliceAt(t, k, sp1) && SliceAt(t, k + |sp1|, "<span>")
    ensures SliceAt(t, q, sp2) && SliceAt(t, q + |sp2|, v)
    ensures i + |prefix + x + ">" + sp1 + "<span>" + sp2 + v| == q + |sp2| + |v|
  {
    var a := prefix + x + ">" + sp1 + "<span>";
    SliceSplit(t, i, a + sp2, v);
    SliceSplit(t, i, a, sp2);
    SliceSplit(t, i, prefix + x + ">" + sp1, "<span>");
    SliceSplit(t, i, prefix + x + ">", sp1);
    SliceSplit(t, i, prefix + x, ">");
    SliceSplit(t, i, prefix, x);
  }

  lemma SpanGroupFrom(t: string, j: nat, g: nat)
    requires j <= g < |t| && t[g] == '>'
    requires forall m | j <= m < g :: t[m] != '>'
    ensures SpanGroup(t, j) == SpanAfterTag(t, g + 1)
  {
    RunEndUnique(t, j, NotGt, g);
  }

  lemma SpanAfterTagFrom(t: string, k: nat, w: nat)
    requires k <= w && SliceAt(t, w, "<span>")
    requires forall m | k <= m < w :: IsSpace(t[m])
    ensures SpanAfterTag(t, k) == SpanValue(t, w + 6)
  {
    assert t[w] == "<span>"[0];
    RunEndUnique(t, k, Space, w);
  }

  lemma SpanValueReads(t: string, q: nat, sp2: string, v: string)
    requires AllSpace(sp2)
    requires v != [] && '<' !in v && '\n' !in v && !IsSpace(v[0])
    requires SliceAt(t, q, sp2) && SliceAt(t, q + |sp2|, v)
    requires var e := q + |sp2| + |v|;
      e == |t| || t[e] == '<' || t[e] == '\n'
    ensures SpanValue(t, q) == Some(v)
  {
    var u := q + |sp2|;
    SliceChars(t, q, sp2);
    SliceChars(t, u, v);
    RunEndUnique(t, q, Space, u);
    RunEndUnique(t, u, NotLtNl, u + |v|);
  }

  // ---------------------------------------------------------------------
  // re.split on the list-card opening marker

  /** `<li[^>]*class="sidearm-list-card-item"`. */
  const ItemOpen := "<li"
  const ItemClass := "class=\"sidearm-list-card-item\""

  /** The largest `k >= lo` with `pat` at `k` ending no later than `n`. */
  function LastAt(t: string, pat: string, lo: nat, n: nat): (r: Option<nat>)
    requires n <= |t|
    ensures r.Some? ==> lo <= r.value && r.value + |pat| <= n && SliceAt(t, r.value, pat)
    decreases n
  {
    if n < lo + |pat| then None
    else if SliceAt(t, n - |pat|, pat) then Some(n - |pat|)
    else LastAt(t, pat, lo, n - 1)
  }

  /** `LastAt` finds the last occurrence: none lies after it. */
  lemma {:induction false} LastAtIsLast(t: string, pat: string, lo: nat, n: nat, k: nat)
    requires n <= |t| && lo <= k && k + |pat| <= n && SliceAt(t, k, pat)
    ensures LastAt(t, pat, lo, n).Some? && k <= LastAt(t, pat, lo, n).value
    decreases n
  {
    if !SliceAt(t, n - |pat|, pat) {
      LastAtIsLast(t, pat, lo, n - 1, k);
    }
  }

  /** The end of a marker match starting at `s`: `<li`, then `[^>]*` up to
      the first `>` given back as far as the class attribute's last
      occurrence in the tag. */
  function MarkerEnd(t: string, s: nat): (r: Option<nat>)
    requires s <= |t|
    ensures r.Some? ==> s < r.value <= |t|
  {
    if !SliceAt(t, s, ItemOpen) then None
    else
      var g := RunEnd(t, s + 3, NotGt);
      match LastAt(t, ItemClass, s + 3, g)
      case None => None
      case Some(k) => Some(k + |ItemClass|)
  }

  /** The class attribute contains no `>`, so no occurrence of it after `<li`
      can reach past the first `>`: the bound used by `MarkerEnd` loses no
      candidate. */
  lemma MarkerStaysInTag(t: string, s: nat, k: nat)
    requires s + 3 <= |t| && s + 3 <= k && SliceAt(t, k, ItemClass)
    requires forall m | s + 3 <= m < k :: t[m] != '>'
    ensures k + |ItemClass| <= RunEnd(t, s + 3, NotGt)
  {
    assert forall m | k <= m < k + |ItemClass| :: t[m] == ItemClass[m - k];
    assert forall m | 0 <= m < |ItemClass| :: ItemClass[m] != '>';
  }

  /** The leftmost `k` in `[from, n]` at which `f` gives a match end, with
      that end. */
  function Leftmost(f: nat -> Option<nat>, from: nat, n: nat): (r: Option<(nat, nat)>)
    ensures r.Some? ==> from <= r.value.0 <= n && f(r.value.0) == Some(r.value.1)
    decreases n - from
  {
    if from > n then None
    else if f(from).Some? then Some((from, f(from).value))
    else Leftmost(f, from + 1, n)
  }

  /** Nothing matches before the position `Leftmost` reports, nor anywhere
      when it reports none. */
  lemma {:induction false} LeftmostIsFirst(f: nat -> Option<nat>, from: nat, n: nat)
    ensures Leftmost(f, from, n).Some? ==>
      forall m | from <= m < Leftmost(f, from, n).value.0 :: f(m).None?
    ensures Leftmost(f, from, n).None? ==> forall m | from <= m <= n :: f(m).None?
    decreases n - from
  {
    if from <= n && f(from).None? {
      LeftmostIsFirst(f, from + 1, n);
    }
  }

  /** The marker matches of `t`, by starting position. */
  function MarkerAt(t: string): nat -> Option<nat> {
    (s: nat) => if s <= |t| then MarkerEnd(t, s) else None
  }

  /** The leftmost marker match at or after `from`: where it starts and where
      it ends. */
  function NextMarker(t: string, from: nat): (r: Option<(nat, nat)>)
    requires from <= |t|
    ensures r.Some? ==> from <= r.value.0 < r.value.1 <= |t|
  {
    Leftmost(MarkerAt(t), from, |t|)
  }

  /** `NextMarker` finds the leftmost marker match. */
  lemma NextMarkerLeftmost(t: string, from: nat)
    requires from <= |t|
    ensures NextMarker(t, from).Some? ==>
      MarkerEnd(t, NextMarker(t, from).value.0) == Some(NextMarker(t, from).value.1) &&
      forall m | from <= m < NextMarker(t, from).value.0 :: MarkerEnd(t, m).None?
    ensures NextMarker(t, from).None? ==> forall m | from <= m <= |t| :: MarkerEnd(t, m).None?
  {
    LeftmostIsFirst(MarkerAt(t), from, |t|);
    assert forall m: nat | m <= |t| :: MarkerAt(t)(m) == MarkerEnd(t, m);
  }

  /** `re.split(marker, t[from..])`: the pieces between successive
      non-overlapping marker matches. */
  function SplitFrom(t: string, from: nat): (pieces: seq<string>)
    requires from <= |t|
    ensures |pieces| >= 1
    decreases |t| - from
  {
    match NextMarker(t, from)
    case None => [t[from..]]
    case Some((s, e)) => [t[from..s]] + SplitFrom(t, e)
  }

  /** The texts the marker matched, in order. */
  function MarkersFrom(t: string, from: nat): seq<string>
    requires from <= |t|
    decreases |t| - from
  {
    match NextMarker(t, from)
    case None => []
    case Some((s, e)) => [t[s..e]] + MarkersFrom(t, e)
  }

  function SplitItems(t: string): (pieces: seq<string>)
    ensures |pieces| >= 1
  {
    SplitFrom(t, 0)
  }

  /** Pieces with the matched markers put back between them. */
  function Weave(pieces: seq<string>, markers: seq<string>): string
    requires |pieces| == |markers| + 1
  {
    if markers == [] then pieces[0]
    else pieces[0] + markers[0] + Weave(pieces[1..], markers[1..])
  }

  /** One more piece than there are markers. */
  lemma {:induction false} SplitCount(t: string, from: nat)
    requires from <= |t|
    ensures |SplitFrom(t, from)| == |MarkersFrom(t, from)| + 1
    decreases |t| - from
  {
    match NextMarker(t, from)
    case None =>
    case Some((s, e)) => SplitCount(t, e);
  }

  /** Splitting loses nothing: putting the markers back gives the text. */
  lemma {:induction false} SplitReassembles(t: string, from: nat)
    requires from <= |t|
    ensures |SplitFrom(t, from)| == |MarkersFrom(t, from)| + 1
    ensures Weave(SplitFrom(t, from), MarkersFrom(t, from)) == t[from..]
    decreases |t| - from
  {
    SplitCount(t, from);
    match NextMarker(t, from)
    case None =>
    case Some((s, e)) =>
      SplitReassembles(t, e);
      WeaveStep(t, from, s, e, SplitFrom(t, e), MarkersFrom(t, e));
  }

  lemma SliceThree(t: string, a: nat, b: nat, c: nat)
    requires a <= b <= c <= |t|
    ensures t[a..] == t[a..b] + t[b..c] + t[c..]
  {
  }

  lemma WeaveStep(t: string, from: nat, s: nat, e: nat, ps: seq<string>, ms: seq<string>)
    requires from <= s <= e <= |t| && |ps| == |ms| + 1 && Weave(ps, ms) == t[e..]
    ensures Weave([t[from..s]] + ps, [t[s..e]] + ms) == t[from..]
  {
    var ps', ms' := [t[from..s]] + ps, [t[s..e]] + ms;
    assert ps'[1..] == ps && ms'[1..] == ms;
    assert Weave(ps', ms') == t[from..s] + t[s..e] + Weave(ps, ms);
    SliceThree(t, from, s, e);
  }

  /** A marker match starts with `<li`, ends with the class attribute and
      stays inside the opening tag. */
  predicate MarkerShaped(m: string) {
    && |m| >= |ItemOpen| + |ItemClass|
    && m[..|ItemOpen|] == ItemOpen && m[|m| - |ItemClass|..] == ItemClass
    && '>' !in m
  }

  lemma MarkerEndShape(t: string, s: nat)
    requires s <= |t| && MarkerEnd(t, s).Some?
    ensures MarkerShaped(t[s..MarkerEnd(t, s).value])
  {
    var g := RunEnd(t, s + 3, NotGt);
    var k := LastAt(t, ItemClass, s + 3, g).value;
    RunEndAll(t, s + 3, NotGt);
    SliceShape(t, s, k, MarkerEnd(t, s).value, g);
  }

  /** `<li`, text without `>`, and the class attribute ending at `e`. */
  lemma SliceShape(t: string, s: nat, k: nat, e: nat, g: nat)
    requires s + 3 <= k && e == k + |ItemClass| && e <= g <= |t|
    requires SliceAt(t, s, ItemOpen) && SliceAt(t, k, ItemClass)
    requires forall m | s + 3 <= m < g :: InClass(t[m], NotGt)
    ensures MarkerShaped(t[s..e])
  {
    var m := t[s..e];
    assert m[..3] == t[s..s + 3];
    assert m[|m| - |ItemClass|..] == t[k..e];
    NoGtIn(t, s, e);
  }

  lemma NoGtIn(t: string, s: nat, e: nat)
    requires s + 3 <= e <= |t| && SliceAt(t, s, ItemOpen)
    requires forall m | s + 3 <= m < e :: InClass(t[m], NotGt)
    ensures '>' !in t[s..e]
  {
    SliceChars(t, s, ItemOpen);
    forall x | 0 <= x < e - s ensures t[s..e][x] != '>' {
      assert t[s..e][x] == t[s + x];
    }
  }

  /** Every matched marker has that shape. */
  lemma {:induction false} MarkersShape(t: string, from: nat)
    requires from <= |t|
    ensures forall i | 0 <= i < |MarkersFrom(t, from)| :: MarkerShaped(MarkersFrom(t, from)[i])
    decreases |t| - from
  {
    match NextMarker(t, from)
    case None =>
    case Some((s, e)) =>
      MarkersShape(t, e);
      NextMarkerLeftmost(t, from);
      MarkerEndShape(t, s);
      ShapedCons(t[s..e], MarkersFrom(t, e));
  }

  lemma ShapedCons(m: string, ms: seq<string>)
    requires MarkerShaped(m) && forall i | 0 <= i < |ms| :: MarkerShaped(ms[i])
    ensures forall i | 0 <= i < |[m] + ms| :: MarkerShaped(([m] + ms)[i])
  {
    forall i | 0 <= i < |[m] + ms| ensures MarkerShaped(([m] + ms)[i]) {
      if i > 0 { assert ([m] + ms)[i] == ms[i - 1]; }
    }
  }

  /** The first piece is the text before the first marker, or all of the
      text when there is none. */
  lemma FirstPiece(t: string)
    ensures NextMarker(t, 0).None? ==> SplitItems(t) == [t]
    ensures NextMarker(t, 0).Some? ==> SplitItems(t)[0] == t[..NextMarker(t, 0).value.0]
  {
    assert t[0..] == t;
  }
}

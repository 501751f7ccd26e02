/**
 * Python string operations that the roster extractor relies on:
 * `str.strip()`, `str.rstrip(c)`, `str.split()` with no separator,
 * `sep.join(parts)` and `str.replace(old, new)`.
 * Strings are sequences of code points (`seq<char>`).
 */
module Text {

  /** Python's `str.isspace()` for a single code point: the characters that
      `strip()` and `split()` treat as whitespace. */
  predicate IsSpace(c: char) {
    var n := c as int;
    (9 <= n <= 13) || (28 <= n <= 32) || n == 0x85 || n == 0xA0 || n == 0x1680
    || (0x2000 <= n <= 0x200A) || n == 0x2028 || n == 0x2029 || n == 0x202F
    || n == 0x205F || n == 0x3000
  }

  predicate AllSpace(s: string) {
    forall i | 0 <= i < |s| :: IsSpace(s[i])
  }

  predicate NoSpace(s: string) {
    forall i | 0 <= i < |s| :: !IsSpace(s[i])
  }

  /** Neither end of `s` is whitespace. */
  predicate IsStripped(s: string) {
    s == [] || (!IsSpace(s[0]) && !IsSpace(s[|s| - 1]))
  }

  /** `s` is the slice `t[i..i + |s|]`. */
  predicate SliceAt(t: string, i: nat, s: string) {
    i + |s| <= |t| && t[i..i + |s|] == s
  }

  // ---------------------------------------------------------------------
  // strip

  /** The number of whitespace characters at the start of `s`. */
  function LeadingSpace(s: string): (n: nat)
    ensures n <= |s| && AllSpace(s[..n])
    ensures n == |s| || !IsSpace(s[n])
  {
    if s != [] && IsSpace(s[0]) then
      var n := 1 + LeadingSpace(s[1..]);
      assert s[..n] == [s[0]] + s[1..][..n - 1];
      n
    else 0
  }

  /** The index where the whitespace at the end of `s` begins. */
  function TrailingStart(s: string): (n: nat)
    ensures n <= |s| && AllSpace(s[n..])
    ensures n == 0 || !IsSpace(s[n - 1])
  {
    if s != [] && IsSpace(s[|s| - 1]) then
      var n := TrailingStart(s[..|s| - 1]);
      assert s[n..] == s[..|s| - 1][n..] + [s[|s| - 1]];
      n
    else |s|
  }

  /** `s.lstrip()`: the suffix of `s` left after dropping leading whitespace. */
  function LStrip(s: string): (r: string)
    ensures r == [] || !IsSpace(r[0])
  {
    s[LeadingSpace(s)..]
  }

  /** `s.strip()`: the slice of `s` between its leading and trailing
      whitespace. */
  function Strip(s: string): (r: string)
    ensures IsStripped(r)
  {
    var i, j := LeadingSpace(s), TrailingStart(s);
    if i < j then s[i..j] else ""
  }

  /** What `strip()` keeps is a slice of `s` with only whitespace around it. */
  lemma StripSlice(s: string)
    ensures exists i: nat :: SliceAt(s, i, Strip(s)) && AllSpace(s[..i]) && AllSpace(s[i + |Strip(s)|..])
  {
    var i, j := LeadingSpace(s), TrailingStart(s);
    if i < j {
      assert SliceAt(s, i, s[i..j]);
    } else {
      assert s[..|s|] == s;
      assert SliceAt(s, 0, "") && AllSpace(s[..0]);
    }
  }

  lemma {:induction false} LeadingSpacePrefix(sp: string, rest: string)
    requires AllSpace(sp)
    ensures LeadingSpace(sp + rest) == |sp| + LeadingSpace(rest)
    decreases |sp|
  {
    if sp != [] {
      assert (sp + rest)[0] == sp[0];
      assert (sp + rest)[1..] == sp[1..] + rest;
      LeadingSpacePrefix(sp[1..], rest);
    } else {
      assert sp + rest == rest;
    }
  }

  lemma LStripSpacePrefix(sp: string, rest: string)
    requires AllSpace(sp)
    ensures LStrip(sp + rest) == LStrip(rest)
  {
    LeadingSpacePrefix(sp, rest);
    assert (sp + rest)[|sp|..] == rest;
  }

  lemma LeadingSpaceAt(s: string, i: nat)
    requires i < |s| && AllSpace(s[..i]) && !IsSpace(s[i])
    ensures LeadingSpace(s) == i
  {
    var n := LeadingSpace(s);
  }

  lemma TrailingStartAt(s: string, e: nat)
    requires 0 < e <= |s| && AllSpace(s[e..]) && !IsSpace(s[e - 1])
    ensures TrailingStart(s) == e
  {
    var n := TrailingStart(s);
  }

  /** The characterisation of `Strip` determines its result: any stripped
      slice of `s` surrounded by whitespace is `Strip(s)`. */
  lemma StripUnique(s: string, i: nat, r: string)
    requires IsStripped(r) && SliceAt(s, i, r)
    requires AllSpace(s[..i]) && AllSpace(s[i + |r|..])
    ensures Strip(s) == r
  {
    if r == [] {
      assert s == s[..i] + s[i..];
      assert AllSpace(s);
    } else {
      assert s[i] == r[0];
      LeadingSpaceAt(s, i);
      assert s[i + |r| - 1] == r[|r| - 1];
      TrailingStartAt(s, i + |r|);
    }
  }

  /** Stripping a string that is already stripped changes nothing, so
      `strip()` is idempotent. */
  lemma StripStripped(s: string)
    requires IsStripped(s)
    ensures Strip(s) == s
  {
    assert s[..0] == [] && s[0 + |s|..] == [];
    StripUnique(s, 0, s);
  }

  lemma StripIdempotent(s: string)
    ensures Strip(Strip(s)) == Strip(s)
  {
    StripStripped(Strip(s));
  }

  /** Trailing whitespace after a stripped string is removed. */
  lemma StripTrailingSpace(d: string, sep: string)
    requires IsStripped(d) && AllSpace(sep)
    ensures Strip(d + sep) == d
  {
    var s := d + sep;
    assert s[..0] == [] && s[0..|d|] == d && s[|d|..] == sep;
    StripUnique(s, 0, d);
  }

  /** Every character of `Strip(s)` comes from `s`. */
  lemma StripChars(s: string)
    ensures forall c | c in Strip(s) :: c in s
  {
    var r := Strip(s);
    StripSlice(s);
    var i: nat :| SliceAt(s, i, r) && AllSpace(s[..i]) && AllSpace(s[i + |r|..]);
    forall k | 0 <= k < |r| ensures r[k] in s {
      assert r[k] == s[i + k];
    }
  }

  /** `s.rstrip(c)`: drops every trailing copy of `c`. */
  function RStripChar(s: string, c: char): (r: string)
    ensures |r| <= |s| && r == s[..|r|]
    ensures forall k | |r| <= k < |s| :: s[k] == c
    ensures r == [] || r[|r| - 1] != c
  {
    if s != [] && s[|s| - 1] == c then RStripChar(s[..|s| - 1], c) else s
  }

  // ---------------------------------------------------------------------
  // split / join

  /** Concatenation of a sequence of strings (`''.join(parts)`). */
  function Concat(parts: seq<string>): string {
    if parts == [] then "" else parts[0] + Concat(parts[1..])
  }

  /** Concatenating non-empty stripped pieces gives a stripped string: no
      whitespace can appear at either end of the result. */
  lemma {:induction false} ConcatStripped(parts: seq<string>)
    requires forall k | 0 <= k < |parts| :: parts[k] != [] && IsStripped(parts[k])
    ensures IsStripped(Concat(parts))
    ensures Concat(parts) == [] <==> parts == []
  {
    if parts != [] {
      var rest := parts[1..];
      assert forall k | 0 <= k < |rest| :: rest[k] == parts[k + 1];
      ConcatStripped(rest);
      var c := Concat(parts);
      assert c == parts[0] + Concat(rest);
      assert c[0] == parts[0][0];
      if Concat(rest) == [] {
        assert c[|c| - 1] == parts[0][|parts[0]| - 1];
      } else {
        assert c[|c| - 1] == Concat(rest)[|Concat(rest)| - 1];
      }
    }
  }

  /** `sep.join(parts)`. */
  function JoinWith(parts: seq<string>, sep: string): string {
    if parts == [] then ""
    else if |parts| == 1 then parts[0]
    else parts[0] + sep + JoinWith(parts[1..], sep)
  }

  /** The characters of `s` that are not whitespace, in order. */
  function NonSpace(s: string): string {
    if s == [] then "" else (if IsSpace(s[0]) then "" else [s[0]]) + NonSpace(s[1..])
  }

  /** Length of the longest prefix of `s` without whitespace. */
  function WordEnd(s: string): (n: nat)
    ensures n <= |s| && NoSpace(s[..n])
    ensures n == |s| || IsSpace(s[n])
  {
    if s == [] || IsSpace(s[0]) then 0
    else
      var n := 1 + WordEnd(s[1..]);
      assert s[..n] == [s[0]] + s[1..][..n - 1];
      n
  }

  /** Every element is a non-empty run of non-whitespace characters. */
  predicate AreWords(ws: seq<string>) {
    forall k | 0 <= k < |ws| :: ws[k] != [] && NoSpace(ws[k])
  }

  /** Python's `s.split()`: the maximal runs of non-whitespace characters. */
  function Words(s: string): seq<string>
    decreases |s|
  {
    var t := LStrip(s);
    if t == [] then []
    else
      var n := WordEnd(t);
      [t[..n]] + Words(t[n..])
  }

  /** Each token of `split()` is a non-empty run of non-whitespace. */
  lemma {:induction false} WordsAreWords(s: string)
    ensures AreWords(Words(s))
    decreases |s|
  {
    var t := LStrip(s);
    if t != [] {
      var n := WordEnd(t);
      WordsAreWords(t[n..]);
      var ws := Words(s);
      assert ws == [t[..n]] + Words(t[n..]);
      forall k | 0 <= k < |ws| ensures ws[k] != [] && NoSpace(ws[k]) {
        if k > 0 { assert ws[k] == Words(t[n..])[k - 1]; }
      }
    }
  }

  lemma {:induction false} NonSpaceAppend(a: string, b: string)
    ensures NonSpace(a + b) == NonSpace(a) + NonSpace(b)
  {
    if a != [] {
      assert (a + b)[0] == a[0];
      assert (a + b)[1..] == a[1..] + b;
      NonSpaceAppend(a[1..], b);
    } else {
      assert a + b == b;
    }
  }

  lemma {:induction false} NonSpaceOfSpace(s: string)
    requires AllSpace(s)
    ensures NonSpace(s) == ""
  {
    if s != [] { NonSpaceOfSpace(s[1..]); }
  }

  lemma {:induction false} NonSpaceOfWord(s: string)
    requires NoSpace(s)
    ensures NonSpace(s) == s
  {
    if s != [] { NonSpaceOfWord(s[1..]); }
  }

  /** `split()` loses only whitespace: joining its words back without a
      separator gives exactly the non-whitespace characters of the input. */
  lemma {:induction false} WordsKeepNonSpace(s: string)
    ensures Concat(Words(s)) == NonSpace(s)
    decreases |s|
  {
    var t := LStrip(s);
    NonSpaceLStrip(s);
    if t != [] {
      var n := WordEnd(t);
      var w, u := t[..n], t[n..];
      NonSpaceWord(t, n);
      WordsKeepNonSpace(u);
      var ws := Words(s);
      assert ws == [w] + Words(u);
      assert ws[1..] == Words(u);
      assert Concat(ws) == w + Concat(Words(u));
    }
  }

  lemma NonSpaceLStrip(s: string)
    ensures NonSpace(s) == NonSpace(LStrip(s))
  {
    var n0 := LeadingSpace(s);
    var lead := s[..n0];
    assert s == lead + LStrip(s);
    NonSpaceAppend(lead, LStrip(s));
    NonSpaceOfSpace(lead);
  }

  lemma NonSpaceWord(t: string, n: nat)
    requires n <= |t| && NoSpace(t[..n])
    ensures NonSpace(t) == t[..n] + NonSpace(t[n..])
  {
    assert t == t[..n] + t[n..];
    NonSpaceAppend(t[..n], t[n..]);
    NonSpaceOfWord(t[..n]);
  }

  /** A word followed by whitespace is split off as the first token. */
  lemma WordsCons(w: string, sep: string, rest: string)
    requires w != [] && NoSpace(w) && sep != [] && AllSpace(sep)
    ensures Words(w + sep + rest) == [w] + Words(sep + rest)
  {
    var s := w + sep + rest;
    assert LStrip(s) == s;
    WordEndOf(w, sep + rest);
    assert s == w + (sep + rest);
  }

  lemma {:induction false} WordEndOf(w: string, rest: string)
    requires NoSpace(w) && (rest == [] || IsSpace(rest[0]))
    ensures WordEnd(w + rest) == |w|
  {
    if w != [] {
      assert (w + rest)[1..] == w[1..] + rest;
      WordEndOf(w[1..], rest);
    } else {
      assert w + rest == rest;
    }
  }

  lemma WordsOfSpace(s: string)
    requires AllSpace(s)
    ensures Words(s) == []
  {
    LStripSpacePrefix(s, []);
    assert s + [] == s;
  }

  lemma WordsSkipsLeadingSpace(sep: string, rest: string)
    requires AllSpace(sep)
    ensures Words(sep + rest) == Words(rest)
  {
    LStripSpacePrefix(sep, rest);
  }

  /** A single word splits to itself. */
  lemma WordsOfWord(w: string)
    requires w != [] && NoSpace(w)
    ensures Words(w) == [w]
  {
    assert LStrip(w) == w;
    WordEndOf(w, "");
    assert w + "" == w;
    assert w[|w|..] == [];
    WordsOfSpace([]);
  }

  /** Round trip: splitting words joined by single spaces gives the words
      back. */
  lemma WordsSpaceStep(w: string, tail: string)
    requires w != [] && NoSpace(w)
    ensures Words(w + " " + tail) == [w] + Words(tail)
  {
    assert AllSpace(" ");
    WordsCons(w, " ", tail);
    WordsSkipsLeadingSpace(" ", tail);
  }

  lemma {:induction false} WordsOfJoin(ws: seq<string>)
    requires AreWords(ws)
    ensures Words(JoinWith(ws, " ")) == ws
  {
    if |ws| <= 1 {
      WordsOfShortJoin(ws);
    } else {
      var rest := ws[1..];
      var tail := JoinWith(rest, " ");
      assert AreWords(rest) by {
        assert forall k | 0 <= k < |rest| :: rest[k] == ws[k + 1];
      }
      WordsOfJoin(rest);
      var joined := JoinWith(ws, " ");
      assert joined == ws[0] + " " + tail;
      WordsSpaceStep(ws[0], tail);
      calc {
        Words(joined);
        [ws[0]] + Words(tail);
        [ws[0]] + rest;
        { assert ws == [ws[0]] + rest; }
        ws;
      }
    }
  }

  lemma WordsOfShortJoin(ws: seq<string>)
    requires AreWords(ws) && |ws| <= 1
    ensures Words(JoinWith(ws, " ")) == ws
  {
    if ws == [] {
      WordsOfSpace("");
    } else {
      WordsOfWord(ws[0]);
    }
  }

  // ---------------------------------------------------------------------
  // replace

  /** Python's `s.replace(pat, rep)`: scans left to right and replaces every
      non-overlapping occurrence of `pat`. */
  function Replace(s: string, pat: string, rep: string): string
    requires pat != []
    decreases |s|
  {
    if |s| < |pat| then s
    else if s[..|pat|] == pat then rep + Replace(s[|pat|..], pat, rep)
    else [s[0]] + Replace(s[1..], pat, rep)
  }

  /** Python's `s.split(pat)`: the pieces between the non-overlapping
      occurrences of `pat`, found left to right. */
  function SplitOn(s: string, pat: string): (pieces: seq<string>)
    requires pat != []
    ensures |pieces| >= 1
    decreases |s|
  {
    if |s| < |pat| then [s]
    else if s[..|pat|] == pat then [""] + SplitOn(s[|pat|..], pat)
    else
      var rest := SplitOn(s[1..], pat);
      [[s[0]] + rest[0]] + rest[1..]
  }

  lemma JoinWithCons(p: string, parts: seq<string>, sep: string)
    requires |parts| >= 1
    ensures JoinWith([p] + parts, sep) == p + sep + JoinWith(parts, sep)
  {
    assert ([p] + parts)[1..] == parts;
  }

  lemma JoinWithHead(c: string, parts: seq<string>, sep: string)
    requires |parts| >= 1
    ensures JoinWith([c + parts[0]] + parts[1..], sep) == c + JoinWith(parts, sep)
  {
    var q := [c + parts[0]] + parts[1..];
    if |parts| > 1 {
      assert q[1..] == parts[1..];
    }
  }

  /** `split` and `join` are inverse: joining the pieces with the pattern
      gives the input back. */
  lemma {:induction false} SplitOnJoin(s: string, pat: string)
    requires pat != []
    ensures JoinWith(SplitOn(s, pat), pat) == s
    decreases |s|
  {
    if |s| < |pat| {
    } else if s[..|pat|] == pat {
      var rest := SplitOn(s[|pat|..], pat);
      assert SplitOn(s, pat) == [""] + rest;
      SplitOnJoin(s[|pat|..], pat);
      JoinWithCons("", rest, pat);
      assert s == "" + pat + s[|pat|..];
    } else {
      var rest := SplitOn(s[1..], pat);
      assert SplitOn(s, pat) == [[s[0]] + rest[0]] + rest[1..];
      SplitOnJoin(s[1..], pat);
      JoinWithHead([s[0]], rest, pat);
      assert s == [s[0]] + s[1..];
    }
  }

  /** The first piece of a join is a prefix of it. */
  lemma JoinWithPrefix(parts: seq<string>, sep: string)
    requires |parts| >= 1
    ensures |parts[0]| <= |JoinWith(parts, sep)| && JoinWith(parts, sep)[..|parts[0]|] == parts[0]
  {
  }

  /** Prepending `s[0]` to a prefix of `s[1..]` free of `pat` creates no
      occurrence when `s` does not start with `pat`. */
  lemma ConsLacksPat(s: string, head: string, pat: string)
    requires pat != [] && |s| >= |pat| && s[..|pat|] != pat
    requires |head| < |s| && s[1..][..|head|] == head && !Occurs(head, pat)
    ensures !Occurs([s[0]] + head, pat)
  {
    var p := [s[0]] + head;
    assert p == s[..|p|];
    forall i: nat | SliceAt(p, i, pat) ensures false {
      if i > 0 {
        assert p[i..i + |pat|] == head[i - 1..i - 1 + |pat|];
        assert SliceAt(head, i - 1, pat);
      }
    }
  }

  /** No piece of `split(pat)` contains `pat`: every occurrence was cut.
      With `SplitOnJoin` this rules out splits that keep an occurrence
      inside a piece, such as the trivial `[s]`. */
  lemma {:induction false} SplitOnPiecesLackPat(s: string, pat: string)
    requires pat != []
    ensures forall k | 0 <= k < |SplitOn(s, pat)| :: !Occurs(SplitOn(s, pat)[k], pat)
    decreases |s|
  {
    if |s| < |pat| {
      assert SplitOn(s, pat) == [s];
    } else if s[..|pat|] == pat {
      SplitOnPiecesLackPat(s[|pat|..], pat);
      var rest := SplitOn(s[|pat|..], pat);
      var pieces := [""] + rest;
      assert SplitOn(s, pat) == pieces;
      assert forall k | 1 <= k < |pieces| :: pieces[k] == rest[k - 1];
    } else {
      SplitOnPiecesLackPat(s[1..], pat);
      var rest := SplitOn(s[1..], pat);
      SplitOnJoin(s[1..], pat);
      JoinWithPrefix(rest, pat);
      ConsLacksPat(s, rest[0], pat);
      var pieces := [[s[0]] + rest[0]] + rest[1..];
      assert SplitOn(s, pat) == pieces;
      assert forall k | 1 <= k < |pieces| :: pieces[k] == rest[k];
    }
  }

  /** `s.replace(pat, rep)` is `rep.join(s.split(pat))`. */
  lemma {:induction false} ReplaceIsSplitJoin(s: string, pat: string, rep: string)
    requires pat != []
    ensures Replace(s, pat, rep) == JoinWith(SplitOn(s, pat), rep)
    decreases |s|
  {
    if |s| < |pat| {
    } else if s[..|pat|] == pat {
      ReplaceIsSplitJoin(s[|pat|..], pat, rep);
      var rest := SplitOn(s[|pat|..], pat);
      assert ([""] + rest)[1..] == rest;
    } else {
      ReplaceIsSplitJoin(s[1..], pat, rep);
      JoinWithHead([s[0]], SplitOn(s[1..], pat), rep);
    }
  }

  /** `pat` occurs in `s`. */
  ghost predicate Occurs(s: string, pat: string) {
    exists i: nat :: SliceAt(s, i, pat)
  }

  /** Replacing a pattern that does not occur changes nothing. */
  lemma {:induction false} ReplaceAbsent(s: string, pat: string, rep: string)
    requires pat != [] && !Occurs(s, pat)
    ensures Replace(s, pat, rep) == s
    decreases |s|
  {
    if |s| >= |pat| {
      assert !SliceAt(s, 0, pat);
      assert !Occurs(s[1..], pat) by {
        forall i: nat | SliceAt(s[1..], i, pat) ensures false {
          assert s[1..][i..i + |pat|] == s[i + 1..i + 1 + |pat|];
          assert SliceAt(s, i + 1, pat);
        }
      }
      ReplaceAbsent(s[1..], pat, rep);
    }
  }

  /** A pattern cannot occur in a string lacking the pattern's first
      character. */
  lemma LacksFirstChar(s: string, pat: string)
    requires pat != [] && pat[0] !in s
    ensures !Occurs(s, pat)
  {
  }

  /** A prefix lacking the pattern's first character is copied unchanged. */
  lemma {:induction false} ReplaceSkipsPrefix(x: string, y: string, pat: string, rep: string)
    requires pat != [] && pat[0] !in x
    ensures Replace(x + y, pat, rep) == x + Replace(y, pat, rep)
    decreases |x|
  {
    var s := x + y;
    if x == [] {
      assert s == y;
    } else if |s| < |pat| {
      assert Replace(y, pat, rep) == y;
    } else {
      assert s[..|pat|] != pat by {
        assert s[..|pat|][0] == x[0];
      }
      assert s[1..] == x[1..] + y;
      var r := Replace(y, pat, rep);
      ReplaceSkipsPrefix(x[1..], y, pat, rep);
      assert Replace(s, pat, rep) == [x[0]] + (x[1..] + r);
      assert [x[0]] + (x[1..] + r) == x + r;
    }
  }

  /** Replacing with the empty string only deletes: no new character
      appears. */
  lemma {:induction false} ReplaceDeletes(s: string, pat: string)
    requires pat != []
    ensures forall c | c in Replace(s, pat, "") :: c in s
    decreases |s|
  {
    if |s| >= |pat| {
      if s[..|pat|] == pat {
        ReplaceDeletes(s[|pat|..], pat);
        assert "" + Replace(s[|pat|..], pat, "") == Replace(s[|pat|..], pat, "");
        forall c | c in Replace(s[|pat|..], pat, "") ensures c in s {
          var k :| 0 <= k < |s[|pat|..]| && s[|pat|..][k] == c;
          assert s[|pat| + k] == c;
        }
      } else {
        ReplaceDeletes(s[1..], pat);
        forall c | c in Replace(s[1..], pat, "") ensures c in s {
          var k :| 0 <= k < |s[1..]| && s[1..][k] == c;
          assert s[1 + k] == c;
        }
      }
    }
  }
}

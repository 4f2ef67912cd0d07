/**
 * The pieces of Python 2 string handling that the rule-file parser relies on:
 * `str.strip()`, `str.split(sep, 1)`, `str.replace(c, '')`, `str.endswith` and the
 * tokeniser `re.split('[,\s]+', ...)`, each stated as a function over `seq<char>`.
 */
module Text {
  import opened Wrappers

  /** Whitespace for both `str.strip()` and the regular-expression class `\s` of Python 2
      byte strings: space, tab, newline, carriage return, vertical tab and form feed. */
  predicate IsSpace(c: char) {
    c == ' ' || c == '\t' || c == '\n' || c == '\r' || c == '\U{000B}' || c == '\U{000C}'
  }

  /** A separator inside a value list: a comma or whitespace. */
  predicate IsSep(c: char) {
    c == ',' || IsSpace(c)
  }

  predicate NoSep(s: string) {
    forall k :: 0 <= k < |s| ==> !IsSep(s[k])
  }

  function LeadingSpaces(s: string): (n: nat)
    ensures n <= |s|
    ensures forall k :: 0 <= k < n ==> IsSpace(s[k])
    ensures n < |s| ==> !IsSpace(s[n])
  {
    if s == [] || !IsSpace(s[0]) then 0 else 1 + LeadingSpaces(s[1..])
  }

  function TrailingStart(s: string): (n: nat)
    ensures n <= |s|
    ensures forall k :: n <= k < |s| ==> IsSpace(s[k])
    ensures 0 < n ==> !IsSpace(s[n - 1])
  {
    if s == [] || !IsSpace(s[|s| - 1]) then |s| else TrailingStart(s[..|s| - 1])
  }

  /** `s.strip()`: the longest slice of `s` that neither starts nor ends with whitespace. */
  function Strip(s: string): (r: string)
    ensures |r| <= |s|
    ensures r != [] ==> !IsSpace(r[0]) && !IsSpace(r[|r| - 1])
    ensures (s == [] || (!IsSpace(s[0]) && !IsSpace(s[|s| - 1]))) ==> r == s
    ensures (forall k :: 0 <= k < |s| ==> IsSpace(s[k])) ==> r == []
  {
    var t := s[LeadingSpaces(s)..];
    t[..TrailingStart(t)]
  }

  /** `s.strip()` cuts only whitespace, and only from the two ends: the result is a slice of
      `s` with nothing but whitespace before and after it. */
  lemma StripIsSlice(s: string)
    ensures exists i, j ::
              0 <= i <= j <= |s| && Strip(s) == s[i..j] &&
              (forall k :: 0 <= k < i ==> IsSpace(s[k])) && (forall k :: j <= k < |s| ==> IsSpace(s[k]))
  {
    var i := LeadingSpaces(s);
    var t := s[i..];
    var j := i + TrailingStart(t);
    assert Strip(s) == s[i..j];
    forall k | j <= k < |s| ensures IsSpace(s[k]) {
      assert s[k] == t[k - i];
    }
  }

  /** Drops a leading run of separators. */
  function DropSeps(s: string): (r: string)
    ensures |r| <= |s| && r == s[|s| - |r|..]
    ensures forall k :: 0 <= k < |s| - |r| ==> IsSep(s[k])
    ensures r != [] ==> !IsSep(r[0])
  {
    if s != [] && IsSep(s[0]) then DropSeps(s[1..]) else s
  }

  /** The characters of `s` that are not separators, in order. */
  function NonSeps(s: string): (r: string)
    ensures NoSep(r)
  {
    if s == [] then [] else (if IsSep(s[0]) then [] else [s[0]]) + NonSeps(s[1..])
  }

  function Concat(ts: seq<string>): string {
    if ts == [] then [] else ts[0] + Concat(ts[1..])
  }

  lemma {:induction false} NonSepsOfSeps(s: string, n: nat)
    requires n <= |s|
    requires forall k :: 0 <= k < n ==> IsSep(s[k])
    ensures NonSeps(s) == NonSeps(s[n..])
  {
    if n > 0 {
      assert s[1..][n - 1..] == s[n..];
      NonSepsOfSeps(s[1..], n - 1);
    }
  }

  /**
   * `re.split('[,\s]+', s)`: the pieces of `s` between maximal runs of separators. A
   * leading or a trailing run yields an empty first or last piece, and the empty string
   * yields one empty piece; every other piece is non-empty.
   */
  function SplitSeps(s: string): (r: seq<string>)
    decreases |s|
    ensures |r| >= 1
    ensures s != [] && !IsSep(s[0]) ==> r[0] != []
  {
    if s == [] then [[]]
    else if IsSep(s[0]) then [[]] + SplitSeps(DropSeps(s[1..]))
    else
      var rest := SplitSeps(s[1..]);
      [[s[0]] + rest[0]] + rest[1..]
  }

  /** No piece holds a separator, and only the first and the last piece may be empty. */
  lemma {:induction false} SplitSepsPieces(s: string)
    decreases |s|
    ensures forall i :: 0 <= i < |SplitSeps(s)| ==> NoSep(SplitSeps(s)[i])
    ensures forall i :: 0 < i < |SplitSeps(s)| - 1 ==> SplitSeps(s)[i] != []
  {
    if s == [] {
    } else if IsSep(s[0]) {
      SplitSepsPieces(DropSeps(s[1..]));
    } else {
      SplitSepsPieces(s[1..]);
      var rest := SplitSeps(s[1..]);
      assert NoSep(rest[0]);
      assert NoSep([s[0]] + rest[0]);
    }
  }

  /** Splitting loses only the separators: the pieces concatenate to the other characters. */
  lemma {:induction false} SplitSepsKeepsText(s: string)
    decreases |s|
    ensures Concat(SplitSeps(s)) == NonSeps(s)
  {
    if s == [] {
    } else if IsSep(s[0]) {
      var t := DropSeps(s[1..]);
      NonSepsOfSeps(s[1..], |s[1..]| - |t|);
      SplitSepsKeepsText(t);
      var r := [[]] + SplitSeps(t);
      assert r[1..] == SplitSeps(t);
      assert Concat(r) == Concat(SplitSeps(t));
    } else {
      SplitSepsKeepsText(s[1..]);
      var rest := SplitSeps(s[1..]);
      var r := [[s[0]] + rest[0]] + rest[1..];
      assert r[1..] == rest[1..];
      assert Concat(rest) == rest[0] + Concat(rest[1..]);
      assert Concat(r) == [s[0]] + rest[0] + Concat(rest[1..]);
    }
  }

  /** A non-empty run of separators. */
  predicate SepRun(g: string) {
    g != [] && forall k :: 0 <= k < |g| ==> IsSep(g[k])
  }

  /** The pieces `r` with the gaps `g` between them, in order: `r[0] + g[0] + r[1] + ... + r[|r| - 1]`. */
  function Weave(r: seq<string>, g: seq<string>): string
    requires |r| == |g| + 1
    decreases |g|
  {
    if g == [] then r[0] else r[0] + g[0] + Weave(r[1..], g[1..])
  }

  /** `r` with the gaps `g` cuts `s` at separator runs: the pieces hold no separator, only the
      first and the last may be empty, every gap is a non-empty separator run, and the pieces
      and the gaps put back together give `s`. */
  predicate Tokenised(s: string, r: seq<string>, g: seq<string>) {
    |r| == |g| + 1 &&
    (forall i :: 0 <= i < |r| ==> NoSep(r[i])) &&
    (forall i :: 0 < i < |r| - 1 ==> r[i] != []) &&
    (forall i :: 0 <= i < |g| ==> SepRun(g[i])) &&
    Weave(r, g) == s
  }

  /** The separator runs that `SplitSeps` cuts `s` at, in order. */
  function SepRuns(s: string): (g: seq<string>)
    decreases |s|
  {
    if s == [] then []
    else if IsSep(s[0]) then
      var t := DropSeps(s[1..]);
      [s[..|s| - |t|]] + SepRuns(t)
    else SepRuns(s[1..])
  }

  /** `SplitSeps(s)` with `SepRuns(s)` rebuilds `s`, cut at every separator run. */
  lemma {:induction false} SplitSepsTokenises(s: string)
    decreases |s|
    ensures Tokenised(s, SplitSeps(s), SepRuns(s))
  {
    SplitSepsPieces(s);
    if s == [] {
    } else if IsSep(s[0]) {
      var t := DropSeps(s[1..]);
      SplitSepsTokenises(t);
      LeadingRun(s, |s| - |t|);
      TailSplit(s, t);
      GapFront(s[..|s| - |t|], t);
    } else {
      SplitSepsTokenises(s[1..]);
      WeaveFront(s[0], SplitSeps(s[1..]), SepRuns(s[1..]));
      assert s == [s[0]] + s[1..];
    }
  }

  /** A leading separator run becomes the first gap, after an empty first piece. */
  lemma GapFront(run: string, t: string)
    requires SepRun(run) && (t == [] || !IsSep(t[0]))
    requires |SplitSeps(t)| == |SepRuns(t)| + 1 && Weave(SplitSeps(t), SepRuns(t)) == t
    requires forall i :: 0 <= i < |SepRuns(t)| ==> SepRun(SepRuns(t)[i])
    ensures |SplitSeps(run + t)| == |SepRuns(run + t)| + 1
    ensures Weave(SplitSeps(run + t), SepRuns(run + t)) == run + t
    ensures forall i :: 0 <= i < |SepRuns(run + t)| ==> SepRun(SepRuns(run + t)[i])
  {
    SplitSepsGap(run, t);
    WeaveEmptyFirst(run, SplitSeps(t), SepRuns(t));
    RunsCons(run, SepRuns(t));
  }

  lemma RunsCons(run: string, gs: seq<string>)
    requires SepRun(run) && forall i :: 0 <= i < |gs| ==> SepRun(gs[i])
    ensures forall i :: 0 <= i < |[run] + gs| ==> SepRun(([run] + gs)[i])
  {
    forall i | 0 < i < |[run] + gs| ensures SepRun(([run] + gs)[i]) {
      assert ([run] + gs)[i] == gs[i - 1];
    }
  }

  /** An empty first piece leaves the first gap at the front. */
  lemma WeaveEmptyFirst(g0: string, r: seq<string>, g: seq<string>)
    requires |r| == |g| + 1
    ensures Weave([[]] + r, [g0] + g) == g0 + Weave(r, g)
  {
    assert ([[]] + r)[1..] == r && ([g0] + g)[1..] == g;
    assert [] + g0 == g0;
  }

  /** A separator followed by `n - 1` more makes a separator run. */
  lemma LeadingRun(s: string, n: nat)
    requires 0 < n <= |s| && IsSep(s[0]) && forall k :: 0 <= k < n - 1 ==> IsSep(s[1..][k])
    ensures SepRun(s[..n])
  {
    forall k | 0 < k < n ensures IsSep(s[..n][k]) {
      assert s[..n][k] == s[1..][k - 1];
    }
  }

  /** A suffix of `s[1..]` cuts `s` in two. */
  lemma TailSplit(s: string, t: string)
    requires s != [] && |t| < |s| && t == s[1..][|s| - 1 - |t|..]
    ensures s == s[..|s| - |t|] + t
  {
    assert s[1..][|s| - 1 - |t|..] == s[|s| - |t|..];
  }

  /** Putting a character in front of the first piece puts it in front of the whole. */
  lemma WeaveFront(c: char, r: seq<string>, g: seq<string>)
    requires |r| == |g| + 1
    ensures Weave([[c] + r[0]] + r[1..], g) == [c] + Weave(r, g)
  {
    var r' := [[c] + r[0]] + r[1..];
    assert r'[1..] == r[1..];
  }

  /** A piece free of separators is a single token. */
  lemma {:induction false} SplitSepsNoSep(s: string)
    requires NoSep(s)
    decreases |s|
    ensures SplitSeps(s) == [s]
  {
    if s != [] {
      assert !IsSep(s[0]) && NoSep(s[1..]);
      SplitSepsNoSep(s[1..]);
      assert [s[0]] + s[1..] == s;
    }
  }

  /** Text without separators in front of `t` joins the first token of `t`. */
  lemma {:induction false} SplitSepsPrefix(a: string, t: string)
    requires NoSep(a)
    decreases |a|
    ensures SplitSeps(a + t) == [a + SplitSeps(t)[0]] + SplitSeps(t)[1..]
  {
    if a != [] {
      assert (a + t)[1..] == a[1..] + t;
      assert NoSep(a[1..]);
      SplitSepsPrefix(a[1..], t);
      assert [a[0]] + (a[1..] + SplitSeps(t)[0]) == a + SplitSeps(t)[0];
    } else {
      var x := SplitSeps(t);
      assert a + t == t && a + x[0] == x[0];
      assert [x[0]] + x[1..] == x;
    }
  }

  /** Dropping a separator run stops at the first character that is not a separator. */
  lemma {:induction false} DropSepsRun(x: string, w: string)
    requires forall k :: 0 <= k < |x| ==> IsSep(x[k])
    requires w == [] || !IsSep(w[0])
    decreases |x|
    ensures DropSeps(x + w) == w
  {
    if x != [] {
      assert (x + w)[1..] == x[1..] + w;
      DropSepsRun(x[1..], w);
    } else {
      assert x + w == w;
    }
  }

  /** A separator run in front of `w` starts an empty token, after which `w` is split as it is. */
  lemma SplitSepsGap(g: string, w: string)
    requires SepRun(g) && (w == [] || !IsSep(w[0]))
    ensures SplitSeps(g + w) == [[]] + SplitSeps(w)
    ensures SepRuns(g + w) == [g] + SepRuns(w)
  {
    var s := g + w;
    assert s[0] == g[0] && s[1..] == g[1..] + w;
    DropSepsRun(g[1..], w);
    assert s[..|s| - |w|] == g;
  }

  /** A tokenisation is unique: any pieces and gaps that cut `s` at separator runs are the
      pieces `SplitSeps` finds. */
  lemma {:induction false} TokenisedUnique(s: string, r: seq<string>, g: seq<string>)
    requires Tokenised(s, r, g)
    decreases |g|
    ensures r == SplitSeps(s)
  {
    if g == [] {
      SplitSepsNoSep(s);
    } else {
      var w := Weave(r[1..], g[1..]);
      TokenisedTail(s, r, g);
      TokenisedUnique(w, r[1..], g[1..]);
      WeaveStart(r[1..], g[1..]);
      if r[1] != [] {
        assert NoSep(r[1]);
        assert !IsSep(w[0]);
      } else {
        assert |r| == 2;
        assert w == [];
      }
      PieceGap(r[0], g[0], w);
      assert [r[0]] + r[1..] == r;
    }
  }

  /** A piece followed by a separator run is the first token, and the rest is split after it. */
  lemma PieceGap(a: string, run: string, w: string)
    requires NoSep(a) && SepRun(run) && (w == [] || !IsSep(w[0]))
    ensures SplitSeps(a + (run + w)) == [a] + SplitSeps(w)
  {
    SplitSepsGap(run, w);
    SplitSepsPrefix(a, run + w);
    assert a + SplitSeps(run + w)[0] == a;
  }

  /** Past the first piece and gap, the rest of a tokenisation tokenises the rest of the text. */
  lemma TokenisedTail(s: string, r: seq<string>, g: seq<string>)
    requires Tokenised(s, r, g) && g != []
    ensures Tokenised(Weave(r[1..], g[1..]), r[1..], g[1..])
    ensures s == r[0] + (g[0] + Weave(r[1..], g[1..]))
  {
    forall i | 0 <= i < |g| - 1 ensures SepRun(g[1..][i]) {
      assert g[1..][i] == g[i + 1];
    }
    forall i | 0 <= i < |r| - 1 ensures NoSep(r[1..][i]) {
      assert r[1..][i] == r[i + 1];
    }
    forall i | 0 < i < |r| - 2 ensures r[1..][i] != [] {
      assert r[1..][i] == r[i + 1];
    }
  }

  /** A woven string starts with its first piece, and is that piece when there is only one. */
  lemma WeaveStart(r: seq<string>, g: seq<string>)
    requires |r| == |g| + 1
    ensures r[0] != [] ==> Weave(r, g) != [] && Weave(r, g)[0] == r[0][0]
    ensures r[0] == [] && g == [] ==> Weave(r, g) == []
  {
  }

  /** `values(line)` of the rule table: `re.split('[,\s]+', line.strip())`. */
  function Values(line: string): (r: seq<string>)
    ensures |r| >= 1
  {
    SplitSeps(Strip(line))
  }

  /** The tokens of `values(line)` hold no separator, and only the first and the last may be empty. */
  lemma ValuesPieces(line: string)
    ensures forall i :: 0 <= i < |Values(line)| ==> NoSep(Values(line)[i])
    ensures forall i :: 0 < i < |Values(line)| - 1 ==> Values(line)[i] != []
  {
    SplitSepsPieces(Strip(line));
  }

  /** The tokens of `values(line)` are the pieces of the trimmed line between its separator
      runs, and the only such pieces. */
  lemma ValuesTokenise(line: string)
    ensures Tokenised(Strip(line), Values(line), SepRuns(Strip(line)))
    ensures forall r, g :: Tokenised(Strip(line), r, g) ==> r == Values(line)
  {
    SplitSepsTokenises(Strip(line));
    forall r, g | Tokenised(Strip(line), r, g) ensures r == Values(line) {
      TokenisedUnique(Strip(line), r, g);
    }
  }

  /** `pat` occurs in `s` at position `i`. */
  predicate OccursAt(s: string, pat: string, i: nat) {
    i + |pat| <= |s| && s[i..i + |pat|] == pat
  }

  /** The position of the first occurrence of `pat` in `s`, as `str.find` computes it
      (`IndexOfFirst` states that it is). */
  function IndexOf(s: string, pat: string): (r: Option<nat>)
    requires pat != []
    decreases |s|
    ensures r.Some? ==> r.value + |pat| <= |s|
  {
    if |s| < |pat| then None
    else if s[..|pat|] == pat then Some(0)
    else
      match IndexOf(s[1..], pat)
      case None => None
      case Some(j) => Some(j + 1)
  }

  /** `IndexOf` finds an occurrence, and none occurs before it. */
  lemma {:induction false} IndexOfFirst(s: string, pat: string)
    requires pat != []
    decreases |s|
    ensures IndexOf(s, pat).Some? ==> OccursAt(s, pat, IndexOf(s, pat).value)
    ensures forall i: nat :: OccursAt(s, pat, i) ==> IndexOf(s, pat).Some? && IndexOf(s, pat).value <= i
  {
    if |s| >= |pat| && s[..|pat|] != pat {
      IndexOfFirst(s[1..], pat);
      OccursShift(s, pat);
    }
  }

  /** An occurrence after the first position is an occurrence in the tail, one position earlier. */
  lemma OccursShift(s: string, pat: string)
    requires s != []
    ensures forall i: nat :: i > 0 ==> (OccursAt(s, pat, i) <==> OccursAt(s[1..], pat, i - 1))
  {
    forall i: nat | i > 0 ensures OccursAt(s, pat, i) <==> OccursAt(s[1..], pat, i - 1) {
      if i + |pat| <= |s| {
        assert s[1..][i - 1..i - 1 + |pat|] == s[i..i + |pat|];
      }
    }
  }

  /** `s.split(sep, 1)` when it yields two parts: the text before and after the first `sep`
      (`SplitOnceFirst` states it). */
  function SplitOnce(s: string, sep: string): Option<(string, string)>
    requires sep != []
  {
    match IndexOf(s, sep)
    case None => None
    case Some(i) => Some((s[..i], s[i + |sep|..]))
  }

  /** `s` splits exactly when `sep` occurs in it; it splits at the first occurrence, and the
      two parts rejoin around `sep` to `s`. */
  lemma SplitOnceFirst(s: string, sep: string)
    requires sep != []
    ensures SplitOnce(s, sep).Some? ==> s == SplitOnce(s, sep).value.0 + sep + SplitOnce(s, sep).value.1
    ensures SplitOnce(s, sep).Some? <==> exists i: nat :: OccursAt(s, sep, i)
    ensures SplitOnce(s, sep).Some? ==>
      OccursAt(s, sep, |SplitOnce(s, sep).value.0|) &&
      forall i: nat :: OccursAt(s, sep, i) ==> |SplitOnce(s, sep).value.0| <= i
  {
    IndexOfFirst(s, sep);
    match IndexOf(s, sep)
    case None =>
    case Some(i) =>
      assert OccursAt(s, sep, i);
      assert s == s[..i] + s[i..i + |sep|] + s[i + |sep|..];
  }

  /** `s.replace(c, '')`. */
  function RemoveAll(s: string, c: char): (r: string)
    ensures c !in r
    ensures |r| <= |s|
    ensures c !in s ==> r == s
    ensures s == [c] ==> r == []
  {
    if s == [] then [] else (if s[0] == c then [] else [s[0]]) + RemoveAll(s[1..], c)
  }

  /** Removal works piece by piece, so it keeps every other character in its order. */
  lemma {:induction false} RemoveAllAppend(a: string, b: string, c: char)
    decreases |a|
    ensures RemoveAll(a + b, c) == RemoveAll(a, c) + RemoveAll(b, c)
  {
    if a == [] {
      assert a + b == b;
    } else {
      var head := if a[0] == c then [] else [a[0]];
      calc {
        RemoveAll(a + b, c);
      ==  { assert (a + b)[0] == a[0] && (a + b)[1..] == a[1..] + b; }
        head + RemoveAll(a[1..] + b, c);
      ==  { RemoveAllAppend(a[1..], b, c); }
        head + (RemoveAll(a[1..], c) + RemoveAll(b, c));
      }
    }
  }

  /** `s.endswith(suffix)`. */
  predicate EndsWith(s: string, suffix: string) {
    |suffix| <= |s| && s[|s| - |suffix|..] == suffix
  }
}

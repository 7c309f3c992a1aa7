/** String primitives shared by the PHP and the Python implementation:
    prefix tests, searching (`strpos`), splitting (`explode`), joining
    (`implode`), replacement (`str_replace` / `str.replace`) and trimming. */
module Strings {
  import opened Wrappers

  /** `p` occurs in `s` starting at index `i`. */
  predicate MatchAt(s: string, p: string, i: nat) {
    i + |p| <= |s| && s[i..i + |p|] == p
  }

  predicate Contains(s: string, p: string) {
    exists i :: 0 <= i <= |s| && MatchAt(s, p, i)
  }

  predicate StartsWith(s: string, p: string) {
    |p| <= |s| && s[..|p|] == p
  }

  predicate EndsWith(s: string, p: string) {
    |p| <= |s| && s[|s| - |p|..] == p
  }

  /** A suffix of `t` is a suffix of anything ending in `t`. */
  lemma EndsWithConcat(a: string, t: string, e: string)
    requires EndsWith(t, e)
    ensures EndsWith(a + t, e)
  {
    assert (a + t)[|a + t| - |e|..] == t[|t| - |e|..];
  }

  /** Concatenation regroups freely; stated once so that long proofs need
      not rediscover it. */
  lemma ConcatAssoc<T>(a: seq<T>, b: seq<T>, c: seq<T>)
    ensures a + b + c == a + (b + c)
  {
  }

  lemma PrefixTrans<T>(a: seq<T>, b: seq<T>, c: seq<T>)
    requires a <= b && b <= c
    ensures a <= c
  {
    assert c[..|a|] == b[..|a|];
  }

  /** A text whose first character differs from the prefix's does not
      start with it. */
  lemma FirstCharDiffers(s: string, p: string)
    requires |s| > 0 && |p| > 0 && s[0] != p[0]
    ensures !StartsWith(s, p)
  {
    if |p| <= |s| {
      assert s[..|p|][0] == s[0];
    }
  }

  /** PHP's truth value of a string: only "" and "0" are false. */
  predicate PhpTruthy(s: string) {
    s != "" && s != "0"
  }

  /** The characters PHP's `trim` removes by default. */
  const PhpTrimChars: set<char> := {' ', '\t', '\n', '\r', '\0', '\U{B}'}

  /** The characters matched by `\s` in a PCRE pattern. */
  const PcreSpace: set<char> := {' ', '\t', '\n', '\U{B}', '\U{C}', '\r'}

  lemma MatchAtExtend(s: string, t: string, p: string, i: nat)
    requires i + |p| <= |s|
    ensures MatchAt(s + t, p, i) <==> MatchAt(s, p, i)
  {
    assert (s + t)[i..i + |p|] == s[i..i + |p|];
  }

  /** `strpos(s, p, from)`: the first occurrence of `p` at or after `from`. */
  function FindFrom(s: string, p: string, from: nat): (r: Option<nat>)
    decreases |s| - from
    ensures r.Some? ==> from <= r.value && MatchAt(s, p, r.value)
    ensures r.Some? ==> forall i :: from <= i < r.value ==> !MatchAt(s, p, i)
    ensures r.None? ==> forall i :: from <= i ==> !MatchAt(s, p, i)
  {
    if from + |p| > |s| then None
    else if MatchAt(s, p, from) then Some(from)
    else FindFrom(s, p, from + 1)
  }

  /** No single-character match before `k` means the character is absent
      from `s[..k]`. */
  lemma NoCharBefore(s: string, c: char, k: nat)
    requires k <= |s|
    requires forall i :: 0 <= i < k ==> !MatchAt(s, [c], i)
    ensures forall i :: 0 <= i < k ==> s[i] != c
  {
    forall i | 0 <= i < k ensures s[i] != c {
      assert !MatchAt(s, [c], i);
      assert s[i..i + 1] == [s[i]];
    }
  }

  /** `FindFrom` returns exactly the first occurrence at or after `from`. */
  lemma FindFromIs(s: string, p: string, from: nat, i: nat)
    requires from <= i && MatchAt(s, p, i)
    requires forall j :: from <= j < i ==> !MatchAt(s, p, j)
    ensures FindFrom(s, p, from) == Some(i)
  {
  }

  /** Text before the first occurrence of `p` does not contain `p`. */
  lemma NoMatchBefore(s: string, p: string, k: nat)
    requires k <= |s| && |p| > 0
    requires forall i :: 0 <= i < k ==> !MatchAt(s, p, i)
    ensures !Contains(s[..k], p)
  {
    forall i | 0 <= i <= k && MatchAt(s[..k], p, i) ensures false {
      assert s[..k][i..i + |p|] == s[i..i + |p|];
      assert MatchAt(s, p, i);
    }
  }

  /** PHP `explode(p, s)`: the pieces of `s` between occurrences of `p`;
      there is always one, and none holds `p`. */
  function Explode(s: string, p: string): (pieces: seq<string>)
    requires |p| > 0
    decreases |s|
    ensures |pieces| >= 1
  {
    match FindFrom(s, p, 0)
    case None => [s]
    case Some(i) => [s[..i]] + Explode(s[i + |p|..], p)
  }

  /** No piece of `explode` holds the separator. */
  lemma {:induction false} ExplodePieces(s: string, p: string)
    requires |p| > 0
    decreases |s|
    ensures forall k :: 0 <= k < |Explode(s, p)| ==> !Contains(Explode(s, p)[k], p)
  {
    match FindFrom(s, p, 0)
    case None =>
      assert s[..|s|] == s;
      NoMatchBefore(s, p, |s|);
    case Some(i) =>
      NoMatchBefore(s, p, i);
      var rest := Explode(s[i + |p|..], p);
      ExplodePieces(s[i + |p|..], p);
      var pieces := Explode(s, p);
      assert pieces == [s[..i]] + rest;
      forall k | 0 <= k < |pieces| ensures !Contains(pieces[k], p) {
        if k == 0 {
          assert pieces[k] == s[..i];
        } else {
          assert pieces[k] == rest[k - 1];
        }
      }
  }

  /** PHP `implode(glue, pieces)`. */
  function Implode(pieces: seq<string>, glue: string): string
    decreases |pieces|
  {
    if |pieces| == 0 then ""
    else if |pieces| == 1 then pieces[0]
    else pieces[0] + glue + Implode(pieces[1..], glue)
  }

  /** Exploding and imploding with the same separator gives the string back. */
  lemma {:induction false} ImplodeExplode(s: string, p: string)
    requires |p| > 0
    decreases |s|
    ensures Implode(Explode(s, p), p) == s
  {
    var f := FindFrom(s, p, 0);
    if f.Some? {
      var i := f.value;
      var rest := s[i + |p|..];
      var e := Explode(rest, p);
      assert Explode(s, p) == [s[..i]] + e;
      ImplodeExplode(rest, p);
      assert Implode([s[..i]] + e, p) == s[..i] + p + Implode(e, p) by {
        assert ([s[..i]] + e)[1..] == e;
      }
      assert s[i..i + |p|] == p;
      assert s == s[..i] + s[i..i + |p|] + rest;
    }
  }

  /** `str_replace(pat, rep, s)`: the first occurrence of `pat` becomes `rep`
      and the search resumes after it, so occurrences are replaced left to
      right without overlap; an empty `pat` changes nothing. */
  function ReplaceAll(s: string, pat: string, rep: string): (r: string)
    decreases |s|
    ensures pat == "" ==> r == s
    ensures !Contains(s, pat) ==> r == s
    ensures |rep| <= |pat| ==> |r| <= |s|
  {
    if |pat| == 0 then s
    else match FindFrom(s, pat, 0)
      case None => s
      case Some(i) => s[..i] + rep + ReplaceAll(s[i + |pat|..], pat, rep)
  }

  /** The first occurrence cuts the text into what precedes it, the
      pattern, and what follows. */
  lemma SplitAtFirst(s: string, pat: string, i: nat)
    requires FindFrom(s, pat, 0) == Some(i)
    ensures s == s[..i] + pat + s[i + |pat|..]
  {
    assert s[i..i + |pat|] == pat;
    assert s == s[..i] + s[i..i + |pat|] + s[i + |pat|..];
  }

  /** `str_replace` is `implode(rep, explode(pat, s))`: an independent
      definition of replacement. */
  lemma {:induction false} ReplaceAllIsImplodeExplode(s: string, pat: string, rep: string)
    requires |pat| > 0
    decreases |s|
    ensures ReplaceAll(s, pat, rep) == Implode(Explode(s, pat), rep)
  {
    var f := FindFrom(s, pat, 0);
    if f.Some? {
      var i := f.value;
      var rest := s[i + |pat|..];
      var e := Explode(rest, pat);
      assert Explode(s, pat) == [s[..i]] + e;
      ReplaceAllIsImplodeExplode(rest, pat, rep);
      assert Implode([s[..i]] + e, rep) == s[..i] + rep + Implode(e, rep) by {
        assert ([s[..i]] + e)[1..] == e;
      }
    }
  }

  /** Replacing a pattern by itself is the identity. */
  lemma {:induction false} ReplaceAllSelf(s: string, pat: string)
    decreases |s|
    ensures ReplaceAll(s, pat, pat) == s
  {
    if |pat| > 0 {
      var f := FindFrom(s, pat, 0);
      if f.Some? {
        var i := f.value;
        ReplaceAllSelf(s[i + |pat|..], pat);
        SplitAtFirst(s, pat, i);
      }
    }
  }

  /** If the pattern occurs, the replacement occurs in the result. */
  lemma ReplaceAllIntroduces(s: string, pat: string, rep: string)
    requires |pat| > 0 && Contains(s, pat)
    ensures Contains(ReplaceAll(s, pat, rep), rep)
  {
    var f := FindFrom(s, pat, 0);
    assert f.Some?;
    var i := f.value;
    var r := ReplaceAll(s, pat, rep);
    assert r == s[..i] + rep + ReplaceAll(s[i + |pat|..], pat, rep);
    assert r[i..i + |rep|] == rep;
    assert MatchAt(r, rep, i);
  }

  /** Removing a pattern that occurs makes the text strictly shorter. */
  lemma ReplaceAllRemoves(s: string, pat: string)
    requires |pat| > 0 && Contains(s, pat)
    ensures |ReplaceAll(s, pat, "")| < |s|
  {
    var f := FindFrom(s, pat, 0);
    assert f.Some?;
  }

  /** `l` is the part of `s` after the last occurrence of `p`, or all of `s`. */
  predicate TailAfterLast(s: string, p: string, l: string) {
    && |l| <= |s| && s[|s| - |l|..] == l
    && !Contains(l, p)
    && (|l| == |s| || EndsWith(s[..|s| - |l|], p))
  }

  function Last(pieces: seq<string>): string
    requires |pieces| > 0
  {
    pieces[|pieces| - 1]
  }

  /** Putting a piece and a separator in front keeps the tail. */
  lemma TailAfterLastPrepend(a: string, p: string, rest: string, l: string)
    requires TailAfterLast(rest, p, l)
    ensures TailAfterLast(a + p + rest, p, l)
  {
    var s := a + p + rest;
    EndsWithConcat(a + p, rest, l);
    var pre := s[..|s| - |l|];
    if |l| == |rest| {
      assert pre == a + p;
      assert pre[|a|..] == p;
    } else {
      var rpre := rest[..|rest| - |l|];
      assert pre == a + p + rpre;
      EndsWithConcat(a + p, rpre, p);
    }
  }

  /** The last piece of `explode` is the text after the last separator. */
  lemma {:induction false} ExplodeLast(s: string, p: string)
    requires |p| > 0
    decreases |s|
    ensures TailAfterLast(s, p, Last(Explode(s, p)))
  {
    var f := FindFrom(s, p, 0);
    if f.None? {
      assert Explode(s, p) == [s];
      assert !Contains(s, p);
      assert TailAfterLast(s, p, s);
    } else {
      var i := f.value;
      var rest := s[i + |p|..];
      assert s[i..i + |p|] == p;
      assert s == s[..i] + p + rest by {
        assert s == s[..i] + s[i..i + |p|] + rest;
      }
      var e := Explode(rest, p);
      assert Explode(s, p) == [s[..i]] + e;
      ExplodeLast(rest, p);
      assert Last(Explode(s, p)) == Last(e);
      TailAfterLastPrepend(s[..i], p, rest, Last(e));
    }
  }

  /** `end(explode(c, s))`: the text after the last `c`, or all of `s`. */
  function LastSegment(s: string, c: char): (r: string)
    ensures |r| <= |s| && s[|s| - |r|..] == r
    ensures forall i :: 0 <= i < |r| ==> r[i] != c
    ensures |r| < |s| ==> s[|s| - |r| - 1] == c
  {
    var r := Last(Explode(s, [c]));
    ExplodeLast(s, [c]);
    assert forall i :: 0 <= i < |r| ==> r[i] != c by {
      forall i | 0 <= i < |r| ensures r[i] != c {
        assert !MatchAt(r, [c], i);
        assert r[i..i + 1] == [r[i]];
      }
    }
    r
  }

  /** The segment after a final `c` is exactly the text following it. */
  lemma LastSegmentAfter(pre: string, c: char, seg: string)
    requires forall i :: 0 <= i < |seg| ==> seg[i] != c
    ensures LastSegment(pre + [c] + seg, c) == seg
  {
    var s := pre + [c] + seg;
    var r := LastSegment(s, c);
    assert s[|s| - |seg| - 1] == c;
    assert |r| == |seg|;
    assert s[|s| - |seg|..] == seg;
  }

  /** Without a `c`, the whole string is its last segment. */
  lemma LastSegmentWhole(s: string, c: char)
    requires forall i :: 0 <= i < |s| ==> s[i] != c
    ensures LastSegment(s, c) == s
  {
  }

  /** PHP `ltrim(s, cs)`. */
  function TrimLeft(s: string, cs: set<char>): string
    decreases |s|
  {
    if |s| > 0 && s[0] in cs then TrimLeft(s[1..], cs) else s
  }

  /** PHP `rtrim(s, cs)`. */
  function TrimRight(s: string, cs: set<char>): string
    decreases |s|
  {
    if |s| > 0 && s[|s| - 1] in cs then TrimRight(s[..|s| - 1], cs) else s
  }

  /** `TrimLeft` removes the longest prefix made of characters of `cs`. */
  lemma {:induction false} TrimLeftSpec(s: string, cs: set<char>)
    decreases |s|
    ensures var r := TrimLeft(s, cs);
      && |r| <= |s| && r == s[|s| - |r|..]
      && (forall i :: 0 <= i < |s| - |r| ==> s[i] in cs)
      && (|r| > 0 ==> r[0] !in cs)
  {
    if |s| > 0 && s[0] in cs {
      var t := s[1..];
      TrimLeftSpec(t, cs);
      var r := TrimLeft(t, cs);
      assert TrimLeft(s, cs) == r;
      assert t[|t| - |r|..] == s[|s| - |r|..];
      forall i | 0 <= i < |s| - |r| ensures s[i] in cs {
        if i > 0 {
          assert s[i] == t[i - 1];
        }
      }
    } else {
      assert s[0..] == s;
    }
  }

  /** `TrimRight` removes the longest suffix made of characters of `cs`. */
  lemma {:induction false} TrimRightSpec(s: string, cs: set<char>)
    decreases |s|
    ensures var r := TrimRight(s, cs);
      && |r| <= |s| && r == s[..|r|]
      && (forall i :: |r| <= i < |s| ==> s[i] in cs)
      && (|r| > 0 ==> r[|r| - 1] !in cs)
  {
    if |s| > 0 && s[|s| - 1] in cs {
      TrimRightSpec(s[..|s| - 1], cs);
      var r := TrimRight(s[..|s| - 1], cs);
      assert s[..|s| - 1][..|r|] == s[..|r|];
    }
  }

  /** Left-trimming a padding of `cs` characters off a value that does not
      itself start with one gives the value back. */
  lemma {:induction false} TrimLeftPadded(pad: string, v: string, cs: set<char>)
    requires forall i :: 0 <= i < |pad| ==> pad[i] in cs
    requires |v| > 0 ==> v[0] !in cs
    decreases |pad|
    ensures TrimLeft(pad + v, cs) == v
  {
    if |pad| > 0 {
      assert (pad + v)[1..] == pad[1..] + v;
      TrimLeftPadded(pad[1..], v, cs);
    }
  }

  /** Right-trimming a padding of `cs` characters off a value that does not
      itself end with one gives the value back. */
  lemma {:induction false} TrimRightPadded(v: string, pad: string, cs: set<char>)
    requires forall i :: 0 <= i < |pad| ==> pad[i] in cs
    requires |v| > 0 ==> v[|v| - 1] !in cs
    decreases |pad|
    ensures TrimRight(v + pad, cs) == v
  {
    if |pad| > 0 {
      assert (v + pad)[..|v + pad| - 1] == v + pad[..|pad| - 1];
      TrimRightPadded(v, pad[..|pad| - 1], cs);
    } else {
      assert v + pad == v;
    }
  }

  /** `r` is `s` with `k` characters of `cs` cut from its front and the rest
      after `r` also made of `cs` characters. */
  predicate TrimmedAt(s: string, cs: set<char>, k: nat, r: string) {
    && k + |r| <= |s| && r == s[k..k + |r|]
    && (forall i :: 0 <= i < k ==> s[i] in cs)
    && (forall i :: k + |r| <= i < |s| ==> s[i] in cs)
  }

  /** PHP `trim(s, cs)`: strip characters of `cs` from both ends. The
      result is the middle of `s` once every leading and trailing character
      of `cs` is gone: what was cut off is made of `cs` characters and the
      result neither starts nor ends with one. */
  function Trim(s: string, cs: set<char>): (r: string)
    ensures |r| <= |s|
    ensures |r| > 0 ==> r[0] !in cs && r[|r| - 1] !in cs
    ensures exists k :: TrimmedAt(s, cs, k, r)
  {
    var l := TrimLeft(s, cs);
    TrimBoth(s, cs);
    assert TrimmedAt(s, cs, |s| - |l|, TrimRight(l, cs));
    TrimRight(l, cs)
  }

  /** Trimming a text made of a `cs` run, a middle whose ends are not in
      `cs`, and another `cs` run gives exactly the middle. */
  lemma TrimOf(a: string, v: string, b: string, cs: set<char>)
    requires forall i :: 0 <= i < |a| ==> a[i] in cs
    requires forall i :: 0 <= i < |b| ==> b[i] in cs
    requires v != "" && v[0] !in cs && v[|v| - 1] !in cs
    ensures Trim(a + v + b, cs) == v
  {
    var s := a + v + b;
    var r := Trim(s, cs);
    var k: nat :| TrimmedAt(s, cs, k, r);
    TrimOfStart(a, v, b, cs, k, r);
    TrimOfEnd(a, v, b, cs, k, r);
    assert r == s[|a|..|a| + |v|];
  }

  /** What `Trim` keeps starts where the leading `cs` run ends. */
  lemma TrimOfStart(a: string, v: string, b: string, cs: set<char>, k: nat, r: string)
    requires forall i :: 0 <= i < |a| ==> a[i] in cs
    requires v != "" && v[0] !in cs
    requires TrimmedAt(a + v + b, cs, k, r)
    requires |r| > 0 ==> r[0] !in cs
    ensures k == |a| && |a| < k + |r|
  {
    var s := a + v + b;
    assert s[|a|] == v[0];
    assert k <= |a| < k + |r|;
    assert s[k] == r[0];
    assert k == |a| by {
      assert forall i :: 0 <= i < |a| ==> s[i] == a[i];
    }
  }

  /** What `Trim` keeps ends where the trailing `cs` run starts. */
  lemma TrimOfEnd(a: string, v: string, b: string, cs: set<char>, k: nat, r: string)
    requires forall i :: 0 <= i < |b| ==> b[i] in cs
    requires v != "" && v[|v| - 1] !in cs
    requires TrimmedAt(a + v + b, cs, k, r)
    requires |r| > 0 ==> r[|r| - 1] !in cs
    ensures k + |r| == |a| + |v|
  {
    var s := a + v + b;
    var e := k + |r|;
    assert s[|a| + |v| - 1] == v[|v| - 1];
    assert k <= |a| + |v| - 1 < e;
    assert s[e - 1] == r[|r| - 1];
    assert e == |a| + |v| by {
      assert forall i :: |a| + |v| <= i < |s| ==> s[i] == b[i - |a| - |v|];
    }
  }

  /** A text with neither end in `cs` is left alone by `Trim`. */
  lemma TrimUntouched(v: string, cs: set<char>)
    requires v != "" && v[0] !in cs && v[|v| - 1] !in cs
    ensures Trim(v, cs) == v
  {
    assert "" + v + "" == v;
    TrimOf("", v, "", cs);
  }

  /** Trimming the left and then the right end cuts only `cs` characters. */
  lemma TrimBoth(s: string, cs: set<char>)
    ensures var l := TrimLeft(s, cs);
      var r := TrimRight(l, cs);
      && |l| <= |s|
      && TrimmedAt(s, cs, |s| - |l|, r)
      && (|r| > 0 ==> r[0] !in cs && r[|r| - 1] !in cs)
  {
    var l := TrimLeft(s, cs);
    var r := TrimRight(l, cs);
    var k := |s| - |l|;
    TrimLeftSpec(s, cs);
    TrimRightSpec(l, cs);
    assert r == s[k..k + |r|];
    assert forall i :: k + |r| <= i < |s| ==> s[i] == l[i - k];
  }
}

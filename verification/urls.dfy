/** URL arithmetic of `Rorrim_Asset`: the base a document's relative links are
    resolved against when it has no `<base>` tag (`getBase`), and the
    resolution of one raw reference against that base (`addURL`). Both are
    plain string manipulation; no URL is parsed or validated. The `<base>`
    tag a page may carry instead is found by a regular expression outside
    the model; it is represented by its text and `href`. */
module Urls {
  import opened Wrappers
  import opened Strings

  /** A `<base>` tag found in a page: the whole tag and its `href`. */
  datatype BaseTag = BaseTag(text: string, href: string)

  /** The base of a document derived from its URL alone.
      `filename` is the text after the last `/`. A URL with at most 8
      characters before its filename (`http://host`) gets a `/` appended; any
      other URL with a filename loses it; a URL ending in `/` (or whose
      filename is PHP-false, i.e. "0") is its own base. */
  function UrlBase(source: string): (base: string)
    ensures EndsWith(source, "/") ==> base == source
    ensures StartsWith(source + "/", base)
    ensures |base| <= |source| ==> forall i :: |base| <= i < |source| ==> source[i] != '/'
    ensures source != "" && LastSegment(source, '/') != "0" ==> EndsWith(base, "/")
  {
    var filename := LastSegment(source, '/');
    assert (source + "/")[..|source|] == source;
    if PhpTruthy(filename) then
      if |source| - |filename| <= 8 then
        assert source[|source| - 1] == filename[|filename| - 1];
        source + "/"
      else if source[|source| - 1] != '/' then
        assert source[..|source| - |filename|][|source| - |filename| - 1] == '/';
        source[..|source| - |filename|]
      else source
    else source
  }

  /** The innermost `else` of `getBase` (the "directory" case) is dead: a
      non-empty filename never ends in `/`, so a URL ending in `/` reaches
      the outer `else` instead. */
  lemma UrlBaseDirectoryBranchUnreachable(source: string)
    requires PhpTruthy(LastSegment(source, '/'))
    ensures source[|source| - 1] != '/'
  {
    var f := LastSegment(source, '/');
    assert source[|source| - 1] == f[|f| - 1];
  }

  /** Characters `CleanRef` strips from either end. */
  const RefTrimChars: set<char> := PhpTrimChars + {'"', '\''}

  /** A reference with nothing for `CleanRef` to strip. */
  predicate IsClean(ref: string) {
    |ref| > 0 ==> ref[0] !in RefTrimChars && ref[|ref| - 1] !in RefTrimChars
  }

  /** `trim`, then `trim` of double quotes, then `trim` of single quotes:
      every quote layer goes, not just one, but whitespace uncovered by
      removing quotes stays (`CleanRefUnquotes`, `CleanRefKeepsInnerSpace`).
      A reference with nothing to strip is kept. */
  function CleanRef(ref: string): (r: string)
    ensures |r| <= |ref|
    ensures |r| > 0 ==> r[0] != '\'' && r[|r| - 1] != '\''
    ensures IsClean(ref) ==> r == ref
  {
    Trim(Trim(Trim(ref, PhpTrimChars), {'"'}), {'\''})
  }

  /** Whitespace around the reference goes first, then every double quote
      on either side, whatever the number of layers. */
  lemma CleanRefUnquotes(ws1: string, q1: string, v: string, q2: string, ws2: string)
    requires forall i :: 0 <= i < |ws1| ==> ws1[i] in PhpTrimChars
    requires forall i :: 0 <= i < |ws2| ==> ws2[i] in PhpTrimChars
    requires forall i :: 0 <= i < |q1| ==> q1[i] == '"'
    requires forall i :: 0 <= i < |q2| ==> q2[i] == '"'
    requires v != "" && IsClean(v)
    ensures CleanRef(ws1 + q1 + v + q2 + ws2) == v
  {
    var m := q1 + v + q2;
    assert ws1 + q1 + v + q2 + ws2 == ws1 + m + ws2;
    QuotedEnds(q1, v, q2);
    TrimOf(ws1, m, ws2, PhpTrimChars);
    TrimOf(q1, v, q2, {'"'});
    TrimUntouched(v, {'\''});
  }

  /** A quoted clean reference neither starts nor ends with whitespace. */
  lemma QuotedEnds(q1: string, v: string, q2: string)
    requires forall i :: 0 <= i < |q1| ==> q1[i] == '"'
    requires forall i :: 0 <= i < |q2| ==> q2[i] == '"'
    requires v != "" && IsClean(v)
    ensures var m := q1 + v + q2;
      m != "" && m[0] !in PhpTrimChars && m[|m| - 1] !in PhpTrimChars
  {
    var m := q1 + v + q2;
    assert m[0] == (if q1 == "" then v[0] else q1[0]);
    assert m[|m| - 1] == (if q2 == "" then v[|v| - 1] else q2[|q2| - 1]);
  }

  /** Whitespace inside the quotes is uncovered only after the whitespace
      pass, so it stays. */
  lemma CleanRefKeepsInnerSpace(v: string)
    requires v != "" && IsClean(v)
    ensures CleanRef("\" " + v + " \"") == " " + v + " "
  {
    var inner := " " + v + " ";
    var s := "\"" + inner + "\"";
    assert "\" " + v + " \"" == s;
    TrimUntouched(s, PhpTrimChars);
    TrimOf("\"", inner, "\"", {'"'});
    TrimUntouched(inner, {'\''});
  }

  /** One step of the `../` loop: drop the last path segment of `base`
      together with the character that ends `base`. */
  function ParentOf(base: string): (parent: string)
    ensures |parent| < |base| || base == ""
    ensures StartsWith(base, parent)
  {
    if |base| == 0 then ""
    else
      var dir := base[..|base| - 1];
      dir[..|dir| - |LastSegment(dir, '/')|]
  }

  /** On a `/`-terminated base with a `/` before its last segment, one step
      removes exactly one segment and keeps the base `/`-terminated. */
  lemma ParentOfRemovesOneSegment(base: string)
    requires EndsWith(base, "/")
    requires exists i :: 0 <= i < |base| - 1 && base[i] == '/'
    ensures var parent := ParentOf(base);
      && EndsWith(parent, "/")
      && exists seg :: base == parent + seg + "/" && forall i :: 0 <= i < |seg| ==> seg[i] != '/'
  {
    var dir := base[..|base| - 1];
    var seg := LastSegment(dir, '/');
    var parent := ParentOf(base);
    var i :| 0 <= i < |base| - 1 && base[i] == '/';
    assert dir[i] == '/';
    assert |seg| < |dir|;
    assert parent[|parent| - 1] == '/';
    assert base == parent + seg + "/";
  }

  /** Climbing from `parent/seg/` lands on `parent/`. */
  lemma ParentOfSegment(parent: string, seg: string)
    requires EndsWith(parent, "/")
    requires forall i :: 0 <= i < |seg| ==> seg[i] != '/'
    ensures ParentOf(parent + seg + "/") == parent
  {
    var base := parent + seg + "/";
    var pre := parent[..|parent| - 1];
    assert pre + "/" + seg == base[..|base| - 1];
    LastSegmentAfter(pre, '/', seg);
  }

  /** `ParentOf` applied `n` times. */
  function Ancestor(base: string, n: nat): string
    decreases n
  {
    if n == 0 then base else Ancestor(ParentOf(base), n - 1)
  }

  /** `n` copies of `../`. */
  function Dots(n: nat): string
    decreases n
  {
    if n == 0 then "" else "../" + Dots(n - 1)
  }

  /** Outcome of the `../` loop: the ascended base, what is left of the
      reference, and how many levels were climbed. */
  datatype Ascent = Ascent(base: string, ref: string, levels: nat)

  /** The `../` loop of `addURL`: while the reference starts with `../`, drop
      that prefix and one segment of the base. */
  function Ascend(base: string, ref: string): (r: Ascent)
    decreases |ref|
    ensures |ref| == 3 * r.levels + |r.ref|
    ensures !StartsWith(r.ref, "../")
  {
    if StartsWith(ref, "../") then
      var r := Ascend(ParentOf(base), ref[3..]);
      Ascent(r.base, r.ref, r.levels + 1)
    else Ascent(base, ref, 0)
  }

  /** One turn of the `../` loop. */
  lemma AscendStep(base: string, ref: string)
    requires StartsWith(ref, "../")
    ensures var r := Ascend(ParentOf(base), ref[3..]);
      Ascend(base, ref) == Ascent(r.base, r.ref, r.levels + 1)
  {
  }

  /** One more `../` in front. */
  lemma DotsStep(n: nat, rest: string)
    ensures Dots(n + 1) + rest == "../" + (Dots(n) + rest)
  {
    ConcatAssoc("../", Dots(n), rest);
  }

  /** The loop strips exactly a run of `../` prefixes, leaves a reference
      that does not start with `../`, and climbs once per prefix removed. */
  lemma {:induction false} AscendSpec(base: string, ref: string)
    decreases |ref|
    ensures var r := Ascend(base, ref);
      && ref == Dots(r.levels) + r.ref
      && !StartsWith(r.ref, "../")
      && r.base == Ancestor(base, r.levels)
  {
    if StartsWith(ref, "../") {
      var tail := ref[3..];
      var r, r' := Ascend(ParentOf(base), tail), Ascend(base, ref);
      assert && ref == Dots(r'.levels) + r'.ref
             && !StartsWith(r'.ref, "../")
             && r'.base == Ancestor(base, r'.levels) by {
        AscendSpec(ParentOf(base), tail);
        AscendStep(base, ref);
        assert ref == "../" + tail by {
          assert ref[..3] == "../";
        }
        DotsStep(r.levels, r.ref);
        assert Ancestor(base, r.levels + 1) == Ancestor(ParentOf(base), r.levels);
      }
    } else {
      AscendStops(base, ref);
      assert Dots(0) + ref == ref;
    }
  }

  /** A reference without a leading `../` does not climb. */
  lemma AscendStops(base: string, ref: string)
    requires !StartsWith(ref, "../")
    ensures Ascend(base, ref) == Ascent(base, ref, 0)
  {
  }

  /** `substr($base, 0, strpos($base, '/', strpos($base, '/') + 2))`: the
      base up to the slash that follows `scheme://host`; a `strpos` that
      finds nothing is PHP `false`, which `substr` reads as length 0. */
  function HostPrefix(base: string): (p: string)
    ensures StartsWith(base, p)
    ensures p != "" ==> |p| < |base| && base[|p|] == '/' && Contains(p, "/")
    ensures !Contains(base, "/") ==> p == ""
  {
    match FindFrom(base, "/", 0)
    case None => ""
    case Some(i) =>
      match FindFrom(base, "/", i + 2)
      case None => ""
      case Some(j) =>
        assert base[..j][i..i + 1] == base[i..i + 1];
        assert MatchAt(base[..j], "/", i);
        assert base[j..j + 1] == [base[j]];
        base[..j]
  }

  /** On a base `scheme://host/path` the prefix is `scheme://host`. */
  lemma HostPrefixOfUrl(scheme: string, host: string, path: string)
    requires forall i :: 0 <= i < |scheme| ==> scheme[i] != '/'
    requires forall i :: 0 <= i < |host| ==> host[i] != '/'
    ensures HostPrefix(scheme + "://" + host + "/" + path) == scheme + "://" + host
  {
    var base := scheme + "://" + host + "/" + path;
    var k := |scheme|;
    forall j | 0 <= j <= k ensures !MatchAt(base, "/", j) {
      assert base[j..j + 1] == [base[j]];
    }
    assert base[k + 1..k + 2] == "/";
    FindFromIs(base, "/", 0, k + 1);
    var h := k + 3 + |host|;
    forall j | k + 3 <= j < h ensures !MatchAt(base, "/", j) {
      assert base[j..j + 1] == [host[j - k - 3]];
    }
    assert base[h..h + 1] == "/";
    FindFromIs(base, "/", k + 3, h);
    assert base[..h] == scheme + "://" + host;
  }

  predicate IsAbsolute(ref: string) {
    StartsWith(ref, "http://") || StartsWith(ref, "https://")
  }

  /** The last step of `addURL`: keep an absolute reference, graft a
      root-relative one onto the host prefix, append anything else. */
  function Graft(a: Ascent): string
  {
    if IsAbsolute(a.ref) then a.ref
    else if StartsWith(a.ref, "/") then HostPrefix(a.base) + a.ref
    else a.base + a.ref
  }

  /** `addURL`: clean the raw reference, ascend for each leading `../`, then
      graft. In every case the result ends with the cleaned reference minus
      its `../` run; an absolute reference is kept whole, and any other one
      stays under the scheme and host of the ascended base. */
  function Resolve(base: string, ref: string): (url: string)
    ensures var a := Ascend(base, CleanRef(ref));
      && EndsWith(url, a.ref)
      && (IsAbsolute(a.ref) ==> url == a.ref)
      && (!IsAbsolute(a.ref) ==> StartsWith(url, HostPrefix(a.base)))
  {
    var a := Ascend(base, CleanRef(ref));
    var url := Graft(a);
    assert url[|url| - |a.ref|..] == a.ref;
    var h := HostPrefix(a.base);
    assert !IsAbsolute(a.ref) ==> url[..|h|] == h by {
      if !IsAbsolute(a.ref) && !StartsWith(a.ref, "/") {
        assert url[..|h|] == a.base[..|h|];
      }
    }
    url
  }

  /** On a reference with nothing to trim, cleaning is skipped. */
  lemma ResolveOfClean(base: string, ref: string)
    requires IsClean(ref)
    ensures Resolve(base, ref) == Graft(Ascend(base, ref))
  {
  }
}

/** Properties of base derivation and reference resolution, with worked
    examples as instances: those of `getBase` are the URLs its comments
    name, those of `addURL` are chosen here. */
module UrlProperties {
  import opened Strings
  import opened Urls

  predicate NoSlash(s: string) {
    forall i :: 0 <= i < |s| ==> s[i] != '/'
  }

  /** A URL with at most 8 characters before a truthy last segment keeps
      that segment and gains a `/`, whatever the segment is. */
  lemma UrlBaseOfShortUrl(dir: string, file: string)
    requires (dir == "" || EndsWith(dir, "/")) && |dir| <= 8
    requires NoSlash(file) && PhpTruthy(file)
    ensures UrlBase(dir + file) == dir + file + "/"
  {
    if dir == "" {
      assert dir + file == file;
      LastSegmentWhole(file, '/');
    } else {
      var pre := dir[..|dir| - 1];
      assert pre + "/" == dir;
      LastSegmentAfter(pre, '/', file);
    }
  }

  /** `http://host` (at most 8 characters before the host) gains a `/`. */
  lemma UrlBaseOfBareHost(scheme: string, host: string)
    requires |scheme| <= 5 && NoSlash(host) && PhpTruthy(host)
    ensures UrlBase(scheme + "://" + host) == scheme + "://" + host + "/"
  {
    UrlBaseOfShortUrl(scheme + "://", host);
  }

  /** A longer URL loses its last segment and keeps the `/` before it. */
  lemma UrlBaseOfFile(dir: string, file: string)
    requires EndsWith(dir, "/") && |dir| > 8
    requires NoSlash(file) && PhpTruthy(file)
    ensures UrlBase(dir + file) == dir
  {
    var pre := dir[..|dir| - 1];
    assert pre + "/" == dir;
    LastSegmentAfter(pre, '/', file);
    assert (dir + file)[..|dir|] == dir;
  }

  /** A last segment "0" is false to PHP, so the URL is its own base and
      does not end in `/`. */
  lemma UrlBaseOfZeroFile(dir: string)
    requires EndsWith(dir, "/")
    ensures UrlBase(dir + "0") == dir + "0"
  {
    var pre := dir[..|dir| - 1];
    assert pre + "/" == dir;
    LastSegmentAfter(pre, '/', "0");
  }

  /** An absolute reference is returned as it is. */
  lemma ResolveAbsolute(base: string, ref: string)
    requires IsClean(ref) && IsAbsolute(ref)
    ensures Resolve(base, ref) == ref
  {
    calc {
      Resolve(base, ref);
    == { ResolveOfClean(base, ref); }
      Graft(Ascend(base, ref));
    == { assert ref[0] == 'h'; FirstCharDiffers(ref, "../"); AscendStops(base, ref); }
      Graft(Ascent(base, ref, 0));
    ==
      ref;
    }
  }

  /** A plain relative reference is appended to the base. */
  lemma ResolveRelative(base: string, ref: string)
    requires IsClean(ref)
    requires !StartsWith(ref, "../") && !IsAbsolute(ref) && !StartsWith(ref, "/")
    ensures Resolve(base, ref) == base + ref
  {
    ResolveOfClean(base, ref);
    AscendStops(base, ref);
  }

  /** A root-relative reference is grafted onto `scheme://host`. */
  lemma ResolveRootRelative(scheme: string, host: string, path: string, ref: string)
    requires NoSlash(scheme) && NoSlash(host)
    requires IsClean(ref) && StartsWith(ref, "/")
    ensures Resolve(scheme + "://" + host + "/" + path, ref) == scheme + "://" + host + ref
  {
    var base := scheme + "://" + host + "/" + path;
    assert ref[0] == '/';
    calc {
      Resolve(base, ref);
    == { ResolveOfClean(base, ref); }
      Graft(Ascend(base, ref));
    == { FirstCharDiffers(ref, "../"); AscendStops(base, ref); }
      Graft(Ascent(base, ref, 0));
    == { FirstCharDiffers(ref, "http://"); FirstCharDiffers(ref, "https://"); }
      HostPrefix(base) + ref;
    == { HostPrefixOfUrl(scheme, host, path); }
      scheme + "://" + host + ref;
    }
  }

  /** One leading `../` against `parent/seg/` lands on `parent/`. */
  lemma AscendOneSegment(parent: string, seg: string, ref: string)
    requires EndsWith(parent, "/") && NoSlash(seg)
    requires !StartsWith(ref, "../")
    ensures Ascend(parent + seg + "/", "../" + ref) == Ascent(parent, ref, 1)
  {
    var base := parent + seg + "/";
    var dotted := "../" + ref;
    assert dotted[3..] == ref;
    assert dotted[..3] == "../";
    AscendStops(ParentOf(base), ref);
    ParentOfSegment(parent, seg);
  }

  /** A leading `../` climbs one directory of the base. */
  lemma ResolveParent(parent: string, seg: string, ref: string)
    requires EndsWith(parent, "/") && NoSlash(seg)
    requires IsClean(ref) && ref != ""
    requires !StartsWith(ref, "../") && !IsAbsolute(ref) && !StartsWith(ref, "/")
    ensures Resolve(parent + seg + "/", "../" + ref) == parent + ref
  {
    var dotted := "../" + ref;
    assert dotted[|dotted| - 1] == ref[|ref| - 1];
    ResolveOfClean(parent + seg + "/", dotted);
    AscendOneSegment(parent, seg, ref);
  }

  // Examples of `getBase` and `addURL`. The URLs are
  // parameters pinned by `requires`, so that the verifier reasons through
  // the general lemmas above instead of unfolding the definitions on
  // literal strings.

  /** `http://example.com` gains a `/`. */
  lemma ExampleBareHost(url: string)
    requires url == "http://example.com"
    ensures UrlBase(url) == url + "/"
  {
    assert url == "http" + "://" + "example.com";
    UrlBaseOfBareHost("http", "example.com");
  }

  /** `http://example.com/test.htm` loses its file name. */
  lemma ExampleFile(url: string, dir: string)
    requires url == "http://example.com/test.htm" && dir == "http://example.com/"
    ensures UrlBase(url) == dir
  {
    assert url == dir + "test.htm";
    UrlBaseOfFile(dir, "test.htm");
  }

  /** `../x.png` against `http://example.com/dir/` climbs to the root: the
      result is `http://example.com/x.png`. */
  lemma ExampleParent(root: string, file: string, base: string, ref: string)
    requires root == "http://example.com/" && file == "x.png"
    requires base == root + "dir/" && ref == "../" + file
    ensures Resolve(base, ref) == root + file
  {
    assert base == root + "dir" + "/";
    ResolveParent(root, "dir", file);
  }

  /** `/a/b.png` against `http://example.com/dir/sub/` hangs off the host:
      the result is `http://example.com/a/b.png`. */
  lemma ExampleRootRelative(scheme: string, host: string, path: string, ref: string)
    requires scheme == "http" && host == "example.com"
    requires path == "dir/sub/" && ref == "/a/b.png"
    ensures Resolve(scheme + "://" + host + "/" + path, ref) == scheme + "://" + host + ref
  {
    assert NoSlash(scheme);
    assert NoSlash(host);
    assert IsClean(ref) by {
      assert ref[0] == '/' && ref[|ref| - 1] == 'g';
    }
    assert StartsWith(ref, "/") by {
      assert ref[..1] == "/";
    }
    ResolveRootRelative(scheme, host, path, ref);
  }

}

/** The Python mirror (`rorrim.py`): a `Site` registers assets by URL and
    queues those to download, and each `Asset` downloads itself, derives its
    base, picks its file name from the MIME type, relinks its page and saves
    it. Threads, the queue's blocking and the network are outside the
    model: the queue is the sequence of URLs put on it, and a download takes
    the response (or its failure) as an argument. */
module Mirror {
  import opened Wrappers
  import opened Strings
  import opened Naming
  import opened Urls

  /** A link found in a page: its relation name, the matched attribute text,
      the URL it resolves to and the raw URL as written. */
  datatype Link = Link(relation: string, location: string, source: string,
                       originalSource: string, context: Option<string>)

  /** An asset. `url` is what links to it are rewritten to: its source until
      a file name is chosen. `contentType`, `data` and `base` are `None` until
      a download sets them. */
  datatype Asset = Asset(
    source: string,
    destination: string,
    level: int,
    links: seq<Link>,
    retrieved: bool,
    url: string,
    contentType: Option<string>,
    data: Option<string>,
    base: Option<string>)

  function NewAsset(source: string, destination: string, level: int): Asset {
    Asset(source, destination, level, [], false, source, None, None, None)
  }

  /** The registry and the download queue. */
  datatype Site = Site(destination: string, assets: map<string, Asset>, queue: seq<string>)

  // ---------------------------------------------------------------------
  // Registration and queueing

  /** `add_asset`: register a new asset for an unknown URL, and queue it when
      asked to; a known URL changes nothing. */
  function AddAsset(s: Site, source: string, level: int, download: bool): (s': Site)
    ensures source in s'.assets
    ensures source in s.assets ==> s' == s
    ensures source !in s.assets ==>
      && s'.assets == s.assets[source := NewAsset(source, s.destination, level)]
      && s'.queue == s.queue + (if download then [source] else [])
      && s'.destination == s.destination
  {
    if source in s.assets then s
    else Site(s.destination, s.assets[source := NewAsset(source, s.destination, level)],
              if download then s.queue + [source] else s.queue)
  }

  /** Registering a URL twice is the same as registering it once, whatever
      the level and the download flag of the second call. */
  lemma AddAssetIdempotent(s: Site, source: string, l1: int, d1: bool, l2: int, d2: bool)
    ensures AddAsset(AddAsset(s, source, l1, d1), source, l2, d2) == AddAsset(s, source, l1, d1)
  {
  }

  /** The crawl starts with the source registered at level 1 and queued. */
  function Start(source: string, destination: string): (s: Site)
    ensures s.assets.Keys == {source} && s.queue == [source]
    ensures s.assets[source] == NewAsset(source, destination, 1)
  {
    AddAsset(Site(destination, map[], []), source, 1, true)
  }

  /** The queueing rule of `process_links`: everything but page links is
      downloaded, up to level 9. */
  predicate ShouldDownload(link: Link, level: int) {
    link.relation != "anchor" && level < 10
  }

  /** `process_links`: register every link at `level`, queueing per the rule. */
  function ProcessLinks(s: Site, links: seq<Link>, level: int): (s': Site)
    decreases |links|
    ensures s.assets.Keys <= s'.assets.Keys && s.queue <= s'.queue
    ensures s'.destination == s.destination
    ensures forall i :: 0 <= i < |links| ==> links[i].source in s'.assets
  {
    if |links| == 0 then s
    else
      var s1 := AddAsset(s, links[0].source, level, ShouldDownload(links[0], level));
      var s2 := ProcessLinks(s1, links[1..], level);
      PrefixTrans(s.queue, s1.queue, s2.queue);
      assert forall i :: 1 <= i < |links| ==> links[i] == links[1..][i - 1];
      s2
  }

  /** The URLs `process_links` queues, stated without the registry: the
      first link to each URL not registered yet, when the rule allows. */
  function Queued(seen: set<string>, links: seq<Link>, level: int): seq<string>
    decreases |links|
  {
    if |links| == 0 then []
    else (if links[0].source !in seen && ShouldDownload(links[0], level) then [links[0].source] else [])
         + Queued(seen + {links[0].source}, links[1..], level)
  }

  function Sources(links: seq<Link>): set<string> {
    set i | 0 <= i < |links| :: links[i].source
  }

  lemma SourcesCons(links: seq<Link>)
    requires |links| > 0
    ensures Sources(links) == {links[0].source} + Sources(links[1..])
  {
    forall x | x in Sources(links) ensures x in {links[0].source} + Sources(links[1..]) {
      var i :| 0 <= i < |links| && links[i].source == x;
      if i > 0 {
        assert links[1..][i - 1].source == x;
      }
    }
    forall x | x in Sources(links[1..]) ensures x in Sources(links) {
      var i :| 0 <= i < |links[1..]| && links[1..][i].source == x;
      assert links[i + 1].source == x;
    }
  }

  /** Processing links registers exactly their URLs, keeps every registered
      asset, and appends exactly `Queued` to the queue. */
  lemma {:induction false} ProcessLinksSpec(s: Site, links: seq<Link>, level: int)
    decreases |links|
    ensures var s' := ProcessLinks(s, links, level);
      && s'.assets.Keys == s.assets.Keys + Sources(links)
      && (forall k :: k in s.assets ==> s'.assets[k] == s.assets[k])
      && s'.queue == s.queue + Queued(s.assets.Keys, links, level)
      && s'.destination == s.destination
      && (forall k :: k in s'.assets && k !in s.assets ==> s'.assets[k] == NewAsset(k, s.destination, level))
  {
    if |links| > 0 {
      var l := links[0];
      var s1 := AddAsset(s, l.source, level, ShouldDownload(l, level));
      assert ProcessLinks(s, links, level) == ProcessLinks(s1, links[1..], level);
      ProcessLinksSpec(s1, links[1..], level);
      SourcesCons(links);
      assert s1.assets.Keys == s.assets.Keys + {l.source};
      var q := if l.source !in s.assets.Keys && ShouldDownload(l, level) then [l.source] else [];
      assert s1.queue == s.queue + q;
      assert Queued(s.assets.Keys, links, level) == q + Queued(s1.assets.Keys, links[1..], level);
      ConcatAssoc(s.queue, q, Queued(s1.assets.Keys, links[1..], level));
    } else {
      assert Sources(links) == {};
    }
  }

  /** A single link is queued exactly when its URL is new and the rule
      allows a download. */
  lemma ProcessLinkQueues(s: Site, link: Link, level: int)
    ensures ProcessLinks(s, [link], level).queue == s.queue + [link.source]
        <==> link.source !in s.assets && ShouldDownload(link, level)
    ensures link.source in ProcessLinks(s, [link], level).assets
  {
    assert [link][1..] == [];
    if link.source !in s.assets && !ShouldDownload(link, level) {
      assert |ProcessLinks(s, [link], level).queue| == |s.queue|;
    }
  }

  // ---------------------------------------------------------------------
  // Download

  /** The pieces `urlsplit` returns. */
  datatype UrlParts = UrlParts(scheme: string, netloc: string, path: string, query: string, fragment: string)

  /** What the download reads from library code: the hex hash, the MIME
      table, the `<base>` search, and `urlsplit`/`urlunsplit`. */
  datatype Env = Env(
    md5hex: string -> string,
    mimeTypes: map<string, string>,
    baseTag: string -> Option<BaseTag>,
    split: string -> UrlParts,
    unsplit: UrlParts -> string)

  /** What `urlopen` returns: the `Content-Type` header if there is one, the
      body, and the final URL. */
  datatype Response = Response(contentType: Option<string>, data: string, url: string)

  /** The directory part of a URL path: everything up to and including its
      last `/`. A path ending in `/` is kept as it is. */
  function PathDir(path: string): (dir: string)
    ensures StartsWith(path, dir)
    ensures dir == "" || EndsWith(dir, "/")
    ensures forall i :: |dir| <= i < |path| ==> path[i] != '/'
  {
    if !EndsWith(path, "/") then
      var seg := LastSegment(path, '/');
      var dir := path[..|path| - |seg|];
      assert |seg| < |path| ==> dir[|dir| - 1] == '/';
      assert forall i :: |dir| <= i < |path| ==> path[i] == seg[i - |dir|];
      dir
    else
      path
  }

  /** Both branches of the path truncation agree: a path already ending in
      `/` is also what cutting after its last `/` gives. */
  lemma PathDirCut(path: string)
    ensures PathDir(path) == path[..|path| - |LastSegment(path, '/')|]
  {
    if EndsWith(path, "/") {
      assert path[|path| - 1] == '/';
      assert LastSegment(path, '/') == "";
    }
  }

  /** A path without `/` has an empty directory. */
  lemma PathDirOfName(name: string)
    requires forall i :: 0 <= i < |name| ==> name[i] != '/'
    ensures PathDir(name) == ""
  {
    assert !EndsWith(name, "/") by {
      if |name| > 0 {
        assert name[|name| - 1..] == [name[|name| - 1]];
      }
    }
    LastSegmentWhole(name, '/');
  }

  /** `href` with a `/` appended unless it already ends in one. */
  function WithSlash(href: string): (r: string)
    ensures EndsWith(r, "/")
    ensures EndsWith(href, "/") ==> r == href
    ensures !EndsWith(href, "/") ==> r == href + "/"
  {
    if EndsWith(href, "/") then href
    else
      assert (href + "/")[|href|..] == "/";
      href + "/"
  }

  /** Adding the slash twice is adding it once. */
  lemma WithSlashIdempotent(href: string)
    ensures WithSlash(WithSlash(href)) == WithSlash(href)
  {
  }

  datatype BaseResult = BaseResult(base: string, data: string)

  /** `get_base`: a `<base>` tag gives the base (with a final `/`) and is
      removed from the page wherever it appears; otherwise the base is the
      URL with its path cut after the last `/` and no query or fragment.
      (`urlsplit` always returns a tuple, so the branch for a falsy result
      is never taken.) */
  function GetBase(env: Env, source: string, data: string): (r: BaseResult)
    ensures env.baseTag(data).None? ==>
      && r.data == data
      && r.base == env.unsplit(UrlParts(env.split(source).scheme, env.split(source).netloc,
                                        PathDir(env.split(source).path), "", ""))
    ensures env.baseTag(data).Some? ==> var t := env.baseTag(data).value;
      && r.base == WithSlash(t.href) && r.data == ReplaceAll(data, t.text, "")
      && EndsWith(r.base, "/") && StartsWith(r.base, t.href) && |r.data| <= |data|
  {
    var tag := env.baseTag(data);
    if tag.Some? then
      var b := WithSlash(tag.value.href);
      assert b[..|tag.value.href|] == tag.value.href;
      BaseResult(b, ReplaceAll(data, tag.value.text, ""))
    else
      var parts := env.split(source);
      BaseResult(env.unsplit(UrlParts(parts.scheme, parts.netloc, PathDir(parts.path), "", "")), data)
  }

  /** A `<base>` tag found in the page is cut out of it: the page gets
      strictly shorter. */
  lemma GetBaseCutsTag(env: Env, source: string, data: string)
    requires env.baseTag(data).Some?
    requires var t := env.baseTag(data).value.text; |t| > 0 && Contains(data, t)
    ensures |GetBase(env, source, data).data| < |data|
  {
    ReplaceAllRemoves(data, env.baseTag(data).value.text);
  }

  /** `os.path.join(a, b)` on POSIX: an absolute `b` wins; otherwise a `/`
      is inserted unless `a` is empty or already ends in one. */
  function PathJoin(a: string, b: string): (r: string)
    ensures EndsWith(r, b)
    ensures !StartsWith(b, "/") ==> StartsWith(r, a)
  {
    var r := if StartsWith(b, "/") then b
             else if a == "" || EndsWith(a, "/") then a + b
             else a + "/" + b;
    assert r[|r| - |b|..] == b;
    assert !StartsWith(b, "/") ==> r[..|a|] == a;
    r
  }

  /** The two ways a download ends: normally, or by an exception the worker
      swallows (a failed `urlopen`, or a missing `Content-Type` header, whose
      `None` has no `split`), leaving whatever was assigned before it. */
  datatype Outcome = Completed(asset: Asset) | Raised(asset: Asset)

  /** `download`: a retrieved asset is left alone; otherwise the response is
      recorded, the base derived, and, when the MIME type has a file name,
      the asset takes it as `url`, joins it onto its destination and becomes
      retrieved. */
  function Download(env: Env, a: Asset, response: Option<Response>): (o: Outcome)
    ensures a.retrieved ==> o == Completed(a)
    ensures !a.retrieved && response.None? ==> o == Raised(a)
    ensures o.asset.retrieved ==> o.Completed?
    ensures o.asset.level == a.level && o.asset.links == a.links
    ensures !a.retrieved && response.Some? ==> (o.Raised? <==> response.value.contentType.None?)
    ensures !a.retrieved && response.Some? ==>
      var resp := response.value;
      && o.asset.source == resp.url
      && (o.asset.retrieved <==> resp.contentType.Some? && MediaType(resp.contentType.value) in env.mimeTypes)
      && o.asset.base == Some(GetBase(env, resp.url, resp.data).base)
      && o.asset.data == Some(GetBase(env, resp.url, resp.data).data)
      && o.asset.contentType == resp.contentType
      && (o.asset.retrieved ==>
            && o.asset.url == GetFilename(env.mimeTypes, env.md5hex, resp.contentType.value, resp.url).value
            && o.asset.destination == PathJoin(a.destination, o.asset.url)
            && EndsWith(o.asset.destination, o.asset.url))
      && (!o.asset.retrieved ==> o.asset.url == a.url && o.asset.destination == a.destination)
  {
    if a.retrieved then Completed(a)
    else if response.None? then Raised(a)
    else
      var resp := response.value;
      var gb := GetBase(env, resp.url, resp.data);
      var a1 := a.(contentType := resp.contentType, source := resp.url,
                   base := Some(gb.base), data := Some(gb.data));
      if resp.contentType.None? then Raised(a1)
      else
        var name := GetFilename(env.mimeTypes, env.md5hex, resp.contentType.value, resp.url);
        if name.Some? then
          Completed(a1.(url := name.value, destination := PathJoin(a1.destination, name.value),
                        retrieved := true))
        else Completed(a1)
  }

  /** Downloading twice is downloading once. */
  lemma DownloadTwice(env: Env, a: Asset, r1: Option<Response>, r2: Option<Response>)
    requires Download(env, a, r1).asset.retrieved
    ensures Download(env, Download(env, a, r1).asset, r2) == Download(env, a, r1)
  {
  }

  // ---------------------------------------------------------------------
  // Relinking and saving

  /** The guard of `update_links`: the linked URL is registered and the
      link's text, its raw URL and the target's `url` are all non-empty. */
  predicate Rewrites(assets: map<string, Asset>, link: Link) {
    && link.source in assets
    && link.location != ""
    && link.originalSource != ""
    && assets[link.source].url != ""
  }

  /** One iteration of `update_links`; a link that fails the guard, or
      whose text is not in the page, changes nothing. */
  function LinkOne(assets: map<string, Asset>, data: string, link: Link): (r: string)
    ensures !Rewrites(assets, link) ==> r == data
    ensures !Contains(data, link.location) ==> r == data
    ensures Rewrites(assets, link) ==>
      r == Implode(Explode(data, link.location),
                   ReplaceAll(link.location, link.originalSource, assets[link.source].url))
  {
    if Rewrites(assets, link) then
      var moved := ReplaceAll(link.location, link.originalSource, assets[link.source].url);
      ReplaceAllIsImplodeExplode(data, link.location, moved);
      ReplaceAll(data, link.location, moved)
    else data
  }

  /** `update_links`: every guarded link's text is replaced, wherever it
      occurs, by that text with the raw URL turned into the target's `url`. */
  function UpdateLinks(assets: map<string, Asset>, data: string, links: seq<Link>): (r: string)
    decreases |links|
    ensures (forall i :: 0 <= i < |links| ==> !Rewrites(assets, links[i])) ==> r == data
  {
    if |links| == 0 then data
    else
      assert forall i :: 1 <= i < |links| ==> links[i] == links[1..][i - 1];
      UpdateLinks(assets, LinkOne(assets, data, links[0]), links[1..])
  }

  /** A single link is handled by `LinkOne`; with `UpdateLinksAppend` and
      the empty case this fixes the whole loop. */
  lemma UpdateLinksSingle(assets: map<string, Asset>, data: string, link: Link)
    ensures UpdateLinks(assets, data, [link]) == LinkOne(assets, data, link)
  { }

  /** The loop handles the links one after the other: updating with a list
      of links is updating with its first part and then the rest. */
  lemma {:induction false} UpdateLinksAppend(assets: map<string, Asset>, data: string,
                                             ls1: seq<Link>, ls2: seq<Link>)
    decreases |ls1|
    ensures UpdateLinks(assets, data, ls1 + ls2) == UpdateLinks(assets, UpdateLinks(assets, data, ls1), ls2)
  {
    if |ls1| == 0 {
      assert ls1 + ls2 == ls2;
    } else {
      assert (ls1 + ls2)[0] == ls1[0];
      assert (ls1 + ls2)[1..] == ls1[1..] + ls2;
      UpdateLinksAppend(assets, LinkOne(assets, data, ls1[0]), ls1[1..], ls2);
    }
  }

  /** A guarded link whose text holds its raw URL is rewritten to hold the
      target's `url`, and a page holding the link's text is changed to hold
      the rewritten text. */
  lemma LinkOneRewrites(assets: map<string, Asset>, data: string, link: Link)
    requires Rewrites(assets, link) && Contains(link.location, link.originalSource)
    requires Contains(data, link.location)
    ensures var moved := ReplaceAll(link.location, link.originalSource, assets[link.source].url);
      Contains(moved, assets[link.source].url) && Contains(LinkOne(assets, data, link), moved)
  {
    var moved := ReplaceAll(link.location, link.originalSource, assets[link.source].url);
    ReplaceAllIntroduces(link.location, link.originalSource, assets[link.source].url);
    ReplaceAllIntroduces(data, link.location, moved);
  }

  /** Relinking a link to a target that still links as its own URL, from a
      page that wrote that URL raw, changes nothing. */
  lemma LinkOneToUnmoved(assets: map<string, Asset>, data: string, link: Link)
    requires link.source in assets && assets[link.source].url == link.originalSource
    ensures LinkOne(assets, data, link) == data
  {
    ReplaceAllSelf(link.location, link.originalSource);
    ReplaceAllSelf(data, link.location);
  }

  /** Links to targets that still link as the URL the page wrote leave
      the page as it is: relinking only ever substitutes a moved URL. */
  lemma {:induction false} UpdateLinksUnmoved(assets: map<string, Asset>, data: string, links: seq<Link>)
    requires forall i :: 0 <= i < |links| && links[i].source in assets ==>
      assets[links[i].source].url == links[i].originalSource
    decreases |links|
    ensures UpdateLinks(assets, data, links) == data
  {
    if |links| > 0 {
      if links[0].source in assets {
        LinkOneToUnmoved(assets, data, links[0]);
      }
      assert forall i :: 1 <= i < |links| ==> links[i] == links[1..][i - 1];
      UpdateLinksUnmoved(assets, data, links[1..]);
    }
  }

  /** `save`: a retrieved asset writes its page to its destination and
      reports success; any other reports failure and writes nothing. */
  function Save(a: Asset, files: map<string, string>): (r: (bool, map<string, string>))
    ensures r.0 <==> a.retrieved
    ensures !r.0 ==> r.1 == files
    ensures r.0 ==> r.1.Keys == files.Keys + {a.destination}
    ensures r.0 ==> r.1[a.destination] == Str(a.data)
    ensures forall f :: f in files && f != a.destination ==> f in r.1 && r.1[f] == files[f]
  {
    if a.retrieved then (true, files[a.destination := Str(a.data)]) else (false, files)
  }
}

/** The PHP mirror's asset graph (`Rorrim_Asset`): a map from the URL an
    asset was created with to the asset, and the lifecycle every asset goes
    through: created, retrieved (fetched, named, typed, an image spooled to
    the temporary directory, base derived, children discovered), saved
    (children relinked, spool read back, payload written). Each operation
    is a function from the state to a new state or to the exception the PHP
    code throws. */
module Assets {
  import opened Wrappers
  import opened Strings
  import opened Urls
  import opened Naming
  import opened Headers

  /** `$type`: `''` until retrieval, then `'text'` or `'image'`. */
  datatype Kind = Untyped | TextAsset | ImageAsset

  /** The kinds of reference discovery looks for, one scanning pattern
      each. */
  datatype Relation =
    | Anchor | Image | Background | Input | Css | CssInvert | CssImport | CssUrl | Javascript

  /** The order in which discovery runs the patterns (the insertion order
      of `regexFindChildren`). */
  const Rules: seq<Relation> :=
    [Anchor, Image, Background, Input, Css, CssInvert, CssImport, CssUrl, Javascript]

  /** One hit of a scanning pattern: the matched attribute text, the raw URL
      inside it, and the link text (anchors only). */
  datatype Occurrence = Occurrence(location: string, url: string, context: Option<string>)

  /** A discovered child: the rewritten attribute text that save time looks
      for, and the graph key of the asset it refers to. */
  datatype Child = Child(relation: Relation, matchText: string, target: string, context: Option<string>)

  /** An asset. `key` is the URL it was created and registered with and
      never changes; `source` becomes the final URL after redirects. `data`
      is `None` where PHP holds `null` (spooled, or written out). */
  datatype Asset = Asset(
    key: string,
    source: string,
    destination: string,
    base: string,
    kind: Kind,
    data: Option<string>,
    cached: bool,
    retrieved: bool,
    children: seq<Child>)

  /** The constructor: source and destination are both the URL. */
  function Fresh(url: string): Asset {
    Asset(url, url, url, "", Untyped, Some(""), false, false, [])
  }

  type Graph = map<string, Asset>

  /** Every asset is registered under its own key. */
  predicate Keyed(g: Graph) {
    forall k :: k in g ==> g[k].key == k
  }

  /** Every child refers to a registered asset. */
  predicate Closed(g: Graph) {
    forall k, i :: k in g && 0 <= i < |g[k].children| ==> g[k].children[i].target in g
  }

  /** An asset not yet retrieved still has its destination equal to its
      source and nothing spooled. */
  predicate Unmoved(g: Graph) {
    forall k :: k in g && !g[k].retrieved ==> g[k].destination == g[k].source && !g[k].cached
  }

  predicate Wf(g: Graph) {
    Keyed(g) && Closed(g) && Unmoved(g)
  }

  /** Replacing a node by one with the same key and children that counts
      as retrieved keeps the graph well formed. */
  lemma ReplaceRetrievedWf(g: Graph, key: string, b: Asset)
    requires Wf(g) && key in g
    requires b.key == key && b.children == g[key].children && b.retrieved
    ensures Wf(g[key := b])
  {
  }

  /** A graph that differs from a well-formed one only in the node under
      `key`, which keeps its key and children and counts as retrieved, is
      well formed. */
  lemma ReplacedRetrievedWf(g: Graph, g': Graph, key: string)
    requires Wf(g) && key in g
    requires g'.Keys == g.Keys
    requires forall k :: k in g && k != key ==> g'[k] == g[k]
    requires g'[key].key == key && g'[key].children == g[key].children && g'[key].retrieved
    ensures Wf(g')
  {
    assert g' == g[key := g'[key]];
    ReplaceRetrievedWf(g, key, g'[key]);
  }

  /** Registering a fresh asset for a new URL keeps the graph well formed. */
  lemma AddFreshWf(g: Graph, url: string)
    requires Wf(g) && url !in g
    ensures Wf(g[url := Fresh(url)])
  {
  }

  /** Changing a page's children and data keeps the graph well formed as
      long as every child's target is registered. */
  lemma ReplaceChildrenWf(g: Graph, key: string, b: Asset)
    requires Wf(g) && key in g
    requires b == g[key].(children := b.children, data := b.data)
    requires forall i :: 0 <= i < |b.children| ==> b.children[i].target in g
    ensures Wf(g[key := b])
  {
  }

  /** The graph, the spool (temporary directory) and the output directory,
      the two directories as maps from file name to contents. */
  datatype World = World(graph: Graph, spool: map<string, string>, files: map<string, string>)

  /** The parts of the PHP code that are pattern matching or hashing:
      `md5`, the file-name group of the URL-pieces pattern, the child
      scanning patterns, the `<base>` search (on the page with comments
      removed) and the `<title>` search. */
  datatype Env = Env(
    md5: string -> string,
    urlFile: string -> Option<string>,
    scan: (Relation, string) -> seq<Occurrence>,
    baseTag: string -> Option<BaseTag>,
    title: string -> Option<string>)

  /** What the cURL wrapper reports for one transfer. */
  datatype Fetch = Fetch(error: string, httpCode: int, url: string, response: Response)

  /** The exceptions the asset operations throw. */
  datatype Error = AlreadyRetrieved | TransportFailed | NotFound | NotRetrieved | NotText

  const DirectorySeparator := "/"

  // ---------------------------------------------------------------------
  // Discovery

  /** The occurrence filter of `getChildren`: mail and script links, page
      fragments and blank URLs are skipped. */
  predicate Accepted(url: string) {
    && !StartsWith(url, "mailto:")
    && !StartsWith(url, "javascript:")
    && !StartsWith(url, "#")
    && Trim(url, PhpTrimChars) != ""
  }

  /** The child an accepted occurrence becomes, against the page's base. */
  function ChildOf(base: string, relation: Relation, occ: Occurrence): Child {
    var url := Resolve(base, occ.url);
    Child(relation, ReplaceAll(occ.location, occ.url, url), url, occ.context)
  }

  /** One occurrence: resolve its URL, register a new asset only when the
      URL is not a key yet, append the child, and replace every copy of the
      occurrence's text in the page by the child's rewritten text. */
  function DiscoverOne(g: Graph, key: string, relation: Relation, occ: Occurrence): (g': Graph)
    requires key in g
    ensures key in g' && g.Keys <= g'.Keys
    ensures g[key].children <= g'[key].children
    ensures |g'[key].children| <= |g[key].children| + 1
  {
    if !Accepted(occ.url) then g
    else
      var a := g[key];
      var c := ChildOf(a.base, relation, occ);
      var g1 := if c.target in g then g else g[c.target := Fresh(c.target)];
      g1[key := a.(children := a.children + [c],
                   data := Some(ReplaceAll(Str(a.data), occ.location, c.matchText)))]
  }

  /** The hits of one pattern, in order. */
  function DiscoverAll(g: Graph, key: string, relation: Relation, occs: seq<Occurrence>): (g': Graph)
    requires key in g
    decreases |occs|
    ensures key in g' && g.Keys <= g'.Keys
    ensures g[key].children <= g'[key].children
    ensures |g'[key].children| <= |g[key].children| + |occs|
  {
    if |occs| == 0 then g
    else
      var g1 := DiscoverOne(g, key, relation, occs[0]);
      var g2 := DiscoverAll(g1, key, relation, occs[1..]);
      PrefixTrans(g[key].children, g1[key].children, g2[key].children);
      g2
  }

  /** Every pattern in turn, each scanning the page as the previous ones
      left it. */
  function DiscoverRules(env: Env, g: Graph, key: string, rules: seq<Relation>): (g': Graph)
    requires key in g
    decreases |rules|
    ensures key in g' && g.Keys <= g'.Keys
    ensures g[key].children <= g'[key].children
  {
    if |rules| == 0 then g
    else
      var occs := env.scan(rules[0], Str(g[key].data));
      var g1 := DiscoverAll(g, key, rules[0], occs);
      var g2 := DiscoverRules(env, g1, key, rules[1..]);
      PrefixTrans(g[key].children, g1[key].children, g2[key].children);
      g2
  }

  /** The children the hits of one pattern add, in order: the reference
      definition discovery is checked against. */
  function NewChildren(base: string, relation: Relation, occs: seq<Occurrence>): seq<Child>
    decreases |occs|
  {
    if |occs| == 0 then []
    else (if Accepted(occs[0].url) then [ChildOf(base, relation, occs[0])] else [])
         + NewChildren(base, relation, occs[1..])
  }

  /** Discovery never replaces a registered asset: other assets are kept as
      they are, the page changes only in its children and data, and new
      keys hold fresh assets. */
  predicate Grows(g: Graph, g': Graph, key: string)
    requires key in g && key in g'
  {
    && (forall k :: k in g ==> k in g')
    && (forall k :: k in g && k != key ==> g'[k] == g[k])
    && (forall k :: k in g' && k !in g ==> g'[k] == Fresh(k))
    && g'[key] == g[key].(children := g'[key].children, data := g'[key].data)
  }

  lemma GrowsTrans(g: Graph, g1: Graph, g2: Graph, key: string)
    requires key in g && key in g1 && key in g2
    requires Grows(g, g1, key) && Grows(g1, g2, key)
    ensures Grows(g, g2, key)
  {
  }

  /** Unfolding step, not a specification: `DiscoverOne` on an accepted
      occurrence spelled out, for the proofs that follow. */
  lemma DiscoverOneAccepted(g: Graph, key: string, relation: Relation, occ: Occurrence)
    requires key in g && Accepted(occ.url)
    ensures var a, c := g[key], ChildOf(g[key].base, relation, occ);
      var g1 := if c.target in g then g else g[c.target := Fresh(c.target)];
      DiscoverOne(g, key, relation, occ)
        == g1[key := a.(children := a.children + [c],
                        data := Some(ReplaceAll(Str(a.data), occ.location, c.matchText)))]
  {
  }

  /** One occurrence never replaces a registered asset: the page changes
      only in its children and data, and a new key holds a fresh asset. */
  lemma DiscoverOneGrows(g: Graph, key: string, relation: Relation, occ: Occurrence)
    requires key in g
    ensures Grows(g, DiscoverOne(g, key, relation, occ), key)
  {
    if Accepted(occ.url) {
      DiscoverOneAccepted(g, key, relation, occ);
      var a, c := g[key], ChildOf(g[key].base, relation, occ);
      var g1 := if c.target in g then g else g[c.target := Fresh(c.target)];
      var b := a.(children := a.children + [c],
                  data := Some(ReplaceAll(Str(a.data), occ.location, c.matchText)));
      if c.target !in g {
        GrowsByFresh(g, c.target, key);
      }
      GrowsByPage(g1, key, b);
      GrowsTrans(g, g1, g1[key := b], key);
    }
  }

  /** Registering a fresh asset under a new key is growth. */
  lemma GrowsByFresh(g: Graph, url: string, key: string)
    requires key in g && url !in g
    ensures Grows(g, g[url := Fresh(url)], key)
  {
  }

  /** Changing only a page's children and data is growth. */
  lemma GrowsByPage(g: Graph, key: string, b: Asset)
    requires key in g && b == g[key].(children := b.children, data := b.data)
    ensures Grows(g, g[key := b], key)
  {
  }

  /** An accepted occurrence appends exactly its child, rewrites the page
      text, and adds a key only for a URL not yet registered. */
  lemma DiscoverOneAdds(g: Graph, key: string, relation: Relation, occ: Occurrence)
    requires key in g && Accepted(occ.url)
    ensures var g', c := DiscoverOne(g, key, relation, occ), ChildOf(g[key].base, relation, occ);
      && g'[key].children == g[key].children + [c]
      && g'[key].data == Some(ReplaceAll(Str(g[key].data), occ.location, c.matchText))
      && c.target in g'
      && (c.target in g ==> g'.Keys == g.Keys)
      && (c.target !in g ==> g'.Keys == g.Keys + {c.target})
  {
    DiscoverOneAccepted(g, key, relation, occ);
  }

  /** One occurrence: a rejected one changes nothing; an accepted one adds
      exactly its child, keeps every registered asset, and rewrites the
      page text. */
  lemma DiscoverOneSpec(g: Graph, key: string, relation: Relation, occ: Occurrence)
    requires key in g
    ensures var g' := DiscoverOne(g, key, relation, occ);
      && Grows(g, g', key)
      && (!Accepted(occ.url) ==> g' == g)
      && (Accepted(occ.url) ==>
            var c := ChildOf(g[key].base, relation, occ);
            && g'[key].children == g[key].children + [c]
            && g'[key].data == Some(ReplaceAll(Str(g[key].data), occ.location, c.matchText))
            && c.target in g'
            && (c.target in g ==> g'.Keys == g.Keys)
            && (c.target !in g ==> g'.Keys == g.Keys + {c.target}))
  {
    DiscoverOneGrows(g, key, relation, occ);
    if Accepted(occ.url) {
      DiscoverOneAdds(g, key, relation, occ);
    }
  }

  /** The hits of one pattern add exactly `NewChildren`, one child per
      accepted occurrence in order, and never replace a registered asset. */
  lemma {:induction false} DiscoverAllSpec(g: Graph, key: string, relation: Relation, occs: seq<Occurrence>)
    requires key in g
    decreases |occs|
    ensures var g' := DiscoverAll(g, key, relation, occs);
      && Grows(g, g', key)
      && g'[key].children == g[key].children + NewChildren(g[key].base, relation, occs)
  {
    if |occs| > 0 {
      var g1 := DiscoverOne(g, key, relation, occs[0]);
      DiscoverOneSpec(g, key, relation, occs[0]);
      DiscoverAllSpec(g1, key, relation, occs[1..]);
      GrowsTrans(g, g1, DiscoverAll(g1, key, relation, occs[1..]), key);
    }
  }

  /** Discovery keeps the graph well formed. */
  lemma DiscoverOneWf(g: Graph, key: string, relation: Relation, occ: Occurrence)
    requires key in g && Wf(g)
    ensures Wf(DiscoverOne(g, key, relation, occ))
  {
    if Accepted(occ.url) {
      DiscoverOneAccepted(g, key, relation, occ);
      var a, c := g[key], ChildOf(g[key].base, relation, occ);
      var g1 := if c.target in g then g else g[c.target := Fresh(c.target)];
      if c.target !in g {
        AddFreshWf(g, c.target);
      }
      var b := a.(children := a.children + [c],
                  data := Some(ReplaceAll(Str(a.data), occ.location, c.matchText)));
      assert forall i :: 0 <= i < |b.children| ==> b.children[i].target in g1 by {
        forall i | 0 <= i < |b.children| ensures b.children[i].target in g1 {
          if i < |a.children| {
            assert b.children[i] == a.children[i];
          }
        }
      }
      ReplaceChildrenWf(g1, key, b);
    }
  }

  lemma {:induction false} DiscoverAllWf(g: Graph, key: string, relation: Relation, occs: seq<Occurrence>)
    requires key in g && Wf(g)
    decreases |occs|
    ensures Wf(DiscoverAll(g, key, relation, occs))
  {
    if |occs| > 0 {
      DiscoverOneWf(g, key, relation, occs[0]);
      DiscoverAllWf(DiscoverOne(g, key, relation, occs[0]), key, relation, occs[1..]);
    }
  }

  /** Running all the patterns keeps the graph well formed and never
      replaces a registered asset. */
  lemma {:induction false} DiscoverRulesSpec(env: Env, g: Graph, key: string, rules: seq<Relation>)
    requires key in g
    decreases |rules|
    ensures var g' := DiscoverRules(env, g, key, rules);
      && Grows(g, g', key)
      && (Wf(g) ==> Wf(g'))
      && g[key].children <= g'[key].children
  {
    if |rules| > 0 {
      var occs := env.scan(rules[0], Str(g[key].data));
      var g1 := DiscoverAll(g, key, rules[0], occs);
      DiscoverAllSpec(g, key, rules[0], occs);
      if Wf(g) {
        DiscoverAllWf(g, key, rules[0], occs);
      }
      DiscoverRulesSpec(env, g1, key, rules[1..]);
      GrowsTrans(g, g1, DiscoverRules(env, g1, key, rules[1..]), key);
    }
  }

  /** A child's rewritten text is the occurrence's text cut at each
      left-to-right, non-overlapping copy of the raw URL and rejoined with the
      resolved URL, so it holds the resolved URL once the raw one occurred. */
  lemma ChildMatchHasTarget(base: string, relation: Relation, occ: Occurrence)
    requires Accepted(occ.url) && Contains(occ.location, occ.url)
    ensures ChildOf(base, relation, occ).matchText
         == Implode(Explode(occ.location, occ.url), Resolve(base, occ.url))
    ensures Contains(ChildOf(base, relation, occ).matchText, Resolve(base, occ.url))
  {
    assert |occ.url| > 0;
    ReplaceAllIsImplodeExplode(occ.location, occ.url, Resolve(base, occ.url));
    ReplaceAllIntroduces(occ.location, occ.url, Resolve(base, occ.url));
  }

  // ---------------------------------------------------------------------
  // Retrieval

  /** The asset is an image when the last `Content-Type` value received
      starts with `image`. */
  predicate IsImage(headers: HeaderMap) {
    && "Content-Type" in headers
    && |headers["Content-Type"]| > 0
    && StartsWith(Str(headers["Content-Type"][|headers["Content-Type"]| - 1]), "image")
  }

  /** `IsImage` on parsed fields looks at the last `Content-Type` field. */
  lemma IsImageOfFields(fields: seq<Field>)
    ensures var vs := Values(fields, "Content-Type");
      IsImage(Collect(fields)) <==> |vs| > 0 && StartsWith(Str(vs[|vs| - 1]), "image")
  {
    var m := Collect(fields);
    var ct := "Content-Type";
    var vs := Values(fields, ct);
    CollectAt(fields, ct);
    if ct in m {
      assert m[ct] == vs;
      assert IsImage(m) == (|vs| > 0 && StartsWith(Str(vs[|vs| - 1]), "image"));
    } else {
      assert !IsImage(m);
      assert vs == [];
    }
  }

  /** Reading a spool file: `None` when there is no such file. */
  function Spooled(spool: map<string, string>, name: string): (d: Option<string>)
    ensures d.Some? <==> name in spool
  {
    if name in spool then Some(spool[name]) else None
  }

  /** `cache`: write the payload to the spool under the destination name and
      drop it from memory; no other asset and no output file changes. */
  function Cache(w: World, key: string): (w': World)
    requires key in w.graph
    ensures w'.graph.Keys == w.graph.Keys && w'.files == w.files
    ensures var a := w.graph[key];
      && w'.graph[key] == a.(data := None, cached := true)
      && w'.spool == w.spool[a.destination := Str(a.data)]
    ensures forall k :: k in w.graph && k != key ==> w'.graph[k] == w.graph[k]
  {
    var a := w.graph[key];
    World(w.graph[key := a.(data := None, cached := true)],
          w.spool[a.destination := Str(a.data)], w.files)
  }

  /** `uncache`: read the spooled payload back and delete the spool file.
      Reading a file that is not there leaves no payload. */
  function Uncache(w: World, key: string): (w': World)
    requires key in w.graph
    ensures w'.graph.Keys == w.graph.Keys && w'.files == w.files
    ensures var a := w.graph[key];
      && w'.graph[key] == a.(data := Spooled(w.spool, a.destination), cached := false)
      && a.destination !in w'.spool
      && w'.spool == w.spool - {a.destination}
    ensures forall k :: k in w.graph && k != key ==> w'.graph[k] == w.graph[k]
  {
    var a := w.graph[key];
    World(w.graph[key := a.(data := Spooled(w.spool, a.destination), cached := false)],
          w.spool - {a.destination}, w.files)
  }

  /** Spooling and reading back returns the payload and frees its spool
      slot, touching nothing else. */
  lemma CacheRoundTrip(w: World, key: string)
    requires key in w.graph
    ensures var a := w.graph[key];
      var w' := Uncache(Cache(w, key), key);
      && w'.graph[key] == a.(data := Some(Str(a.data)), cached := false)
      && w'.spool == w.spool - {a.destination}
      && w'.files == w.files
      && (forall k :: k in w.graph && k != key ==> k in w'.graph && w'.graph[k] == w.graph[k])
  {
  }

  /** The base and the page after `getBase`: a text page with a `<base>` tag
      uses the tag's URL and loses every copy of the tag; anything else
      derives the base from its URL. */
  datatype BaseResult = BaseResult(base: string, data: Option<string>)

  function PageBase(env: Env, a: Asset): (r: BaseResult)
    ensures a.kind != TextAsset ==> r == BaseResult(UrlBase(a.source), a.data)
    ensures var t := env.baseTag(Str(a.data));
      a.kind == TextAsset && (t.None? || t.value.text == "") ==> r == BaseResult(UrlBase(a.source), a.data)
    ensures var t := env.baseTag(Str(a.data));
      a.kind == TextAsset && t.Some? && t.value.text != "" ==>
        && r.base == t.value.href
        && r.data == Some(ReplaceAll(Str(a.data), t.value.text, ""))
        && |Str(r.data)| <= |Str(a.data)|
  {
    var tag := if a.kind == TextAsset then env.baseTag(Str(a.data)) else None;
    if tag.Some? && tag.value.text != "" then
      BaseResult(tag.value.href, Some(ReplaceAll(Str(a.data), tag.value.text, "")))
    else
      BaseResult(UrlBase(a.source), a.data)
  }

  /** A text page with a `<base>` tag takes the tag's URL as its base and
      has the tag cut out: the page gets strictly shorter. */
  lemma PageBaseCutsTag(env: Env, a: Asset)
    requires a.kind == TextAsset
    requires var t := env.baseTag(Str(a.data)); t.Some? && t.value.text != "" && Contains(Str(a.data), t.value.text)
    ensures PageBase(env, a).base == env.baseTag(Str(a.data)).value.href
    ensures |Str(PageBase(env, a).data)| < |Str(a.data)|
  {
    ReplaceAllRemoves(Str(a.data), env.baseTag(Str(a.data)).value.text);
  }

  datatype Retrieved = Retrieved(world: World, source: string)

  /** The fields a successful transfer sets: the final URL, the body, the
      kind from the headers and the allow-listed destination name. */
  function Receive(env: Env, a: Asset, fetch: Fetch): (b: Asset)
    ensures b.key == a.key && b.children == a.children && b.base == a.base
    ensures b.cached == a.cached && b.retrieved == a.retrieved
    ensures b.source == fetch.url && b.data == fetch.response.body
    ensures b.kind != Untyped && (b.kind == ImageAsset <==> IsImage(fetch.response.headers))
    ensures StartsWith(b.destination, env.md5(fetch.url) + ".")
  {
    a.(source := fetch.url, data := fetch.response.body,
       kind := if IsImage(fetch.response.headers) then ImageAsset else TextAsset,
       destination := Destination(env.md5, fetch.url, env.urlFile(fetch.url)))
  }

  /** After the transfer: spool an image, derive the base, mark the asset
      retrieved. Only the asset under `key` and the spool change. */
  function Settle(env: Env, w: World, key: string): (w': World)
    requires key in w.graph
    ensures w'.graph.Keys == w.graph.Keys && w'.files == w.files
    ensures forall k :: k in w.graph && k != key ==> w'.graph[k] == w.graph[k]
    ensures var a, a' := w.graph[key], w'.graph[key];
      && a' == a.(base := a'.base, data := a'.data, cached := a'.cached, retrieved := true)
      && (a.kind == ImageAsset ==>
            a'.cached && a'.data.None? && a'.base == UrlBase(a.source)
            && w'.spool == w.spool[a.destination := Str(a.data)])
      && (a.kind != ImageAsset ==> a'.cached == a.cached && w'.spool == w.spool)
  {
    var a := w.graph[key];
    var w1 := if a.kind == ImageAsset then Cache(w, key) else w;
    var b := w1.graph[key];
    assert b == a.(data := b.data, cached := b.cached);
    var pb := PageBase(env, b);
    assert a.kind == ImageAsset ==> pb.base == UrlBase(a.source);
    w1.(graph := w1.graph[key := b.(base := pb.base, data := pb.data, retrieved := true)])
  }

  /** Discovery for a text page when the caller asks for it. */
  function Explore(env: Env, w: World, key: string, auto: bool): (w': World)
    requires key in w.graph
    ensures key in w'.graph
  {
    if auto && w.graph[key].kind != ImageAsset
    then w.(graph := DiscoverRules(env, w.graph, key, Rules)) else w
  }

  /** `Explore` never replaces a registered asset or touches the spool and
      the output, and keeps the graph well formed. */
  lemma ExploreSpec(env: Env, w: World, key: string, auto: bool)
    requires key in w.graph
    ensures var w' := Explore(env, w, key, auto);
      && Grows(w.graph, w'.graph, key)
      && w'.spool == w.spool && w'.files == w.files
      && (Wf(w.graph) ==> Wf(w'.graph))
      && (w.graph[key].kind == ImageAsset ==> w' == w)
  {
    if auto && w.graph[key].kind != ImageAsset {
      DiscoverRulesSpec(env, w.graph, key, Rules);
    }
  }

  /** `retrieve`: the checks in the order the PHP code makes them (a failed
      retrieval throws before anything is assigned), then the
      final URL, the allow-listed destination name, the kind (an image is
      spooled at once), the base, the retrieved flag, and discovery for a
      text page when asked for. */
  function Retrieve(env: Env, w: World, key: string, fetch: Fetch, autoGetChildren: bool): (r: Result<Retrieved, Error>)
    requires key in w.graph
    ensures w.graph[key].retrieved <==> r == Failure(AlreadyRetrieved)
    ensures !w.graph[key].retrieved && PhpTruthy(fetch.error) ==> r == Failure(TransportFailed)
    ensures !w.graph[key].retrieved && !PhpTruthy(fetch.error) && fetch.httpCode != 200 ==> r == Failure(NotFound)
    ensures r.Success? <==> !w.graph[key].retrieved && !PhpTruthy(fetch.error) && fetch.httpCode == 200
    ensures r.Success? ==> key in r.value.world.graph
  {
    var a := w.graph[key];
    if a.retrieved then Failure(AlreadyRetrieved)
    else if PhpTruthy(fetch.error) then Failure(TransportFailed)
    else if fetch.httpCode != 200 then Failure(NotFound)
    else
      var w1 := Settle(env, w.(graph := w.graph[key := Receive(env, a, fetch)]), key);
      Success(Retrieved(Explore(env, w1, key, autoGetChildren), fetch.url))
  }

  /** Unfolding step, not a specification: a successful `Retrieve` spelled
      out as the transfer received, settled and explored. */
  lemma RetrieveUnfold(env: Env, w: World, key: string, fetch: Fetch, auto: bool)
    requires key in w.graph
    requires Retrieve(env, w, key, fetch, auto).Success?
    ensures var w0 := w.(graph := w.graph[key := Receive(env, w.graph[key], fetch)]);
      Retrieve(env, w, key, fetch, auto).value
        == Retrieved(Explore(env, Settle(env, w0, key), key, auto), fetch.url)
  {
  }

  /** After a successful retrieval the asset is retrieved under its
      original key with the final URL as source, the allow-listed name and
      the kind the headers give; the final URL is returned. */
  lemma RetrieveSpec(env: Env, w: World, key: string, fetch: Fetch, auto: bool)
    requires key in w.graph
    requires Retrieve(env, w, key, fetch, auto).Success?
    ensures var r := Retrieve(env, w, key, fetch, auto).value;
      var a := r.world.graph[key];
      && r.source == fetch.url
      && a.key == w.graph[key].key && a.source == fetch.url && a.retrieved
      && a.destination == Destination(env.md5, fetch.url, env.urlFile(fetch.url))
      && (a.kind == ImageAsset <==> IsImage(fetch.response.headers))
  {
    RetrieveUnfold(env, w, key, fetch, auto);
    var w0 := w.(graph := w.graph[key := Receive(env, w.graph[key], fetch)]);
    ExploreSpec(env, Settle(env, w0, key), key, auto);
  }

  /** Retrieval never replaces another asset, only adds fresh ones, and
      never touches the output directory. */
  lemma RetrieveFrame(env: Env, w: World, key: string, fetch: Fetch, auto: bool)
    requires key in w.graph
    requires Retrieve(env, w, key, fetch, auto).Success?
    ensures var g' := Retrieve(env, w, key, fetch, auto).value.world.graph;
      && (forall k :: k in w.graph ==> k in g')
      && (forall k :: k in w.graph && k != key ==> g'[k] == w.graph[k])
      && (forall k :: k in g' && k !in w.graph ==> g'[k] == Fresh(k))
    ensures Retrieve(env, w, key, fetch, auto).value.world.files == w.files
  {
    RetrieveUnfold(env, w, key, fetch, auto);
    var w0 := w.(graph := w.graph[key := Receive(env, w.graph[key], fetch)]);
    var w1 := Settle(env, w0, key);
    ExploreSpec(env, w1, key, auto);
    var g' := Explore(env, w1, key, auto).graph;
    assert Grows(w1.graph, g', key);
    assert w1.graph.Keys == w.graph.Keys;
    forall k | k in w.graph && k != key
      ensures g'[k] == w.graph[k]
    {
      assert w1.graph[k] == w0.graph[k];
    }
  }

  /** An image is spooled under its name with exactly the body received,
      is not held in memory, takes its base from the final URL, and is not
      explored. */
  lemma RetrieveImage(env: Env, w: World, key: string, fetch: Fetch, auto: bool)
    requires key in w.graph
    requires Retrieve(env, w, key, fetch, auto).Success?
    requires IsImage(fetch.response.headers)
    ensures var w' := Retrieve(env, w, key, fetch, auto).value.world;
      var a := w'.graph[key];
      && a.cached && a.data.None? && a.base == UrlBase(fetch.url)
      && a.children == w.graph[key].children
      && w'.spool == w.spool[a.destination := Str(fetch.response.body)]
  {
    RetrieveUnfold(env, w, key, fetch, auto);
    var w0 := w.(graph := w.graph[key := Receive(env, w.graph[key], fetch)]);
    ExploreSpec(env, Settle(env, w0, key), key, auto);
  }

  /** A text page is not spooled; its base is the one `getBase` derives
      from the page as received, and only discovery, when asked for, adds
      children or rewrites the page further. */
  lemma RetrieveText(env: Env, w: World, key: string, fetch: Fetch, auto: bool)
    requires key in w.graph
    requires Retrieve(env, w, key, fetch, auto).Success?
    requires !IsImage(fetch.response.headers)
    ensures var w' := Retrieve(env, w, key, fetch, auto).value.world;
      var a := w'.graph[key];
      var pb := PageBase(env, Receive(env, w.graph[key], fetch));
      && a.kind == TextAsset
      && w'.spool == w.spool && a.cached == w.graph[key].cached
      && a.base == pb.base
      && w.graph[key].children <= a.children
      && (!auto ==> a.data == pb.data && a.children == w.graph[key].children)
  {
    RetrieveUnfold(env, w, key, fetch, auto);
    var w0 := w.(graph := w.graph[key := Receive(env, w.graph[key], fetch)]);
    var w1 := Settle(env, w0, key);
    ExploreSpec(env, w1, key, auto);
    if auto {
      DiscoverRulesSpec(env, w1.graph, key, Rules);
    }
  }

  /** A retrieved asset cannot be retrieved again. */
  lemma RetrieveTwice(env: Env, w: World, key: string, f1: Fetch, f2: Fetch, a1: bool, a2: bool)
    requires key in w.graph
    requires Retrieve(env, w, key, f1, a1).Success?
    ensures var w' := Retrieve(env, w, key, f1, a1).value.world;
      Retrieve(env, w', key, f2, a2) == Failure(AlreadyRetrieved)
  {
    RetrieveSpec(env, w, key, f1, a1);
  }

  /** Retrieval keeps the graph well formed. */
  lemma RetrieveWf(env: Env, w: World, key: string, fetch: Fetch, auto: bool)
    requires key in w.graph && Wf(w.graph)
    requires Retrieve(env, w, key, fetch, auto).Success?
    ensures Wf(Retrieve(env, w, key, fetch, auto).value.world.graph)
  {
    RetrieveUnfold(env, w, key, fetch, auto);
    SettledWf(env, w, key, fetch);
    var w0 := w.(graph := w.graph[key := Receive(env, w.graph[key], fetch)]);
    ExploreSpec(env, Settle(env, w0, key), key, auto);
  }

  /** The asset as received and settled keeps its key and children and is
      retrieved, so the graph stays well formed. */
  lemma SettledWf(env: Env, w: World, key: string, fetch: Fetch)
    requires key in w.graph && Wf(w.graph)
    ensures var w0 := w.(graph := w.graph[key := Receive(env, w.graph[key], fetch)]);
      Wf(Settle(env, w0, key).graph)
  {
    var w0 := w.(graph := w.graph[key := Receive(env, w.graph[key], fetch)]);
    ReplacedRetrievedWf(w.graph, Settle(env, w0, key).graph, key);
  }

  /** `getChildren` called directly: it throws for an asset not retrieved
      and for one that is not text, and otherwise runs discovery. */
  function GetChildren(env: Env, g: Graph, key: string): (r: Result<Graph, Error>)
    requires key in g
    ensures !g[key].retrieved ==> r == Failure(NotRetrieved)
    ensures g[key].retrieved && g[key].kind != TextAsset ==> r == Failure(NotText)
    ensures r.Success? <==> g[key].retrieved && g[key].kind == TextAsset
    ensures r.Success? ==> key in r.value && Grows(g, r.value, key) && g[key].children <= r.value[key].children
    ensures r.Success? && Wf(g) ==> Wf(r.value)
  {
    if !g[key].retrieved then Failure(NotRetrieved)
    else if g[key].kind != TextAsset then Failure(NotText)
    else
      DiscoverRulesSpec(env, g, key, Rules);
      Success(DiscoverRules(env, g, key, Rules))
  }

  /** `getPageTitle`: the title of a text page when it has a non-empty one,
      its URL otherwise. */
  function GetPageTitle(env: Env, a: Asset): (r: Result<string, Error>)
    ensures !a.retrieved <==> r == Failure(NotRetrieved)
    ensures var t := env.title(Str(a.data));
      a.retrieved && a.kind == TextAsset && t.Some? && PhpTruthy(t.value) ==> r == Success(t.value)
    ensures r.Success? && r.value != a.source ==>
      a.kind == TextAsset && env.title(Str(a.data)) == Some(r.value) && PhpTruthy(r.value)
  {
    if !a.retrieved then Failure(NotRetrieved)
    else if a.kind == TextAsset && env.title(Str(a.data)).Some? && PhpTruthy(env.title(Str(a.data)).value)
    then Success(env.title(Str(a.data)).value)
    else Success(a.source)
  }

  /** The title of an image just retrieved is its final URL. */
  lemma GetPageTitleOfRetrievedImage(env: Env, w: World, key: string, fetch: Fetch, auto: bool)
    requires key in w.graph
    requires Retrieve(env, w, key, fetch, auto).Success?
    requires IsImage(fetch.response.headers)
    ensures GetPageTitle(env, Retrieve(env, w, key, fetch, auto).value.world.graph[key]) == Success(fetch.url)
  {
    RetrieveSpec(env, w, key, fetch, auto);
  }

  // ---------------------------------------------------------------------
  // Save

  /** One child at save time: replace every copy of its rewritten text by
      that text with the child's source changed to its destination. A
      missing child (PHP `null`) substitutes nothing. */
  function RelinkOne(g: Graph, data: string, c: Child): (r: string)
    ensures c.target !in g ==> r == data
    ensures !Contains(data, c.matchText) ==> r == data
    ensures c.target in g && c.matchText != "" ==>
      var t := g[c.target];
      r == Implode(Explode(data, c.matchText), ReplaceAll(c.matchText, t.source, t.destination))
  {
    if c.target in g then
      var t := g[c.target];
      var moved := ReplaceAll(c.matchText, t.source, t.destination);
      assert c.matchText != "" ==>
        ReplaceAll(data, c.matchText, moved) == Implode(Explode(data, c.matchText), moved) by {
        if c.matchText != "" {
          ReplaceAllIsImplodeExplode(data, c.matchText, moved);
        }
      }
      ReplaceAll(data, c.matchText, moved)
    else data
  }

  /** `updateChildren`'s loop over the children in order. Children whose
      asset is not registered substitute nothing. */
  function Relink(g: Graph, data: string, children: seq<Child>): (r: string)
    decreases |children|
    ensures (forall i :: 0 <= i < |children| ==> children[i].target !in g) ==> r == data
  {
    if |children| == 0 then data
    else Relink(g, RelinkOne(g, data, children[0]), children[1..])
  }

  /** A single child is relinked by `RelinkOne`; with `RelinkAppend` and the
      childless case this fixes the whole loop. */
  lemma RelinkSingle(g: Graph, data: string, c: Child)
    ensures Relink(g, data, [c]) == RelinkOne(g, data, c)
  { }

  /** The loop handles the children one after the other: relinking a list
      of children is relinking its first part and then the rest. */
  lemma {:induction false} RelinkAppend(g: Graph, data: string, cs1: seq<Child>, cs2: seq<Child>)
    decreases |cs1|
    ensures Relink(g, data, cs1 + cs2) == Relink(g, Relink(g, data, cs1), cs2)
  {
    if |cs1| == 0 {
      assert cs1 + cs2 == cs2;
    } else {
      assert (cs1 + cs2)[0] == cs1[0];
      assert (cs1 + cs2)[1..] == cs1[1..] + cs2;
      RelinkAppend(g, RelinkOne(g, data, cs1[0]), cs1[1..], cs2);
    }
  }

  /** Children that still have their destination equal to their source
      (never retrieved) leave the page as it is. */
  lemma {:induction false} RelinkUnmoved(g: Graph, data: string, children: seq<Child>)
    requires forall i :: 0 <= i < |children| && children[i].target in g ==>
      g[children[i].target].destination == g[children[i].target].source
    decreases |children|
    ensures Relink(g, data, children) == data
  {
    if |children| > 0 {
      var c := children[0];
      if c.target in g {
        var t := g[c.target];
        ReplaceAllSelf(c.matchText, t.source);
        ReplaceAllSelf(data, c.matchText);
      }
      assert RelinkOne(g, data, c) == data;
      RelinkUnmoved(g, data, children[1..]);
    }
  }

  /** A child whose asset was redirected is looked up by its new source,
      which its rewritten text (holding the original URL) need not contain;
      the page is then left unchanged by that child. */
  lemma RelinkOneRedirected(g: Graph, data: string, c: Child)
    requires c.target in g && !Contains(c.matchText, g[c.target].source)
    ensures RelinkOne(g, data, c) == data
  {
    ReplaceAllSelf(data, c.matchText);
  }

  /** A child whose text holds its asset's source is relinked: a page
      holding the child's text afterwards holds that text with the source
      turned into the destination, and the destination appears in it. */
  lemma RelinkOneMoves(g: Graph, data: string, c: Child)
    requires c.target in g && |g[c.target].source| > 0
    requires Contains(c.matchText, g[c.target].source)
    ensures var t := g[c.target];
      var moved := ReplaceAll(c.matchText, t.source, t.destination);
      && Contains(moved, t.destination)
      && (Contains(data, c.matchText) ==> Contains(RelinkOne(g, data, c), moved))
  {
    var t := g[c.target];
    var moved := ReplaceAll(c.matchText, t.source, t.destination);
    ReplaceAllIntroduces(c.matchText, t.source, t.destination);
    if Contains(data, c.matchText) {
      var i :| 0 <= i <= |c.matchText| && MatchAt(c.matchText, t.source, i);
      assert |c.matchText| > 0;
      ReplaceAllIntroduces(data, c.matchText, moved);
    }
  }

  /** `updateChildren`: it throws for an asset not retrieved and for one
      that is not text; otherwise the page is relinked (left alone when it
      has no children). */
  function UpdateChildren(g: Graph, key: string): (r: Result<Option<string>, Error>)
    requires key in g
    ensures !g[key].retrieved ==> r == Failure(NotRetrieved)
    ensures g[key].retrieved && g[key].kind != TextAsset ==> r == Failure(NotText)
    ensures r.Success? <==> g[key].retrieved && g[key].kind == TextAsset
    ensures r.Success? && |g[key].children| == 0 ==> r.value == g[key].data
    ensures r.Success? && (forall i :: 0 <= i < |g[key].children| ==> g[key].children[i].target !in g) ==>
      Str(r.value) == Str(g[key].data)
    ensures r.Success? ==> Str(r.value) == Relink(g, Str(g[key].data), g[key].children)
  {
    var a := g[key];
    if !a.retrieved then Failure(NotRetrieved)
    else if a.kind != TextAsset then Failure(NotText)
    else if |a.children| == 0 then Success(a.data)
    else Success(Some(Relink(g, Str(a.data), a.children)))
  }

  /** Relinking a page whose children were never retrieved changes nothing. */
  lemma UpdateChildrenUnmoved(g: Graph, key: string)
    requires key in g && Wf(g) && g[key].retrieved && g[key].kind == TextAsset
    requires forall i :: 0 <= i < |g[key].children| ==> !g[g[key].children[i].target].retrieved
    ensures UpdateChildren(g, key).Success?
    ensures Str(UpdateChildren(g, key).value) == Str(g[key].data)
  {
    var cs := g[key].children;
    forall i | 0 <= i < |cs| && cs[i].target in g
      ensures g[cs[i].target].destination == g[cs[i].target].source
    {
    }
    RelinkUnmoved(g, Str(g[key].data), cs);
  }

  datatype Saved = Saved(world: World, name: string)

  /** The file an asset is written to. */
  function OutputPath(path: string, name: string): string {
    path + DirectorySeparator + name
  }

  /** `save` with the spool read back before a custom file name takes
      effect: a custom name replaces the destination, a text page is
      relinked, the payload is written under the destination and dropped
      from memory. */
  function Save(w: World, key: string, path: string, filename: Option<string>): (r: Result<Saved, Error>)
    requires key in w.graph
    ensures !w.graph[key].retrieved <==> r == Failure(NotRetrieved)
    ensures r.Success? && PhpTruthy(Str(filename)) ==> r.value.name == filename.value
    ensures r.Success? && !PhpTruthy(Str(filename)) ==> r.value.name == w.graph[key].destination
    ensures r.Success? ==> var a, w' := w.graph[key], r.value.world;
      && w'.graph.Keys == w.graph.Keys
      && w'.graph[key] == a.(destination := r.value.name, data := None, cached := false)
      && (forall k :: k in w.graph && k != key ==> w'.graph[k] == w.graph[k])
      && w'.spool == (if a.cached then w.spool - {a.destination} else w.spool)
    ensures r.Success? ==> var a, w' := w.graph[key], r.value.world;
      var loaded := if a.cached then a.(data := Spooled(w.spool, a.destination), cached := false) else a;
      w'.files == w.files[OutputPath(path, r.value.name) :=
        if a.kind == TextAsset
        then Str(UpdateChildren(w.graph[key := loaded.(destination := r.value.name)], key).value)
        else Str(loaded.data)]
  {
    var a := w.graph[key];
    if !a.retrieved then Failure(NotRetrieved)
    else if a.cached then
      var loaded := a.(data := Spooled(w.spool, a.destination), cached := false);
      var w1 := Uncache(w, key);
      var saved := SaveLoaded(w1, key, path, filename);
      assert w1.graph == w.graph[key := loaded];
      assert w1.graph[key := loaded.(destination := saved.name)]
          == w.graph[key := loaded.(destination := saved.name)];
      Success(saved)
    else Success(SaveLoaded(w, key, path, filename))
  }

  /** The part of `save` once the payload is in memory: take the custom
      name, relink a text page against the renamed graph, write the page
      under its name, and drop it from memory. */
  function SaveLoaded(w: World, key: string, path: string, filename: Option<string>): (r: Saved)
    requires key in w.graph && w.graph[key].retrieved
    ensures var b := w.graph[key];
      r.name == if PhpTruthy(Str(filename)) then filename.value else b.destination
    ensures var b, w' := w.graph[key], r.world;
      && w'.graph == w.graph[key := b.(destination := r.name, data := None)]
      && w'.spool == w.spool
      && w'.files == w.files[OutputPath(path, r.name) :=
           if b.kind == TextAsset
           then Str(UpdateChildren(w.graph[key := b.(destination := r.name)], key).value)
           else Str(b.data)]
  {
    var b := Prepared(w.graph, key, filename);
    var w1 := w.(graph := w.graph[key := b]);
    assert w1.graph[key := b.(data := None)] == w.graph[key := b.(data := None)];
    WriteOut(w1, key, path)
  }

  /** The page under `key` with the custom name taken and, for text,
      relinked against the graph that already holds the new name. */
  function Prepared(g: Graph, key: string, filename: Option<string>): (b: Asset)
    requires key in g && g[key].retrieved
    ensures b.destination == if PhpTruthy(Str(filename)) then filename.value else g[key].destination
    ensures b == g[key].(destination := b.destination, data := b.data)
    ensures b.data == if g[key].kind == TextAsset
                      then UpdateChildren(g[key := g[key].(destination := b.destination)], key).value
                      else g[key].data
  {
    var a := g[key];
    var a1 := if PhpTruthy(Str(filename)) then a.(destination := filename.value) else a;
    assert a1 == a.(destination := a1.destination);
    if a1.kind == TextAsset then a1.(data := UpdateChildren(g[key := a1], key).value) else a1
  }

  /** Writing the page under `key` to the output directory under its
      destination name and dropping it from memory. */
  function WriteOut(w: World, key: string, path: string): (r: Saved)
    requires key in w.graph
    ensures r.name == w.graph[key].destination
    ensures r.world.graph == w.graph[key := w.graph[key].(data := None)]
    ensures r.world.spool == w.spool
    ensures r.world.files == w.files[OutputPath(path, r.name) := Str(w.graph[key].data)]
  {
    var b := w.graph[key];
    Saved(World(w.graph[key := b.(data := None)], w.spool, w.files[OutputPath(path, b.destination) := Str(b.data)]),
          b.destination)
  }

  /** `save` as the PHP code orders it: the custom file name replaces the
      destination before the spool is read back, so the spool is read under
      the new name. */
  function SaveAsWritten(w: World, key: string, path: string, filename: Option<string>): (r: Result<Saved, Error>)
    requires key in w.graph
    ensures !w.graph[key].retrieved <==> r == Failure(NotRetrieved)
    ensures r.Success? && PhpTruthy(Str(filename)) ==> r.value.name == filename.value
    ensures r.Success? && !PhpTruthy(Str(filename)) ==> r.value.name == w.graph[key].destination
    ensures r.Success? ==> var a, w' := w.graph[key], r.value.world;
      && w'.graph.Keys == w.graph.Keys
      && w'.graph[key] == a.(destination := r.value.name, data := None, cached := false)
      && (forall k :: k in w.graph && k != key ==> w'.graph[k] == w.graph[k])
    ensures r.Success? && w.graph[key].cached ==> var w' := r.value.world;
      && w'.files == w.files[OutputPath(path, r.value.name) := Str(Spooled(w.spool, r.value.name))]
      && w'.spool == w.spool - {r.value.name}
    ensures r.Success? && !w.graph[key].cached ==> var a, w' := w.graph[key], r.value.world;
      && w'.files == w.files[OutputPath(path, r.value.name) :=
           if a.kind == TextAsset
           then Str(UpdateChildren(w.graph[key := a.(destination := r.value.name)], key).value)
           else Str(a.data)]
      && w'.spool == w.spool
  {
    var a := w.graph[key];
    if !a.retrieved then Failure(NotRetrieved)
    else
      var b := Prepared(w.graph, key, filename);
      var w2 := World(w.graph[key := b], w.spool, w.files);
      if b.cached then
        var w3 := Uncache(w2, key);
        assert w3.graph == w.graph[key := w3.graph[key]];
        Success(WriteOut(w3, key, path))
      else
        Success(WriteOut(w2, key, path))
  }

  /** A spooled image is written out with its spooled payload, under the
      custom name when one is given. */
  lemma SaveWritesSpooled(w: World, key: string, path: string, filename: Option<string>)
    requires key in w.graph
    requires var a := w.graph[key]; a.retrieved && a.cached && a.kind == ImageAsset && a.destination in w.spool
    ensures var r := Save(w, key, path, filename);
      && r.Success?
      && r.value.world.files[OutputPath(path, r.value.name)] == w.spool[w.graph[key].destination]
      && r.value.world.spool == w.spool - {w.graph[key].destination}
  {
  }

  /** With a custom name that is not in the spool, the code as written reads
      the spool under that name, writes an empty file, and leaves the image
      in the spool; reading back first writes the image. */
  lemma SaveAsWrittenLosesSpooled(w: World, key: string, path: string, name: string)
    requires key in w.graph
    requires var a := w.graph[key]; a.retrieved && a.cached && a.kind == ImageAsset && a.destination in w.spool
    requires PhpTruthy(name) && name != w.graph[key].destination && name !in w.spool
    ensures var r := SaveAsWritten(w, key, path, Some(name));
      && r.Success? && r.value.name == name
      && r.value.world.files[OutputPath(path, name)] == ""
      && r.value.world.spool == w.spool
    ensures var r := Save(w, key, path, Some(name));
      && r.Success? && r.value.name == name
      && r.value.world.files[OutputPath(path, name)] == w.spool[w.graph[key].destination]
  {
  }

  /** The two orders agree when no custom name is given. */
  lemma SaveAgreesWithoutName(w: World, key: string, path: string, filename: Option<string>)
    requires key in w.graph && !PhpTruthy(Str(filename))
    requires w.graph[key].cached ==> w.graph[key].kind != TextAsset
    ensures Save(w, key, path, filename) == SaveAsWritten(w, key, path, filename)
  {
    var a := w.graph[key];
    if a.retrieved {
      if a.cached {
        var w1 := Uncache(w, key);
        var b := w1.graph[key];
        assert w1.graph[key := b][key := b.(data := None)] == w1.graph[key := b.(data := None)];
        var w2 := World(w.graph[key := a][key := a], w.spool, w.files);
        assert w2 == w;
      } else {
        var a2 := if a.kind == TextAsset then a.(data := UpdateChildren(w.graph, key).value) else a;
        assert w.graph[key := a] == w.graph;
        assert w.graph[key := a2][key := a2.(data := None)] == w.graph[key := a2.(data := None)];
      }
    }
  }

  /** An image retrieved and then saved is written with exactly the body
      the transfer delivered. */
  lemma RetrieveThenSaveImage(env: Env, w: World, key: string, fetch: Fetch, auto: bool,
                              path: string, filename: Option<string>)
    requires key in w.graph
    requires Retrieve(env, w, key, fetch, auto).Success?
    requires IsImage(fetch.response.headers)
    ensures var w' := Retrieve(env, w, key, fetch, auto).value.world;
      var r := Save(w', key, path, filename);
      r.Success? && r.value.world.files[OutputPath(path, r.value.name)] == Str(fetch.response.body)
  {
    RetrieveSpec(env, w, key, fetch, auto);
    RetrieveImage(env, w, key, fetch, auto);
    var w' := Retrieve(env, w, key, fetch, auto).value.world;
    SaveWritesSpooled(w', key, path, filename);
  }

  /** Saving keeps the graph well formed. */
  lemma SaveWf(w: World, key: string, path: string, filename: Option<string>)
    requires key in w.graph && Wf(w.graph)
    requires Save(w, key, path, filename).Success?
    ensures Wf(Save(w, key, path, filename).value.world.graph)
  {
    var g' := Save(w, key, path, filename).value.world.graph;
    assert g' == w.graph[key := g'[key]];
    ReplaceRetrievedWf(w.graph, key, g'[key]);
  }
}

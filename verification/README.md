# Rorrim in Dafny

Rorrim mirrors a web page for offline use. It has two implementations.

- **The PHP library.** A `Rorrim_Asset` fetches a URL through a small cURL wrapper (`Rorrim_Curl`) and names the local file after the MD5 of the final URL. It derives the base that relative links resolve against and discovers its children: images, stylesheets, scripts, background images, inputs and linked pages. Each child is registered in a shared asset map keyed by URL. At save time the page's references are rewritten to the children's local file names.
- **The Python port (`rorrim.py`).** It does the same with a crawl queue, a MIME-type table for file names, and a guarded link rewrite.

This project models the sequential core of both as pure functions over immutable records and proves what they promise.

| file | module | models |
|---|---|---|
| `wrappers.dfy` | `Wrappers` | `Option`, `Result`, and PHP's reading of `null` as `""` |
| `strings.dfy` | `Strings` | PHP `str_replace`/`explode`/`end`/`trim`, as `ReplaceAll`, `Explode`, `LastSegment` and `Trim`, with their characterising lemmas |
| `urls.dfy` | `Urls`, `UrlProperties` | `getBase` from a URL, `addURL` (trimming, the `../` loop, grafting), and worked examples: those of `getBase` are the URLs its comments name, those of `addURL` are chosen here |
| `naming.dfy` | `Naming` | the PHP extension allow-list and the Python MIME table |
| `headers.dfy` | `Headers` | `Rorrim_Curl::stripHeaders` and `parseHeader` |
| `assets.dfy` | `Assets` | the PHP asset graph and its lifecycle: discovery, `retrieve`, `cache`/`uncache`, `getChildren`, `getPageTitle`, `updateChildren`, `save` |
| `mirror.dfy` | `Mirror` | the Python `Site.add_asset`/`process_links` and `Asset.download`/`get_base`/`update_links`/`save` |

How the model is built:

- **The asset graph.** It is a `map<string, Asset>` keyed by the URL an asset was created with. Each asset keeps its `key` apart from its `source`, because the source becomes the post-redirect URL while the key stays the same.
- **The temporary directory and the output directory.** Both are maps from file name to contents, held in a `World` record alongside the graph.
- **Exceptions.** An operation that can throw returns a `Result` whose failures are the PHP exceptions, in the order the code raises them.
- **Library code.** Code that is not part of the core is a function-valued parameter in an `Env` record. This covers hashing, the PCRE scanners, the `<base>` and `<title>` searches, the URL-pieces pattern, and `urlsplit`/`urlunsplit`.

## Model

| member | source | states |
|---|---|---|
| Strings.ReplaceAll | Rorrim/Asset.php:336-346 | `str_replace`: an empty pattern, or text without the pattern, is returned unchanged, and a replacement no longer than the pattern never lengthens the text |
| Strings.ReplaceAllIsImplodeExplode | Rorrim/Asset.php:336-346 | for a non-empty pattern `str_replace` is `explode` on the pattern followed by `implode` with the replacement |
| Strings.Explode | Rorrim/Asset.php:113 | `explode` yields at least one piece |
| Strings.ExplodePieces | Rorrim/Asset.php:113 | no piece of `explode` holds the separator |
| Strings.ImplodeExplode | Rorrim/Asset.php:113 | `explode` loses nothing: joining its pieces with the separator gives the text back |
| Strings.LastSegment | Rorrim/Asset.php:386 | `end(explode(c, s))` is a suffix of `s` free of `c`, preceded by `c` unless it is the whole text |
| Strings.Trim | Rorrim/Asset.php:422-424 | `trim(s, cs)` is a middle slice of `s` with only `cs` characters cut on either side, and neither starts nor ends with one of them |
| Strings.TrimOf | Rorrim/Asset.php:422-424 | trimming a run of `cs` characters, a middle with neither end in `cs`, and another such run gives exactly the middle |
| Strings.TrimUntouched | Rorrim/Asset.php:422-424 | a text with neither end in `cs` is left alone by `trim` |
| Urls.UrlBase | Rorrim/Asset.php:386-408 | a URL ending in `/` is its own base; the base is a prefix of the URL plus `/`, and the part cut off holds no `/`; the base ends in `/` unless the URL is empty or its last segment is the PHP-false `"0"` |
| Urls.UrlBaseDirectoryBranchUnreachable | Rorrim/Asset.php:387-403 | a truthy last segment never ends in `/`, so the "directory" branch is dead and a URL ending in `/` takes the outer `else` |
| UrlProperties.UrlBaseOfShortUrl | Rorrim/Asset.php:386-393 | a URL with at most 8 characters before a truthy last segment (`http://host`, but also `ftp://x/y`) keeps that segment and gains a `/` |
| UrlProperties.UrlBaseOfBareHost | Rorrim/Asset.php:390-393 | `scheme://host` (at most 8 characters before the host) gets a `/` appended |
| UrlProperties.UrlBaseOfFile | Rorrim/Asset.php:395-398 | a longer URL loses exactly its last segment and keeps the `/` before it |
| UrlProperties.UrlBaseOfZeroFile | Rorrim/Asset.php:386-407 | a URL whose last segment is `"0"` is returned unchanged, because PHP reads `"0"` as false |
| UrlProperties.ExampleBareHost | Rorrim/Asset.php:389-393 | `http://example.com` has base `http://example.com/` |
| UrlProperties.ExampleFile | Rorrim/Asset.php:394-398 | `http://example.com/test.htm` has base `http://example.com/` |
| Urls.CleanRef | Rorrim/Asset.php:422-424 | the cleaned reference is no longer than the raw one, neither starts nor ends with `'`, and a reference with nothing to trim is kept as it is |
| Urls.CleanRefUnquotes | Rorrim/Asset.php:422-424 | a clean reference wrapped in any number of double quotes on each side, then in whitespace, is recovered exactly: the whitespace and every quote layer go |
| Urls.CleanRefKeepsInnerSpace | Rorrim/Asset.php:422-424 | whitespace inside the double quotes stays: `" v "` cleans to ` v ` |
| Urls.ParentOf | Rorrim/Asset.php:433-434 | one `../` step shortens a non-empty base to one of its prefixes |
| Urls.ParentOfRemovesOneSegment | Rorrim/Asset.php:431-435 | one `../` step on a `/`-terminated base with an earlier `/` removes exactly one segment without `/` and leaves the base `/`-terminated |
| Urls.ParentOfSegment | Rorrim/Asset.php:433-434 | climbing from `parent/seg/` gives `parent/` |
| Urls.Ascend | Rorrim/Asset.php:429-441 | the loop consumes exactly three characters per level climbed, and what is left does not start with `../` |
| Urls.AscendSpec | Rorrim/Asset.php:429-441 | the loop removes exactly a run of `n` leading `../`; what is left does not start with `../`; the base is the `n`-th ancestor of the original |
| Urls.HostPrefix | Rorrim/Asset.php:449 | the host prefix is a prefix of the base that holds a `/` and stops right before another `/`; a base without `/` gives the empty prefix |
| Urls.HostPrefixOfUrl | Rorrim/Asset.php:449 | on a base `scheme://host/path`, the prefix up to the slash after the host is `scheme://host` |
| Urls.Resolve | Rorrim/Asset.php:419-456 | the resolved URL ends with the cleaned reference minus its `../` run; an absolute reference is returned whole, any other one follows the host prefix of the climbed base |
| UrlProperties.ResolveAbsolute | Rorrim/Asset.php:443-446 | an `http://` or `https://` reference with nothing to trim resolves to itself |
| UrlProperties.ResolveRelative | Rorrim/Asset.php:451-454 | a plain relative reference is appended to the base |
| UrlProperties.ResolveRootRelative | Rorrim/Asset.php:447-450 | a `/`-prefixed reference is grafted onto `scheme://host` of the base |
| UrlProperties.ResolveParent | Rorrim/Asset.php:429-454 | `../ref` against `parent/seg/` resolves to `parent/ref` |
| UrlProperties.ExampleParent | Rorrim/Asset.php:429-454 | `../x.png` against `http://example.com/dir/` is `http://example.com/x.png` |
| UrlProperties.ExampleRootRelative | Rorrim/Asset.php:447-450 | `/a/b.png` against `http://example.com/dir/sub/` is `http://example.com/a/b.png` |
| Naming.Extension | Rorrim/Asset.php:113 | the extension is a dot-free suffix of the file-name piece, preceded by a `.` unless it is the whole piece |
| Naming.Destination | Rorrim/Asset.php:112-123 | the destination is `md5(source) + "."` plus a suffix from the allow-list or `html`: the extension when it is allow-listed, `html` otherwise |
| Naming.DestinationOfFileName | Rorrim/Asset.php:113-122 | `stem.ext` keeps `ext` exactly when it is in {bmp, gif, jpg, png, css, js}, case-sensitively |
| Naming.DestinationWithoutDot | Rorrim/Asset.php:112-118 | a URL whose file-name piece is missing is saved as `md5(source).html` |
| Naming.MediaType | rorrim.py:202 | the media type is the prefix of the content type before its first `;` (the whole text when there is none) |
| Naming.MediaTypeOf | rorrim.py:202 | a media type followed by nothing or by `;…` is recovered exactly |
| Naming.GetFilename | rorrim.py:199-209 | a name exists exactly when the media type is in the table; it is the hex hash of the source followed by the table's extension |
| Naming.GetFilenameIgnoresParameters | rorrim.py:200-207 | parameters after `;` do not change the file name |
| Naming.DefaultTableNames | rorrim.py:32-40 | with the default table every name ends in one of the seven listed extensions; `image/jpeg` gives `.jpg`; an unlisted type gives no name |
| Headers.SplitOnce | Rorrim/Curl.php:83 | a split is the text before the first `\r\n\r\n` and the text after it; without a separator the whole text is the header and there is no body |
| Headers.StripHeaders | Rorrim/Curl.php:79-89 | whatever body remains after the rounds is a suffix of the response, preceded by a separator |
| Headers.SplitOnceBlock | Rorrim/Curl.php:83-84 | a block with no blank line of its own is split off exactly at the separator that closes it |
| Headers.StripCompose | Rorrim/Curl.php:81-88 | on a redirect chain of `n` header blocks, `n` rounds return the last block as the header and the final body exactly |
| Headers.StripExhausted | Rorrim/Curl.php:81-85 | rounds past the last separator leave an empty header and no body |
| Headers.SplitCrlfRuns | Rorrim/Curl.php:99 | splitting always yields at least one line, and no line holds a CRLF |
| Headers.SplitCrlfRunsJoin | Rorrim/Curl.php:99 | lines without CRLF, all middle lines non-empty, joined with CRLF split back into the same lines |
| Headers.SplitField | Rorrim/Curl.php:108 | a line has a value exactly when it holds a colon; the name is a colon-free prefix of the line and the value a suffix |
| Headers.SplitFieldOf | Rorrim/Curl.php:108 | `name  :  value` splits into `name` and `value`, the whitespace around the first colon absorbed and later colons kept |
| Headers.Collect | Rorrim/Curl.php:106-110 | a name is a key of the multimap exactly when some field has it, and maps to all of that name's values in order |
| Headers.ValuesAppend | Rorrim/Curl.php:109 | a repeated header appends its value after the earlier ones |
| Headers.HeaderLines | Rorrim/Curl.php:99-104 | the first line is dropped exactly when it starts with `HTTP` |
| Headers.ParseHeader | Rorrim/Curl.php:97-111 | every header name holds at least one value, is free of `:`, and is the name split off one of the lines kept after the status line |
| Headers.ParseHeaderOfBlock | Rorrim/Curl.php:97-111 | a status line followed by field lines parses to the multimap of exactly those fields |
| Headers.ParseHeaderWithoutStatus | Rorrim/Curl.php:99-110 | without a status line every line is a field |
| Headers.ReadResponse | Rorrim/Curl.php:79-89 | the returned body is a suffix of the raw transfer, following a separator |
| Headers.ReadResponseOfChain | Rorrim/Curl.php:81-88 | after a redirect chain, the headers come from the final response only and the body is the final body |
| Assets.DiscoverOne | Rorrim/Asset.php:287-300 | one occurrence keeps every key and only appends to the page's children, at most one child |
| Assets.DiscoverOneGrows | Rorrim/Asset.php:289-300 | one occurrence replaces no registered asset, changes the page only in children and data, and registers only fresh assets |
| Assets.DiscoverOneAdds | Rorrim/Asset.php:289-300 | an accepted occurrence appends exactly its child, rewrites every copy of its text in the page, and adds a key only for a URL not yet registered |
| Assets.DiscoverOneSpec | Rorrim/Asset.php:287-300 | an occurrence is skipped, changing nothing, when its URL starts with `mailto:`, `javascript:` or `#` or is blank after `trim`; an accepted one appends exactly its child, rewrites every copy of its text in the page, and adds an asset only for a URL not yet a key; no registered asset is replaced |
| Assets.DiscoverAll | Rorrim/Asset.php:285-302 | the hits of one pattern keep every key and only append to the page's children, at most one per hit |
| Assets.DiscoverAllSpec | Rorrim/Asset.php:285-302 | the hits of one pattern append exactly one child per accepted occurrence, in order |
| Assets.DiscoverOneWf | Rorrim/Asset.php:289-297 | after one occurrence, every asset is still under its own key, every child's target is registered, and unretrieved assets are still unmoved |
| Assets.DiscoverAllWf | Rorrim/Asset.php:285-302 | the hits of one pattern keep the graph well formed |
| Assets.DiscoverRules | Rorrim/Asset.php:279-304 | running every pattern keeps every key and only appends to the page's children |
| Assets.DiscoverRulesSpec | Rorrim/Asset.php:279-304 | running every pattern keeps the graph well formed, replaces no registered asset, and only appends to the page's children |
| Assets.ChildMatchHasTarget | Rorrim/Asset.php:296 | a child's rewritten text is the occurrence's text cut at each left-to-right, non-overlapping copy of the raw URL and rejoined with the resolved URL, so it holds the resolved URL |
| Assets.IsImageOfFields | Rorrim/Asset.php:126 | an asset is an image exactly when the last `Content-Type` value received starts with `image` |
| Assets.Cache | Rorrim/Asset.php:191-199 | the payload is written to the spool under the destination name, `data` is cleared and `cached` set; no other asset and no output file changes |
| Assets.Uncache | Rorrim/Asset.php:208-216 | the payload is read back from the spool under the destination name (nothing when the file is missing), the spool file is removed and `cached` cleared; nothing else changes |
| Assets.CacheRoundTrip | Rorrim/Asset.php:191-216 | spooling and reading back restores the payload, clears `cached`, frees the spool slot and touches nothing else |
| Assets.PageBase | Rorrim/Asset.php:369-408 | an image, or a text page without a `<base>` tag or with an empty one, takes its base from its URL with the payload untouched; a text page with a tag takes the tag's URL and has every copy of the tag removed, so it never grows |
| Assets.PageBaseCutsTag | Rorrim/Asset.php:372-382 | a text page with a `<base>` tag takes the tag's URL as base and has the tag cut out |
| Assets.Receive | Rorrim/Asset.php:107-134 | the transfer sets the final URL as source, the body as payload, a name beginning with the MD5 of the final URL, and the kind from the headers; key, children, base and flags are kept |
| Assets.Settle | Rorrim/Asset.php:125-137 | after the transfer only the retrieved asset and the spool change; an image is spooled under its destination and dropped from memory |
| Assets.ExploreSpec | Rorrim/Asset.php:139-142 | automatic discovery keeps the graph well formed, replaces no asset, leaves the directories alone, and is skipped for an image |
| Assets.Retrieve | Rorrim/Asset.php:89-150 | it throws "already retrieved", a transport error or not-found, in that order; it succeeds exactly when none applies |
| Assets.RetrieveSpec | Rorrim/Asset.php:107-137 | on success the asset stays under its original key with the final URL as source, the allow-listed name, and the kind from the headers; the final URL is returned |
| Assets.RetrieveFrame | Rorrim/Asset.php:89-150 | retrieval replaces no other asset, registers only fresh ones, and leaves the output directory alone |
| Assets.RetrieveImage | Rorrim/Asset.php:125-130 | an image is in the spool with exactly the body received, not in memory, with its base from the final URL and no children discovered |
| Assets.RetrieveText | Rorrim/Asset.php:131-142 | a text page is not spooled, takes the base `getBase` derives from the page received, and gains children only by appending, and only when discovery is asked for |
| Assets.RetrieveTwice | Rorrim/Asset.php:146-149 | a retrieved asset cannot be retrieved again |
| Assets.RetrieveWf | Rorrim/Asset.php:89-150 | retrieval keeps the graph well formed |
| Assets.SettledWf | Rorrim/Asset.php:107-137 | the received and settled asset keeps its key and children and is retrieved, so the graph stays well formed |
| Assets.GetChildren | Rorrim/Asset.php:272-316 | it throws for an asset not retrieved and for a non-text one and succeeds otherwise; it replaces no registered asset, registers only fresh ones, changes the page only in children and data, only appends children, and keeps the graph well formed |
| Assets.GetPageTitle | Rorrim/Asset.php:160-183 | it throws exactly when the asset is not retrieved; a retrieved text page with a truthy title returns that title; anything but the URL is such a title |
| Assets.GetPageTitleOfRetrievedImage | Rorrim/Asset.php:125-130 | the title of an image just retrieved is its final URL |
| Assets.RelinkOne | Rorrim/Asset.php:336-346 | a child whose asset is not registered, or whose text is not in the page, leaves the page unchanged; for a registered asset and a non-empty child text, the page is cut at each copy of the child text and rejoined with that text after its asset's source is replaced by its destination |
| Assets.Relink | Rorrim/Asset.php:334-347 | children none of whose assets are registered leave the page unchanged; otherwise the children are applied by `Assets.RelinkOne` in order (`Assets.RelinkSingle`, `Assets.RelinkAppend`) |
| Assets.RelinkSingle | Rorrim/Asset.php:334-347 | a single child is relinked by `RelinkOne`; with `Assets.RelinkAppend` this fixes the result of the whole loop |
| Assets.RelinkAppend | Rorrim/Asset.php:334-347 | the children are applied one after another: relinking a list is relinking its first part and then the rest |
| Assets.RelinkUnmoved | Rorrim/Asset.php:334-347 | children whose asset still has destination equal to source leave the page unchanged |
| Assets.RelinkOneRedirected | Rorrim/Asset.php:336-346 | a child whose asset was redirected, and whose text lacks the new source, leaves the page unchanged |
| Assets.RelinkOneMoves | Rorrim/Asset.php:336-346 | a child text holding its asset's source is rewritten to hold the destination, and a page holding the child text then holds the rewritten text |
| Assets.UpdateChildren | Rorrim/Asset.php:325-359 | it throws for an asset not retrieved and for a non-text one and succeeds otherwise; on success the page is its stored text relinked child by child (`Assets.Relink`); a page without children, or none of whose children is registered, is unchanged |
| Assets.UpdateChildrenUnmoved | Rorrim/Asset.php:325-359 | a retrieved text page in a well-formed graph whose children were never retrieved is left exactly as it was |
| Assets.Save | Rorrim/Asset.php:228-261 | it throws exactly when the asset is not retrieved; on success the name is the custom one if truthy, else the old destination; the output directory gains exactly that file, holding the relinked page for text and the payload (read back from the spool if cached) otherwise; the asset keeps everything but its name, with `data` cleared and nothing cached; a cached asset's spool file is removed; no other asset changes |
| Assets.SaveLoaded | Rorrim/Asset.php:233-256 | once the payload is in memory, the custom name is taken, a text page is relinked against the renamed graph, and exactly that file is written |
| Assets.SaveAsWritten | Rorrim/Asset.php:228-261 | the literal order of `save` throws under the same condition and takes the same name; a cached asset is read back from the spool under the new name, so the file holds whatever the spool has there and that spool file is removed; otherwise the file holds the relinked page or the payload; no other asset changes |
| Assets.SaveWritesSpooled | Rorrim/Asset.php:244-252 | a spooled image is written with its spooled payload, and its spool slot is freed |
| Assets.SaveAsWrittenLosesSpooled | Rorrim/Asset.php:233-252 | with a new custom name, the literal order writes an empty file and leaves the image in the spool, whereas `Save` writes the image |
| Assets.SaveAgreesWithoutName | Rorrim/Asset.php:228-261 | without a custom name the literal order and `Save` agree |
| Assets.RetrieveThenSaveImage | Rorrim/Asset.php:244-252 | an image retrieved and then saved is written with exactly the body received |
| Assets.SaveWf | Rorrim/Asset.php:228-261 | saving keeps the graph well formed |
| Mirror.AddAsset | rorrim.py:115-122 | a known URL changes nothing; a new one is registered as a new asset, and queued exactly when asked |
| Mirror.AddAssetIdempotent | rorrim.py:115-116 | registering a URL twice equals registering it once |
| Mirror.Start | rorrim.py:67-70 | the crawl starts with only the source registered at level 1 and queued |
| Mirror.ProcessLinks | rorrim.py:124-129 | every link's URL ends up registered; no key is lost, the queue is only appended to, and the destination is kept |
| Mirror.ProcessLinksSpec | rorrim.py:124-129 | processing registers exactly the links' URLs, keeps every registered asset, creates each new one at the given level under the site's destination, and appends exactly the independently defined `Queued` to the queue |
| Mirror.ProcessLinkQueues | rorrim.py:126-129 | a link is queued exactly when its URL is new, its relation is not `anchor`, and the level is below 10 |
| Mirror.PathDir | rorrim.py:190-193 | the directory is a prefix of the path, empty or ending in `/`, and the rest holds no `/` |
| Mirror.PathDirCut | rorrim.py:190-193 | both branches agree with cutting the path after its last `/` |
| Mirror.PathDirOfName | rorrim.py:191 | a path without `/` has an empty directory |
| Mirror.WithSlash | rorrim.py:183-186 | the tag's base always ends in `/`, and a `/` is added only when missing |
| Mirror.WithSlashIdempotent | rorrim.py:183-186 | adding the slash twice equals adding it once |
| Mirror.GetBase | rorrim.py:178-197 | without a tag the page is unchanged and the base is `urlunsplit` of the split URL's scheme and host, its path cut after the last `/`, and empty query and fragment (with `allow_fragments=False`, a `#…` is not split off and stays wherever `urlsplit` leaves it); with a tag the base is its `href` with a `/` ensured, and every copy of the tag is removed from the page |
| Mirror.GetBaseCutsTag | rorrim.py:181-182 | a tag found in the page is cut out of it |
| Mirror.PathJoin | rorrim.py:175 | the joined path ends with the file name and starts with the directory unless the name is absolute |
| Mirror.Download | rorrim.py:155-176 | a retrieved asset is left alone; otherwise the response's final URL, content type, base and page are recorded; a response without `Content-Type` raises (in `get_filename`) after that, and only then; the asset becomes retrieved exactly when its media type is in the table, and then links as the file name joined onto its destination; a failed request raises and leaves the asset as it was |
| Mirror.DownloadTwice | rorrim.py:155-156 | downloading a downloaded asset again changes nothing |
| Mirror.LinkOne | rorrim.py:237-239 | a link failing the guard, or whose text is not in the page, leaves the page unchanged; a guarded link cuts the page at each copy of its text and rejoins it with that text after the raw URL is replaced by the target's `url` |
| Mirror.UpdateLinks | rorrim.py:235-239 | links all failing the guard leave the page unchanged; otherwise the links are applied by `Mirror.LinkOne` in order (`Mirror.UpdateLinksSingle`, `Mirror.UpdateLinksAppend`) |
| Mirror.UpdateLinksSingle | rorrim.py:235-239 | a single link is applied by `LinkOne` |
| Mirror.UpdateLinksAppend | rorrim.py:235-239 | the links are applied one after another: updating with a list is updating with its first part and then the rest |
| Mirror.UpdateLinksUnmoved | rorrim.py:235-239 | links whose targets still link as the raw URL the page wrote leave the page unchanged |
| Mirror.LinkOneRewrites | rorrim.py:238-239 | a guarded link whose text holds its raw URL is rewritten to the target's `url`, and the page then holds the rewritten text |
| Mirror.LinkOneToUnmoved | rorrim.py:239 | a link to a target whose `url` is still the raw URL changes nothing |
| Mirror.Save | rorrim.py:241-250 | it succeeds exactly when the asset is retrieved; it writes the page to the destination and nothing else, and writes nothing on failure |

## Left out

- HTTP transport (`Rorrim_Curl::get` and `curl_*`, `urllib2`): foreign I/O. A transfer is an input record: the error text, HTTP code, final URL, parsed headers and body. The Python response carries its `Content-Type`, body and final URL.
- File I/O (`fopen`/`fwrite`/`fread`/`unlink`, Python `open`): the temporary and output directories are maps from file name to contents. `DIRECTORY_SEPARATOR` is fixed as `/`.
- MD5 (`md5`, `hashlib.md5(..).hexdigest()`): an uninterpreted function parameter.
- The PCRE scanning patterns (`initRegEx`, `LINK_TYPES`), the URL-pieces pattern, and the `<base>` and `<title>` patterns: parameters returning their matches. The PHP `<base>` search also removes comments first; the parameter receives the page as it is.
- Python `urljoin`, `urlsplit`/`urlunsplit` and `get_links`: library calls, taken as parameters. Links arrive already resolved. `urlsplit` always returns a tuple, so the "malformed URL" branch of `get_base` is never taken and is not modelled.
- Threads, `Queue`, `worker` and `queue.join`: concurrency. The queue is the sequence of URLs put on it. The worker's re-registration of an asset under its final URL after a download is not modelled.
- `Site.update_links`/`save_assets` and the completion report: they iterate a dict in unspecified order, and the model gives the per-asset operations.
- Logging, `socket.setdefaulttimeout` and the user agent: side effects with no effect on state.
- `Asset.get_page_title` in Python: not implemented there.
- Example drivers (`Example.SinglePage.php`, `example.singlepage.py`): they only sequence calls and print.
- The undefined `$user->timeout` passed to the transfer: it only reaches the transport.
- The temporary directory property `tmpDirectory`, which is never set (the declared one is `tempDirectory`): the spool is keyed by destination name alone.
- The uninitialised `$finished` in `addURL`: taken to start false, so the loop runs.
- PHP array keys that look like integers (`"1"` becomes `1`): the graph is keyed by the URL string.
- Points where the code's behaviour is easy to misread, modelled as the code has them:
  - `trim($url, "\"")` strips every leading and trailing quote, not one layer, but whitespace the quotes enclosed stays (`Urls.CleanRefUnquotes`, `Urls.CleanRefKeepsInnerSpace`);
  - `str_replace` removes every copy of the `<base>` tag, not the first;
  - the status check is `== 200`, so any other 2xx code is "not found";
  - the `Content-Type` lookup uses that exact key, with no case folding;
  - the graph key stays the pre-redirect URL.
- The transport-error failure of `retrieve`: `Rorrim_Curl` fills its status from `curl_getinfo`, whose result has no `error` entry, so `$c->status['error']` is always empty and the exception is never thrown. `Assets.Retrieve` keeps the branch with the error text as an input, so the failure can only happen for an input the real transport never produces.
- Assets.GetChildren: states when it throws, that the graph only grows and stays well formed, and that children are only appended. The exact children appended are stated by `Assets.DiscoverAllSpec` for one pattern, not for the whole run of patterns.
- Headers.SplitCrlfRuns: its contract says the lines hold no CRLF, not where each line starts. The exact lines are stated by `Headers.SplitCrlfRunsJoin` for text built from lines.

## Findings

| source | as written | input that shows it | evidently intended | confidence | as-written member | corrected member |
|---|---|---|---|---|---|---|
| Rorrim/Asset.php:233-247 | `save` assigns a custom `$filename` to `destination` before `uncache`, and `uncache` reads the spool file named by `destination` | a retrieved image (so it is cached under `md5(url).png`) saved with `save($path, "logo.png")` | read the spooled payload back under the name it was cached with, then write it as `logo.png` | not executed | Assets.SaveAsWritten (exhibited by Assets.SaveAsWrittenLosesSpooled: an empty file is written and the image stays in the spool) | Assets.Save (with Assets.SaveWritesSpooled and Assets.RetrieveThenSaveImage: the written file is exactly the body received) |

A related behaviour is modelled as written, not corrected. At save time a child is looked up by its asset's current `source`, but the child's rewritten text holds the URL it was discovered with. A child whose asset was redirected is therefore not relinked (`Assets.RelinkOneRedirected`).

/** How a mirrored file is named: the PHP allow-list of extensions kept from
    the URL, and the Python table from MIME type to file extension. The hash
    (`md5` in PHP, `hashlib.md5(..).hexdigest()` in Python) is a parameter. */
module Naming {
  import opened Wrappers
  import opened Strings

  /** The extensions the PHP mirror keeps; anything else is saved as `.html`
      so that nothing executable is written under its remote name. */
  const AllowedExtensions: set<string> := {"bmp", "gif", "jpg", "png", "css", "js"}

  /** The text after the last `.` of the URL's file-name piece
      (`end(explode('.', piece))`); the whole piece when it has no dot. */
  function Extension(piece: string): (ext: string)
    ensures EndsWith(piece, ext)
    ensures forall i :: 0 <= i < |ext| ==> ext[i] != '.'
    ensures |ext| < |piece| ==> piece[|piece| - |ext| - 1] == '.'
  {
    LastSegment(piece, '.')
  }

  /** The destination file name `retrieve` gives an asset: the hash of its
      final URL, a dot, and the allow-listed extension or `html`. `piece` is
      the file-name group the URL-pieces pattern extracts, `None` when the
      pattern does not match (PHP then explodes `null`, whose only piece is
      empty). */
  function Destination(md5: string -> string, source: string, piece: Option<string>): (d: string)
    ensures StartsWith(d, md5(source) + ".")
    ensures d[|md5(source)| + 1..] in AllowedExtensions + {"html"}
    ensures Extension(Str(piece)) in AllowedExtensions ==> d[|md5(source)| + 1..] == Extension(Str(piece))
    ensures Extension(Str(piece)) !in AllowedExtensions ==> d[|md5(source)| + 1..] == "html"
  {
    var ext := Extension(Str(piece));
    var suffix := if ext in AllowedExtensions then ext else "html";
    assert (md5(source) + "." + suffix)[..|md5(source)| + 1] == md5(source) + ".";
    assert (md5(source) + "." + suffix)[|md5(source)| + 1..] == suffix;
    md5(source) + "." + suffix
  }

  /** For a file name `stem.ext` whose extension has no dot, the destination
      keeps `ext` exactly when it is allow-listed; the test is case-sensitive,
      so `JPG` becomes `html`. */
  lemma DestinationOfFileName(md5: string -> string, source: string, stem: string, ext: string)
    requires forall i :: 0 <= i < |ext| ==> ext[i] != '.'
    ensures Destination(md5, source, Some(stem + "." + ext))
         == md5(source) + "." + (if ext in AllowedExtensions then ext else "html")
  {
    LastSegmentAfter(stem, '.', ext);
  }

  /** A piece without a dot is its own extension; in particular a URL the
      pieces pattern does not match (`piece == None`, an empty extension) is
      saved as `.html`. */
  lemma DestinationWithoutDot(md5: string -> string, source: string, piece: Option<string>)
    requires forall i :: 0 <= i < |Str(piece)| ==> Str(piece)[i] != '.'
    ensures Destination(md5, source, piece)
         == md5(source) + "." + (if Str(piece) in AllowedExtensions then Str(piece) else "html")
    ensures piece == None ==> Destination(md5, source, piece) == md5(source) + ".html"
  {
    LastSegmentWhole(Str(piece), '.');
  }

  /** The MIME table of the Python mirror. */
  const MimeTypes: map<string, string> := map[
    "text/css" := ".css",
    "image/gif" := ".gif",
    "text/html" := ".html",
    "image/jpeg" := ".jpg",
    "application/x-javascript" := ".js",
    "image/png" := ".png",
    "text/plain" := ".txt"
  ]

  /** `content_type.split(";")[0]`: the media type without its parameters. */
  function MediaType(contentType: string): (key: string)
    ensures StartsWith(contentType, key)
    ensures forall i :: 0 <= i < |key| ==> key[i] != ';'
    ensures |key| < |contentType| ==> contentType[|key|] == ';'
  {
    var f := FindFrom(contentType, ";", 0);
    if f.Some? then
      var k := f.value;
      NoCharBefore(contentType, ';', k);
      assert contentType[k..k + 1] == ";";
      contentType[..k]
    else
      NoCharBefore(contentType, ';', |contentType|);
      contentType
  }

  /** `get_filename`: the hex hash of the source followed by the extension
      the MIME table gives for the media type, or nothing (Python `False`)
      when the media type is not in the table. */
  function GetFilename(mimeTypes: map<string, string>, md5hex: string -> string,
                       contentType: string, source: string): (r: Option<string>)
    ensures r.Some? <==> MediaType(contentType) in mimeTypes
    ensures r.Some? ==> StartsWith(r.value, md5hex(source))
    ensures r.Some? ==> r.value[|md5hex(source)|..] == mimeTypes[MediaType(contentType)]
  {
    var key := MediaType(contentType);
    if key in mimeTypes then
      var name := md5hex(source) + mimeTypes[key];
      assert name[..|md5hex(source)|] == md5hex(source);
      Some(name)
    else None
  }

  /** A media type followed by nothing or by `;` is its own key. */
  lemma MediaTypeOf(mediaType: string, rest: string)
    requires forall i :: 0 <= i < |mediaType| ==> mediaType[i] != ';'
    requires rest == "" || rest[0] == ';'
    ensures MediaType(mediaType + rest) == mediaType
  {
    var ct := mediaType + rest;
    forall j | 0 <= j < |mediaType| ensures !MatchAt(ct, ";", j) {
      assert ct[j..j + 1] == [mediaType[j]];
    }
    if rest == "" {
      assert ct == mediaType;
      forall j | |mediaType| <= j ensures !MatchAt(ct, ";", j) {
      }
      assert FindFrom(ct, ";", 0).None?;
    } else {
      assert ct[|mediaType|..|mediaType| + 1] == ";";
      FindFromIs(ct, ";", 0, |mediaType|);
      assert ct[..|mediaType|] == mediaType;
    }
  }

  /** Parameters after `;` (a charset, say) do not change the file name. */
  lemma GetFilenameIgnoresParameters(mimeTypes: map<string, string>, md5hex: string -> string,
                                     mediaType: string, params: string, source: string)
    requires forall i :: 0 <= i < |mediaType| ==> mediaType[i] != ';'
    ensures GetFilename(mimeTypes, md5hex, mediaType + ";" + params, source)
         == GetFilename(mimeTypes, md5hex, mediaType, source)
  {
    MediaTypeOf(mediaType, ";" + params);
    assert mediaType + ";" + params == mediaType + (";" + params);
    MediaTypeOf(mediaType, "");
    assert mediaType + "" == mediaType;
  }

  /** With the default table, a recognised page is named with one of its
      seven extensions, and an unknown media type gets no name. */
  lemma DefaultTableNames(md5hex: string -> string, contentType: string, source: string)
    ensures var r := GetFilename(MimeTypes, md5hex, contentType, source);
      && (r.Some? ==> r.value[|md5hex(source)|..] in {".css", ".gif", ".html", ".jpg", ".js", ".png", ".txt"})
      && (MediaType(contentType) == "image/jpeg" ==> r == Some(md5hex(source) + ".jpg"))
      && (MediaType(contentType) == "image/webp" ==> r.None?)
  {
  }
}

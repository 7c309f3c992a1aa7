/** The cURL wrapper's response handling: the raw transfer holds one header
    block per response in a redirect chain, each closed by an empty line
    (CRLF CRLF, section 3 of RFC 7230), and then the final body.
    `stripHeaders` peels `redirect_count + 1` blocks off the front and
    `parseHeader` turns the last one into a multimap from field name to the
    values seen, in order. */
module Headers {
  import opened Wrappers
  import opened Strings

  const Crlf := "\r\n"

  /** An empty line: the end of a header block. */
  const Separator := "\r\n\r\n"

  /** A header block together with what follows its separator; `body` is
      `None` when PHP's `preg_split` found no separator (index 1 of its
      result is then unset, read as `null`). */
  datatype Stripped = Stripped(header: string, body: Option<string>)

  /** `preg_split("/(\r\n){2,2}/", s, 2)`: split at the first separator. */
  function SplitOnce(s: string): (r: Stripped)
    ensures r.body.None? ==> r.header == s && !Contains(s, Separator)
    ensures r.body.Some? ==> s == r.header + Separator + r.body.value
    ensures r.body.Some? ==> forall j :: 0 <= j < |r.header| ==> !MatchAt(s, Separator, j)
  {
    var f := FindFrom(s, Separator, 0);
    if f.Some? then
      var i := f.value;
      assert s == s[..i] + s[i..i + 4] + s[i + 4..];
      Stripped(s[..i], Some(s[i + 4..]))
    else
      Stripped(s, None)
  }

  /** A suffix of what follows the separator is a suffix of the whole. */
  lemma EndsWithAfter(s: string, sp: Stripped, body: Option<string>)
    requires sp == SplitOnce(s)
    requires body.Some? ==> sp.body.Some? && EndsWith(sp.body.value, Separator + body.value)
    ensures body.Some? ==> EndsWith(s, Separator + body.value)
  {
    if body.Some? {
      EndsWithConcat(sp.header + Separator, sp.body.value, Separator + body.value);
    }
  }

  /** `stripHeaders` run for `rounds` (that is `redirect_count + 1`) rounds:
      each round splits what the previous one left over, a missing remainder
      being split as the empty string. The header kept is the one split off
      last. */
  function StripHeaders(response: Option<string>, rounds: nat): (r: Stripped)
    requires rounds >= 1
    decreases rounds
    ensures r.body.Some? ==> response.Some? && EndsWith(response.value, Separator + r.body.value)
  {
    var sp := SplitOnce(Str(response));
    if rounds == 1 then sp
    else
      var r := StripHeaders(sp.body, rounds - 1);
      EndsWithAfter(Str(response), sp, r.body);
      r
  }

  /** The separator appended to `block` is the first one in the result:
      `block` holds no empty line and does not end part-way into one. */
  predicate EndsAtFirstBlank(block: string) {
    forall j :: 0 <= j < |block| ==> !MatchAt(block + Separator, Separator, j)
  }

  /** A redirect chain as sent: each header block and its separator, then
      the body. */
  function Compose(blocks: seq<string>, body: string): string
    decreases |blocks|
  {
    if |blocks| == 0 then body else blocks[0] + Separator + Compose(blocks[1..], body)
  }

  /** The first separator after a well-formed block is the one closing it. */
  lemma SplitOnceBlock(block: string, rest: string)
    requires EndsAtFirstBlank(block)
    ensures SplitOnce(block + Separator + rest) == Stripped(block, Some(rest))
  {
    var s := block + Separator + rest;
    assert s == (block + Separator) + rest;
    forall j | 0 <= j < |block| ensures !MatchAt(s, Separator, j) {
      MatchAtExtend(block + Separator, rest, Separator, j);
    }
    assert s[|block|..|block| + 4] == Separator;
    FindFromIs(s, Separator, 0, |block|);
    assert s[..|block|] == block;
    assert s[|block| + 4..] == rest;
  }

  /** Stripping as many rounds as there are blocks returns the last block as
      the header and exactly the body, whatever the body contains. */
  lemma {:induction false} StripCompose(blocks: seq<string>, body: string)
    requires |blocks| >= 1
    requires forall i :: 0 <= i < |blocks| ==> EndsAtFirstBlank(blocks[i])
    decreases |blocks|
    ensures StripHeaders(Some(Compose(blocks, body)), |blocks|) == Stripped(blocks[|blocks| - 1], Some(body))
  {
    var rest := Compose(blocks[1..], body);
    assert Compose(blocks, body) == blocks[0] + Separator + rest;
    SplitOnceBlock(blocks[0], rest);
    if |blocks| > 1 {
      StripCompose(blocks[1..], body);
    }
  }

  /** Rounds beyond the last separator leave an empty header and no body. */
  lemma {:induction false} StripExhausted(rounds: nat)
    requires rounds >= 1
    decreases rounds
    ensures StripHeaders(None, rounds) == Stripped("", None)
  {
    assert !MatchAt("", Separator, 0);
    assert SplitOnce("") == Stripped("", None);
    if rounds > 1 {
      StripExhausted(rounds - 1);
    }
  }

  /** Drop a run of CRLF pairs from the front. */
  function SkipCrlf(s: string): (r: string)
    decreases |s|
    ensures |r| <= |s|
  {
    if StartsWith(s, Crlf) then SkipCrlf(s[2..]) else s
  }

  /** `preg_split("/(\r\n)+/", s)`: the pieces between maximal runs of CRLF
      pairs, keeping empty pieces at either end. */
  function SplitCrlfRuns(s: string): (lines: seq<string>)
    decreases |s|
    ensures |lines| >= 1
    ensures forall k :: 0 <= k < |lines| ==> !Contains(lines[k], Crlf)
  {
    var f := FindFrom(s, Crlf, 0);
    if f.Some? then
      NoMatchBefore(s, Crlf, f.value);
      var rest := SplitCrlfRuns(SkipCrlf(s[f.value + 2..]));
      assert forall k :: 1 <= k < |rest| + 1 ==> ([s[..f.value]] + rest)[k] == rest[k - 1];
      [s[..f.value]] + rest
    else
      assert s[..|s|] == s;
      NoMatchBefore(s, Crlf, |s|);
      [s]
  }

  /** Lines that survive a join with CRLF and a split on CRLF runs: none
      holds a CRLF, and only the first and the last may be empty (an empty
      line in the middle would merge two runs). */
  predicate Joinable(lines: seq<string>) {
    && (forall i :: 0 <= i < |lines| ==> !Contains(lines[i], Crlf))
    && (forall i :: 0 < i < |lines| - 1 ==> lines[i] != "")
  }

  /** After a line without CRLF, the first CRLF is the appended one. */
  lemma FirstCrlfAfter(line: string, rest: string)
    requires !Contains(line, Crlf)
    ensures FindFrom(line + Crlf + rest, Crlf, 0) == Some(|line|)
  {
    var s := line + Crlf + rest;
    forall j | 0 <= j < |line| ensures !MatchAt(s, Crlf, j) {
      if j + 2 <= |line| {
        assert s[j..j + 2] == line[j..j + 2];
        assert !MatchAt(line, Crlf, j);
      } else {
        assert s[j + 1] == '\r';
        assert s[j..j + 2][1] == s[j + 1];
      }
    }
    assert s[|line|..|line| + 2] == Crlf;
    FindFromIs(s, Crlf, 0, |line|);
  }

  /** A non-empty text that does not start with CRLF, followed by a CR,
      does not start with CRLF. */
  lemma NoCrlfBefore(l: string, rest: string)
    requires |l| >= 1 && !MatchAt(l, Crlf, 0)
    requires |rest| >= 1 && rest[0] == '\r'
    ensures !StartsWith(l + rest, Crlf)
  {
    var u := l + rest;
    if |l| >= 2 {
      assert u[..2] == l[..2];
    } else {
      assert u[1] == rest[0];
    }
  }

  /** Joined lines do not start with a CRLF. */
  lemma JoinedStart(lines: seq<string>)
    requires |lines| >= 1 && Joinable(lines)
    requires |lines| > 1 ==> lines[0] != ""
    ensures !StartsWith(Implode(lines, Crlf), Crlf)
  {
    var l := lines[0];
    assert !MatchAt(l, Crlf, 0);
    if |lines| > 1 {
      var j := Implode(lines[1..], Crlf);
      assert Implode(lines, Crlf) == l + (Crlf + j);
      NoCrlfBefore(l, Crlf + j);
    } else {
      assert Implode(lines, Crlf) == l;
      assert !StartsWith(l, Crlf);
    }
  }

  /** Splitting lines joined with CRLF gives the lines back. */
  lemma {:induction false} SplitCrlfRunsJoin(lines: seq<string>)
    requires |lines| >= 1 && Joinable(lines)
    decreases |lines|
    ensures SplitCrlfRuns(Implode(lines, Crlf)) == lines
  {
    var s := Implode(lines, Crlf);
    var l := lines[0];
    if |lines| == 1 {
      assert s == l;
      var f := FindFrom(s, Crlf, 0);
      assert f.Some? ==> MatchAt(l, Crlf, f.value);
    } else {
      var rest := lines[1..];
      var j := Implode(rest, Crlf);
      assert s == l + Crlf + j;
      FirstCrlfAfter(l, j);
      assert s[..|l|] == l;
      assert s[|l| + 2..] == j;
      assert Joinable(rest);
      JoinedStart(rest);
      assert SkipCrlf(j) == j;
      SplitCrlfRunsJoin(rest);
      assert SplitCrlfRuns(s) == [l] + rest;
    }
  }

  /** A header line split at its first colon, the whitespace around the
      colon absorbed; `value` is `None` for a line without a colon. */
  datatype Field = Field(name: string, value: Option<string>)

  /** Splitting at the pattern `\s*:\s*` with a limit of two pieces. The leftmost match of the pattern
      starts at the whitespace run just before the first colon, so the name
      is the text before that colon right-trimmed and the value the text
      after it left-trimmed. */
  function SplitField(line: string): (f: Field)
    ensures f.value.None? <==> !Contains(line, ":")
    ensures f.value.None? ==> f.name == line
    ensures f.value.Some? ==> StartsWith(line, f.name) && EndsWith(line, f.value.value)
    ensures forall i :: 0 <= i < |f.name| ==> f.name[i] != ':'
  {
    var c := FindFrom(line, ":", 0);
    if c.Some? then
      var k := c.value;
      NoCharBefore(line, ':', k);
      TrimRightSpec(line[..k], PcreSpace);
      TrimLeftSpec(line[k + 1..], PcreSpace);
      var name := TrimRight(line[..k], PcreSpace);
      var value := TrimLeft(line[k + 1..], PcreSpace);
      assert line[..|name|] == name;
      assert line[|line| - |value|..] == value;
      Field(name, Some(value))
    else
      NoCharBefore(line, ':', |line|);
      Field(line, None)
  }

  /** `SplitField` at the first colon, at `k`. */
  lemma SplitFieldAt(line: string, k: nat)
    requires FindFrom(line, ":", 0) == Some(k)
    ensures SplitField(line) == Field(TrimRight(line[..k], PcreSpace), Some(TrimLeft(line[k + 1..], PcreSpace)))
  {
  }

  /** Whitespace around the colon is absorbed and the value keeps any later
      colons: `name g1 : g2 value` splits into `name` and `value`. */
  lemma SplitFieldOf(name: string, g1: string, g2: string, value: string)
    requires forall i :: 0 <= i < |name| ==> name[i] != ':'
    requires |name| > 0 ==> name[|name| - 1] !in PcreSpace
    requires forall i :: 0 <= i < |g1| ==> g1[i] in PcreSpace
    requires forall i :: 0 <= i < |g2| ==> g2[i] in PcreSpace
    requires |value| > 0 ==> value[0] !in PcreSpace
    ensures SplitField(name + g1 + ":" + g2 + value) == Field(name, Some(value))
  {
    var line := name + g1 + ":" + g2 + value;
    var k := |name| + |g1|;
    assert FindFrom(line, ":", 0) == Some(k) by {
      forall j | 0 <= j < k ensures !MatchAt(line, ":", j) {
        assert line[j..j + 1] == [line[j]];
        if j >= |name| {
          assert line[j] == g1[j - |name|];
        }
      }
      assert line[k..k + 1] == ":";
      FindFromIs(line, ":", 0, k);
    }
    assert line[..k] == name + g1;
    assert line[k + 1..] == g2 + value;
    calc {
      SplitField(line);
    == { SplitFieldAt(line, k); }
      Field(TrimRight(name + g1, PcreSpace), Some(TrimLeft(g2 + value, PcreSpace)));
    == { TrimRightPadded(name, g1, PcreSpace); TrimLeftPadded(g2, value, PcreSpace); }
      Field(name, Some(value));
    }
  }

  /** The parsed headers: every value received for a name, in order. */
  type HeaderMap = map<string, seq<Option<string>>>

  /** The values of the fields called `name`, in order: the reference the
      multimap is checked against. */
  function Values(fields: seq<Field>, name: string): seq<Option<string>>
    decreases |fields|
  {
    if |fields| == 0 then []
    else Values(fields[..|fields| - 1], name)
         + (if fields[|fields| - 1].name == name then [fields[|fields| - 1].value] else [])
  }

  /** `$this->headers[$name][] = $value`. */
  function Append(m: HeaderMap, f: Field): HeaderMap {
    m[f.name := (if f.name in m then m[f.name] else []) + [f.value]]
  }

  /** The multimap built field by field: a name is a key exactly when some
      field carries it, and maps to all of that name's values in order. */
  function Collect(fields: seq<Field>): (m: HeaderMap)
    decreases |fields|
    ensures forall name :: name in m <==> Values(fields, name) != []
    ensures forall name :: name in m ==> m[name] == Values(fields, name)
  {
    if |fields| == 0 then map[]
    else Append(Collect(fields[..|fields| - 1]), fields[|fields| - 1])
  }

  /** The multimap at one name. */
  lemma CollectAt(fields: seq<Field>, name: string)
    ensures name in Collect(fields) <==> Values(fields, name) != []
    ensures name in Collect(fields) ==> Collect(fields)[name] == Values(fields, name)
  {
  }

  /** A repeated header keeps every value, the earlier ones first. */
  lemma ValuesAppend(fields: seq<Field>, f: Field, name: string)
    ensures Values(fields + [f], name)
         == Values(fields, name) + (if f.name == name then [f.value] else [])
  {
    assert (fields + [f])[..|fields|] == fields;
  }

  /** A name with a value in `Values` is the name of one of the fields. */
  lemma {:induction false} ValuesHaveField(fields: seq<Field>, name: string)
    requires Values(fields, name) != []
    decreases |fields|
    ensures exists i :: 0 <= i < |fields| && fields[i].name == name
  {
    var n := |fields| - 1;
    if fields[n].name != name {
      ValuesHaveField(fields[..n], name);
      var i :| 0 <= i < n && fields[..n][i].name == name;
      assert fields[i].name == name;
    }
  }

  /** `parseHeader`: split the block on CRLF runs, drop the status line
      (a first line starting with `HTTP`), split each remaining line into a
      field and collect the fields. Every key is the colon-free name of one
      of the remaining lines and holds at least one value. */
  function ParseHeader(header: string): (m: HeaderMap)
    ensures forall name :: name in m ==> m[name] != []
    ensures forall name :: name in m ==> forall i :: 0 <= i < |name| ==> name[i] != ':'
    ensures forall name :: name in m ==>
      exists i :: 0 <= i < |HeaderLines(header)| && SplitField(HeaderLines(header)[i]).name == name
  {
    var fields := Fields(HeaderLines(header));
    var m := Collect(fields);
    forall name | name in m
      ensures exists i :: 0 <= i < |HeaderLines(header)| && SplitField(HeaderLines(header)[i]).name == name
    {
      ValuesHaveField(fields, name);
    }
    m
  }

  /** The lines of a header block after the status line is dropped. */
  function HeaderLines(header: string): (lines: seq<string>)
    ensures var all := SplitCrlfRuns(header);
      && (StartsWith(all[0], "HTTP") ==> lines == all[1..])
      && (!StartsWith(all[0], "HTTP") ==> lines == all)
  {
    var all := SplitCrlfRuns(header);
    if StartsWith(all[0], "HTTP") then all[1..] else all
  }

  function Fields(lines: seq<string>): (fields: seq<Field>)
    ensures |fields| == |lines|
    ensures forall i :: 0 <= i < |lines| ==> fields[i] == SplitField(lines[i])
  {
    seq(|lines|, i requires 0 <= i < |lines| => SplitField(lines[i]))
  }

  /** A block written as a status line and field lines parses to exactly
      the collected fields of those lines. */
  lemma ParseHeaderOfBlock(status: string, lines: seq<string>)
    requires StartsWith(status, "HTTP")
    requires Joinable([status] + lines)
    ensures ParseHeader(Implode([status] + lines, Crlf)) == Collect(Fields(lines))
  {
    SplitCrlfRunsJoin([status] + lines);
    assert ([status] + lines)[1..] == lines;
  }

  /** Without a status line every line is a field. */
  lemma ParseHeaderWithoutStatus(lines: seq<string>)
    requires |lines| >= 1 && Joinable(lines)
    requires !StartsWith(lines[0], "HTTP")
    ensures ParseHeader(Implode(lines, Crlf)) == Collect(Fields(lines))
  {
    SplitCrlfRunsJoin(lines);
  }

  /** What the wrapper hands back for one transfer: the final response's
      headers and its body. */
  datatype Response = Response(headers: HeaderMap, body: Option<string>)

  /** `get` after the transfer: strip `redirectCount + 1` blocks and parse
      the last. */
  function ReadResponse(raw: Option<string>, redirectCount: nat): (r: Response)
    ensures r.body.Some? ==> raw.Some? && EndsWith(raw.value, Separator + r.body.value)
  {
    var st := StripHeaders(raw, redirectCount + 1);
    Response(ParseHeader(st.header), st.body)
  }

  /** Headers come from the final response of a redirect chain only. */
  lemma ReadResponseOfChain(blocks: seq<string>, body: string)
    requires |blocks| >= 1
    requires forall i :: 0 <= i < |blocks| ==> EndsAtFirstBlank(blocks[i])
    ensures ReadResponse(Some(Compose(blocks, body)), |blocks| - 1)
         == Response(ParseHeader(blocks[|blocks| - 1]), Some(body))
  {
    StripCompose(blocks, body);
  }
}

/** The v2rayN subscription format: a share link is a prefix and the base64 of a JSON object, a subscription is the
    base64 of the links, one a line. */
module Subscription {
  import opened Kube
  import opened Base64
  import Utf8
  import Json

  /** A share link is a map from strings to values; a nil map prints as `null` and is read back as one. */
  type Link = v: Json.Value | v.Null? || v.Obj? witness Json.Null

  const PREFIX: Bytes := [118, 109, 101, 115, 115, 58, 47, 47]

  function ToLink(link: Link): Bytes {
    PREFIX + Encode(Utf8.Encode(Json.Print(link) + "\n"))
  }

  /** json.Unmarshal into a map. */
  function Unmarshal(data: Bytes): Option<Link> {
    match Json.Parse(Utf8.Decode(data))
    case None => None
    case Some(v) => if v.Null? || v.Obj? then Some(v) else None
  }

  function FromLink(link: Bytes): Option<Link> {
    if !(PREFIX <= link) then None
    else
      match Decode(link[|PREFIX|..])
      case None => None
      case Some(data) => Unmarshal(data)
  }

  function Body(links: seq<Link>): Bytes {
    if links == [] then [] else ToLink(links[0]) + [NEWLINE] + Body(links[1..])
  }

  lemma Regroup(a: Bytes, b: Bytes, c: Bytes, d: Bytes)
    ensures a + (b + c + d) == a + b + c + d
  {
  }

  method ToSubscription(links: seq<Link>) returns (content: Bytes)
    ensures content == Encode(Body(links))
  {
    var text: Bytes := [];
    for i := 0 to |links|
      invariant text + Body(links[i..]) == Body(links)
    {
      assert links[i..][1..] == links[i + 1..];
      var line := ToLink(links[i]);
      Regroup(text, line, [NEWLINE], Body(links[i + 1..]));
      text := text + line;
      text := text + [NEWLINE];
    }
    assert text + [] == text;
    content := Encode(text);
  }

  /** The pieces between newlines; always at least one. */
  function Split(text: Bytes): (lines: seq<Bytes>)
    ensures lines != []
  {
    if text == [] then [[]]
    else
      var rest := Split(text[1..]);
      if text[0] == NEWLINE then [[]] + rest else [[text[0]] + rest[0]] + rest[1..]
  }

  /** The links of the non-empty lines, or nothing if one of them is not a link. */
  function ReadLines(lines: seq<Bytes>): Option<seq<Link>> {
    if lines == [] then Some([])
    else if lines[0] == [] then ReadLines(lines[1..])
    else
      var first := FromLink(lines[0]);
      if first.None? then None
      else
        var rest := ReadLines(lines[1..]);
        if rest.None? then None else Some([first.value] + rest.value)
  }

  function ReadBody(text: Bytes): Option<seq<Link>> {
    ReadLines(Split(text))
  }

  function ReadContent(content: Bytes): Option<seq<Link>> {
    match Decode(content)
    case None => None
    case Some(data) => ReadBody(data)
  }

  method FromSubscription(content: Bytes) returns (links: Option<seq<Link>>)
    ensures links == ReadContent(content)
  {
    var data := Decode(content);
    if data.None? {
      return None;
    }
    var lines := Split(data.value);
    var ret: seq<Link> := [];
    assert lines[0..] == lines && forall t: seq<Link> :: ret + t == t;
    for i := 0 to |lines|
      invariant var rest := ReadLines(lines[i..]);
                ReadLines(lines) == if rest.None? then None else Some(ret + rest.value)
    {
      var line := lines[i];
      assert lines[i..][1..] == lines[i + 1..];
      if line == [] {
        continue;
      }
      var link := FromLink(line);
      if link.None? {
        return None;
      }
      ghost var rest := ReadLines(lines[i + 1..]);
      assert rest.Some? ==> ret + ([link.value] + rest.value) == (ret + [link.value]) + rest.value;
      ret := ret + [link.value];
    }
    assert lines[|lines|..] == [] && ret + [] == ret;
    return Some(ret);
  }

  // --- round trips ---

  /** Reading a printed link gives the link with the ill-formed bytes of its strings replaced, hence the link itself
      exactly when its strings are well-formed UTF-8. */
  lemma LinkRoundTrip(link: Link)
    ensures FromLink(ToLink(link)) == Some(Json.Clean(link))
    ensures FromLink(ToLink(link)) == Some(link) <==> Json.IsText(link)
  {
    var text := Json.Print(link) + "\n";
    Json.ParsePrint(link);
    Json.CleanIff(link);
    Utf8.DecodeEncode(text);
    DecodeEncode(Utf8.Encode(text));
    assert ToLink(link)[|PREFIX|..] == Encode(Utf8.Encode(text));
  }

  /** A printed link is one non-empty line. */
  lemma LinkIsOneLine(link: Link)
    ensures ToLink(link) != []
    ensures forall c | c in ToLink(link) :: c != NEWLINE
  {
    EncodeShape(Utf8.Encode(Json.Print(link) + "\n"));
  }

  /** A character put before the first line. */
  function Headed(c: byte, lines: seq<Bytes>): seq<Bytes>
    requires lines != []
  {
    if c == NEWLINE then [[]] + lines else [[c] + lines[0]] + lines[1..]
  }

  lemma HeadedConcat(c: byte, lines: seq<Bytes>, more: seq<Bytes>)
    requires lines != []
    ensures Headed(c, lines + more) == Headed(c, lines) + more
  {
  }

  lemma SplitHead(text: Bytes)
    requires text != []
    ensures Split(text) == Headed(text[0], Split(text[1..]))
  {
  }

  /** Splitting at a line break. */
  lemma {:induction false} SplitConcat(a: Bytes, b: Bytes)
    ensures Split(a + [NEWLINE] + b) == Split(a) + Split(b)
  {
    var text := a + [NEWLINE] + b;
    SplitHead(text);
    if a == [] {
      assert text[1..] == b;
    } else {
      assert text[1..] == a[1..] + [NEWLINE] + b;
      SplitConcat(a[1..], b);
      SplitHead(a);
      HeadedConcat(a[0], Split(a[1..]), Split(b));
    }
  }

  lemma {:induction false} SplitNothing(line: Bytes)
    requires forall c | c in line :: c != NEWLINE
    ensures Split(line) == [line]
  {
    if line != [] {
      assert line[0] in line && forall c | c in line[1..] :: c in line;
      SplitNothing(line[1..]);
      SplitHead(line);
      assert line == [line[0]] + line[1..];
    }
  }

  function CleanLinks(links: seq<Link>): seq<Link> {
    if links == [] then [] else [Json.Clean(links[0])] + CleanLinks(links[1..])
  }

  predicate AllText(links: seq<Link>) {
    forall link | link in links :: Json.IsText(link)
  }

  lemma AllTextOneMore(links: seq<Link>)
    requires links != []
    ensures AllText(links) <==> Json.IsText(links[0]) && AllText(links[1..])
    ensures [links[0]] + links[1..] == links
  {
    assert forall link :: link in links <==> link == links[0] || link in links[1..];
  }

  lemma {:induction false} CleanLinksIff(links: seq<Link>)
    ensures CleanLinks(links) == links <==> AllText(links)
  {
    if links != [] {
      Json.CleanIff(links[0]);
      CleanLinksIff(links[1..]);
      assert CleanLinks(links)[1..] == CleanLinks(links[1..]);
      AllTextOneMore(links);
    }
  }

  lemma {:induction false} ReadPrintedBody(links: seq<Link>)
    ensures ReadBody(Body(links)) == Some(CleanLinks(links))
  {
    if links == [] {
      assert Split([]) == [[]];
      assert ReadLines([[]]) == ReadLines([]);
    } else {
      LinkIsOneLine(links[0]);
      SplitNothing(ToLink(links[0]));
      SplitConcat(ToLink(links[0]), Body(links[1..]));
      LinkRoundTrip(links[0]);
      ReadPrintedBody(links[1..]);
      assert Split(Body(links))[1..] == Split(Body(links[1..]));
    }
  }

  /** The subscription law: for every list of links, reading the printed subscription returns one link per link, in the
      same order, with ill-formed bytes replaced; the list itself comes back exactly when every string in it is
      well-formed UTF-8. */
  lemma {:induction false} SubscriptionRoundTrip(links: seq<Link>)
    ensures ReadContent(Encode(Body(links))) == Some(CleanLinks(links))
    ensures ReadContent(Encode(Body(links))) == Some(links) <==> AllText(links)
  {
    DecodeEncode(Body(links));
    ReadPrintedBody(links);
    CleanLinksIff(links);
  }

  /** Lists with the same subscription are read back alike, so different lists of well-formed links have different
      subscriptions. */
  lemma {:induction false} SubscriptionInjective(a: seq<Link>, b: seq<Link>)
    requires Encode(Body(a)) == Encode(Body(b))
    ensures CleanLinks(a) == CleanLinks(b)
    ensures AllText(a) && AllText(b) ==> a == b
  {
    SubscriptionRoundTrip(a);
    SubscriptionRoundTrip(b);
  }

  // --- reading is all-or-nothing and compositional ---

  function NonEmpty(lines: seq<Bytes>): seq<Bytes> {
    if lines == [] then []
    else (if lines[0] == [] then [] else [lines[0]]) + NonEmpty(lines[1..])
  }

  lemma {:induction false} ReadLinesAll(lines: seq<Bytes>)
    ensures ReadLines(lines).Some? <==> forall line | line in lines :: line == [] || FromLink(line).Some?
  {
    if lines != [] {
      ReadLinesAll(lines[1..]);
      assert forall line :: line in lines <==> line == lines[0] || line in lines[1..];
    }
  }

  lemma {:induction false} ReadLinesEach(lines: seq<Bytes>, i: nat)
    requires ReadLines(lines).Some?
    ensures |ReadLines(lines).value| == |NonEmpty(lines)|
    ensures i < |NonEmpty(lines)| ==> Some(ReadLines(lines).value[i]) == FromLink(NonEmpty(lines)[i])
  {
    if lines != [] {
      var line, rest := lines[0], lines[1..];
      if line == [] {
        ReadLinesEach(rest, i);
      } else {
        ReadLinesEach(rest, if i == 0 then 0 else i - 1);
        var links := ReadLines(rest).value;
        ReadLinesHead(lines);
        assert ReadLines(lines).value[1..] == links && NonEmpty(lines)[1..] == NonEmpty(rest);
      }
    }
  }

  lemma ReadLinesHead(lines: seq<Bytes>)
    requires lines != [] && lines[0] != [] && ReadLines(lines).Some?
    ensures FromLink(lines[0]).Some? && ReadLines(lines[1..]).Some?
    ensures ReadLines(lines).value == [FromLink(lines[0]).value] + ReadLines(lines[1..]).value
    ensures NonEmpty(lines) == [lines[0]] + NonEmpty(lines[1..])
  {
  }

  /** Reading succeeds exactly when every non-empty line is a link, and then gives one link per such line, in order. */
  lemma {:induction false} ReadLinesExact(lines: seq<Bytes>)
    ensures ReadLines(lines).Some? <==> forall line | line in lines :: line == [] || FromLink(line).Some?
    ensures ReadLines(lines).Some? ==>
              && |ReadLines(lines).value| == |NonEmpty(lines)|
              && forall i | 0 <= i < |NonEmpty(lines)| ::
                   Some(ReadLines(lines).value[i]) == FromLink(NonEmpty(lines)[i])
  {
    ReadLinesAll(lines);
    if ReadLines(lines).Some? {
      ReadLinesEach(lines, 0);
      forall i | 0 <= i < |NonEmpty(lines)|
        ensures Some(ReadLines(lines).value[i]) == FromLink(NonEmpty(lines)[i])
      {
        ReadLinesEach(lines, i);
      }
    }
  }

  lemma {:induction false} ReadLinesConcat(a: seq<Bytes>, b: seq<Bytes>)
    ensures ReadLines(a + b) ==
            if ReadLines(a).None? || ReadLines(b).None? then None
            else Some(ReadLines(a).value + ReadLines(b).value)
  {
    if a == [] {
      assert a + b == b;
      assert ReadLines(b).Some? ==> [] + ReadLines(b).value == ReadLines(b).value;
    } else {
      assert (a + b)[1..] == a[1..] + b;
      ReadLinesConcat(a[1..], b);
      if FromLink(a[0]).Some? && ReadLines(a[1..]).Some? && ReadLines(b).Some? {
        var x, y, z := [FromLink(a[0]).value], ReadLines(a[1..]).value, ReadLines(b).value;
        assert x + (y + z) == (x + y) + z;
      }
    }
  }

  /** The reading of two bodies joined at a line break is the two readings joined; a body that ends in a line break
      reads like the body without it, and blank lines add nothing. */
  lemma ReadBodyConcat(a: Bytes, b: Bytes)
    ensures ReadBody(a + [NEWLINE] + b) ==
            if ReadBody(a).None? || ReadBody(b).None? then None
            else Some(ReadBody(a).value + ReadBody(b).value)
    ensures ReadBody(a + [NEWLINE]) == ReadBody(a)
    ensures ReadBody((a + [NEWLINE]) + [NEWLINE] + b) == ReadBody(a + [NEWLINE] + b)
  {
    SplitConcat(a, b);
    ReadLinesConcat(Split(a), Split(b));
    SplitConcat(a, []);
    assert a + [NEWLINE] + [] == a + [NEWLINE];
    assert Split([]) == [[]];
    assert ReadLines([[]]) == ReadLines([]) == Some([]);
    ReadLinesConcat(Split(a), [[]]);
    assert ReadLines(Split(a)).Some? ==> ReadLines(Split(a)).value + [] == ReadLines(Split(a)).value;
    SplitConcat(a + [NEWLINE], b);
    ReadLinesConcat(Split(a + [NEWLINE]), Split(b));
  }

  // --- links made from inbounds ---

  datatype Client = Client(id: string, alterId: int)

  /** The path is missing when there are no websocket settings. */
  datatype Stream = Stream(network: string, security: string, wsPath: Option<string>)

  datatype Inbound = Inbound(tag: string, port: int, protocol: string, clients: seq<Client>, stream: Option<Stream>)

  const DEFAULT_DOMAIN := "external.hdcjh.xyz"

  lemma NamesStayDistinct()
    ensures forall a, b | Utf8.Encode(a) == Utf8.Encode(b) :: a == b
  {
    forall a, b | Utf8.Encode(a) == Utf8.Encode(b)
      ensures a == b
    {
      Utf8.EncodeInjective(a, b);
    }
  }

  /** A link of texts under names; the strings of a configuration come from JSON and are well-formed. */
  function TextLink(texts: map<string, string>): Link {
    NamesStayDistinct();
    Json.Obj(map k | k in texts :: Utf8.Encode(k) := Json.Str(Utf8.Encode(texts[k])))
  }

  /** What NewV2rayNSharedLinkFromV2rayInbound reads without looking whether it is there. */
  predicate HasLinkParts(cfg: Inbound) {
    cfg.clients != [] && cfg.stream.Some? && cfg.stream.value.wsPath.Some?
  }

  /** The link for an inbound; a vmess inbound must have a client and websocket stream settings. */
  method LinkFromInbound(cfg: Inbound) returns (link: Option<Link>)
    requires cfg.protocol == "vmess" ==> HasLinkParts(cfg)
    ensures link.None? <==> cfg.protocol != "vmess"
    ensures link.Some? ==> link.value == LinkOf(cfg)
  {
    if cfg.protocol != "vmess" {
      return None;
    }
    var ret: map<string, string> := map[];
    ret := ret["v" := "2"];
    ret := ret["ps" := cfg.tag];
    ret := ret["add" := DEFAULT_DOMAIN];
    ret := ret["port" := Json.Decimal(cfg.port)];
    ret := ret["id" := cfg.clients[0].id];
    ret := ret["aid" := Json.Decimal(cfg.clients[0].alterId)];
    ret := ret["net" := cfg.stream.value.network];
    ret := ret["type" := cfg.stream.value.security];
    ret := ret["path" := cfg.stream.value.wsPath.value];
    ret := ret["tls" := "tls"];
    ret := ret["sni" := DEFAULT_DOMAIN];
    return Some(TextLink(ret));
  }

  function LinkTexts(cfg: Inbound): map<string, string>
    requires HasLinkParts(cfg)
  {
    map[
      "v" := "2", "ps" := cfg.tag, "add" := DEFAULT_DOMAIN,
      "port" := Json.Decimal(cfg.port), "id" := cfg.clients[0].id,
      "aid" := Json.Decimal(cfg.clients[0].alterId), "net" := cfg.stream.value.network,
      "type" := cfg.stream.value.security, "path" := cfg.stream.value.wsPath.value,
      "tls" := "tls", "sni" := DEFAULT_DOMAIN
    ]
  }

  function LinkOf(cfg: Inbound): Link
    requires HasLinkParts(cfg)
  {
    TextLink(LinkTexts(cfg))
  }

  /** The text under a name of a link. */
  function TextOf(link: Link, name: string): Option<string> {
    var key := Utf8.Encode(name);
    if link.Obj? && key in link.fields && link.fields[key].Str? then Some(Utf8.Decode(link.fields[key].s)) else None
  }

  lemma TextUnder(texts: map<string, string>, name: string)
    requires name in texts
    ensures TextOf(TextLink(texts), name) == Some(texts[name])
  {
    NamesStayDistinct();
    Utf8.DecodeEncode(texts[name]);
  }

  /** Every text of a link is read back under its name. */
  lemma TextsSurvive(texts: map<string, string>)
    ensures var link := FromLink(ToLink(TextLink(texts)));
            link.Some? && forall name | name in texts :: TextOf(link.value, name) == Some(texts[name])
  {
    TextLinkIsText(texts);
    LinkRoundTrip(TextLink(texts));
    forall name | name in texts
      ensures TextOf(TextLink(texts), name) == Some(texts[name])
    {
      TextUnder(texts, name);
    }
  }

  lemma TextLinkIsText(texts: map<string, string>)
    ensures Json.IsText(TextLink(texts))
  {
    forall k
      ensures Utf8.WellFormed(Utf8.Encode(k))
    {
      Utf8.EncodeWellFormed(k);
    }
  }

  lemma LinkTextsOf(cfg: Inbound)
    requires HasLinkParts(cfg)
    ensures var texts := LinkTexts(cfg);
            && "ps" in texts && texts["ps"] == cfg.tag
            && "id" in texts && texts["id"] == cfg.clients[0].id
            && "port" in texts && texts["port"] == Json.Decimal(cfg.port)
            && "aid" in texts && texts["aid"] == Json.Decimal(cfg.clients[0].alterId)
  {
  }

  /** The names of a link and their texts: eleven of them. */
  lemma LinkNames(cfg: Inbound, name: string)
    requires HasLinkParts(cfg)
    ensures name in LinkTexts(cfg) <==>
              || name == "v" || name == "ps" || name == "add" || name == "port" || name == "id" || name == "aid"
              || name == "net" || name == "type" || name == "path" || name == "tls" || name == "sni"
  {
  }

  lemma OtherTextsOf(cfg: Inbound)
    requires HasLinkParts(cfg)
    ensures var texts := LinkTexts(cfg);
            && "v" in texts && texts["v"] == "2"
            && "add" in texts && texts["add"] == "external.hdcjh.xyz"
            && "tls" in texts && texts["tls"] == "tls"
            && "sni" in texts && texts["sni"] == "external.hdcjh.xyz"
  {
  }

  lemma StreamTextsOf(cfg: Inbound)
    requires HasLinkParts(cfg)
    ensures var texts := LinkTexts(cfg);
            && "net" in texts && texts["net"] == cfg.stream.value.network
            && "type" in texts && texts["type"] == cfg.stream.value.security
            && "path" in texts && texts["path"] == cfg.stream.value.wsPath.value
  {
  }

  lemma LinkNamesRead(texts: map<string, string>, name: string)
    ensures var link := FromLink(ToLink(TextLink(texts)));
            link.Some? && link.value.Obj? && (Utf8.Encode(name) in link.value.fields <==> name in texts)
  {
    TextLinkIsText(texts);
    LinkRoundTrip(TextLink(texts));
    NamesStayDistinct();
  }

  /** The rest of what is read back: the constant texts, the stream settings, and no other name. */
  lemma InboundSurvivesWhole(cfg: Inbound, name: string)
    requires HasLinkParts(cfg)
    ensures var link := FromLink(ToLink(LinkOf(cfg)));
            && link.Some? && link.value.Obj?
            && TextOf(link.value, "v") == Some("2") && TextOf(link.value, "tls") == Some("tls")
            && TextOf(link.value, "add") == Some("external.hdcjh.xyz")
            && TextOf(link.value, "sni") == Some("external.hdcjh.xyz")
            && TextOf(link.value, "net") == Some(cfg.stream.value.network)
            && TextOf(link.value, "type") == Some(cfg.stream.value.security)
            && TextOf(link.value, "path") == Some(cfg.stream.value.wsPath.value)
            && (Utf8.Encode(name) in link.value.fields <==>
                  || name == "v" || name == "ps" || name == "add" || name == "port" || name == "id" || name == "aid"
                  || name == "net" || name == "type" || name == "path" || name == "tls" || name == "sni")
  {
    TextsSurvive(LinkTexts(cfg));
    OtherTextsOf(cfg);
    StreamTextsOf(cfg);
    LinkNames(cfg, name);
    LinkNamesRead(LinkTexts(cfg), name);
  }

  /** The prefix of a share link is the text `vmess://`, and a text without it is no link. */
  lemma PrefixIsVmess(link: Bytes)
    ensures PREFIX == Utf8.Encode("vmess://")
    ensures !(Utf8.Encode("vmess://") <= link) ==> FromLink(link).None?
  {
    var t := "vmess://";
    assert Utf8.Encode("") == [];
    assert Utf8.Encode(t[7..]) == [47] && t[7..] == "/";
    assert Utf8.Encode(t[6..]) == [47, 47] && t[6..][1..] == t[7..];
    assert Utf8.Encode(t[5..]) == [58, 47, 47] && t[5..][1..] == t[6..];
    assert Utf8.Encode(t[4..]) == [115, 58, 47, 47] && t[4..][1..] == t[5..];
    assert Utf8.Encode(t[3..]) == [115, 115, 58, 47, 47] && t[3..][1..] == t[4..];
    assert Utf8.Encode(t[2..]) == [101, 115, 115, 58, 47, 47] && t[2..][1..] == t[3..];
    assert Utf8.Encode(t[1..]) == [109, 101, 115, 115, 58, 47, 47] && t[1..][1..] == t[2..];
  }

  /** What a client application reads from the link of an inbound: its tag, its first client's id, and port and alterId
      as decimals, through JSON, UTF-8 and base64. */
  lemma InboundSurvives(cfg: Inbound)
    requires HasLinkParts(cfg)
    ensures var link := FromLink(ToLink(LinkOf(cfg)));
            && link.Some?
            && TextOf(link.value, "ps") == Some(cfg.tag) && TextOf(link.value, "id") == Some(cfg.clients[0].id)
            && (var port, aid := TextOf(link.value, "port"), TextOf(link.value, "aid");
                && port.Some? && Json.ReadDecimal(port.value) == Some(cfg.port)
                && aid.Some? && Json.ReadDecimal(aid.value) == Some(cfg.clients[0].alterId))
  {
    TextsSurvive(LinkTexts(cfg));
    LinkTextsOf(cfg);
    Json.DecimalRoundTrip(cfg.port);
    Json.DecimalRoundTrip(cfg.clients[0].alterId);
  }
}

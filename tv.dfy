/**
 * The TV record, the post-processing of a decoded UPnP device description,
 * and the AVTransport control protocol (SOAP actions and the classification
 * of their responses), following the control part (section 3) of the UPnP
 * Device Architecture 1.0.
 */
module Tv {
  import opened Wrappers
  import opened Text

  // ---------------------------------------------------------------------------
  // Data

  /** A discovered renderer: display name, address and control endpoint. */
  datatype TV = TV(name: string, ip: string, port: int, controlURL: string, baseURL: string)

  /** The parts of a decoded device description the decoder looks at. */
  datatype Service = Service(serviceType: string, controlURL: string)
  datatype Device = Device(friendlyName: string, manufacturer: string, modelName: string,
                           serviceList: seq<Service>)
  datatype DeviceDescription = DeviceDescription(urlBase: string, device: Device)

  /** The port of a parsed URL: empty, or decimal digits only. */
  type PortText = s: string | IsDigits(s)

  /** The description's location URL, already split: Scheme, Host, Hostname() and Port(). */
  datatype LocationURL = LocationURL(scheme: string, host: string, hostname: string, port: PortText)

  datatype DescribeError = NoAVTransportService

  const DefaultPort := 80
  /** The largest value of Go's (64-bit) int. */
  const MaxInt := 0x7FFF_FFFF_FFFF_FFFF

  // ---------------------------------------------------------------------------
  // Device-description post-processing

  predicate IsAVTransport(svc: Service) {
    Contains(svc.serviceType, "AVTransport")
  }

  /** `i` is the first service in the list whose type mentions AVTransport. */
  predicate IsFirstAVTransport(svcs: seq<Service>, i: int) {
    && 0 <= i < |svcs|
    && IsAVTransport(svcs[i])
    && forall j :: 0 <= j < i ==> !IsAVTransport(svcs[j])
  }

  /** The index the search loop of the decoder stops at. */
  function FirstAVTransport(svcs: seq<Service>): (r: Option<nat>)
    ensures r.None? <==> forall i :: 0 <= i < |svcs| ==> !IsAVTransport(svcs[i])
    ensures r.Some? ==> IsFirstAVTransport(svcs, r.value)
  {
    if svcs == [] then None
    else if IsAVTransport(svcs[0]) then Some(0)
    else match FirstAVTransport(svcs[1..])
      case None => None
      case Some(i) => Some(i + 1)
  }

  lemma FirstAVTransportIs(svcs: seq<Service>, i: int)
    requires IsFirstAVTransport(svcs, i)
    ensures FirstAVTransport(svcs) == Some(i)
  {
  }

  /**
   * The base URL: URLBase when given, otherwise scheme://host of the
   * location, with one trailing "/" removed.
   */
  function BaseURL(urlBase: string, loc: LocationURL): (r: string)
    ensures var b := if urlBase == "" then loc.scheme + "://" + loc.host else urlBase;
            && (HasSuffix(b, "/") ==> r + "/" == b)
            && (!HasSuffix(b, "/") ==> r == b)
  {
    TrimSuffix(if urlBase == "" then loc.scheme + "://" + loc.host else urlBase, "/")
  }

  /**
   * The absolute control URL: kept when it starts with "http", otherwise
   * appended to the base URL with exactly the one "/" it may already start
   * with.
   */
  function ResolveControlURL(baseURL: string, controlURL: string): (r: string)
    ensures HasPrefix(controlURL, "http") ==> r == controlURL
    ensures !HasPrefix(controlURL, "http") ==>
              r == baseURL + "/" + (if HasPrefix(controlURL, "/") then controlURL[1..] else controlURL)
    ensures controlURL != "" ==> r != ""
  {
    if HasPrefix(controlURL, "http") then controlURL
    else
      var path := if HasPrefix(controlURL, "/") then controlURL else "/" + controlURL;
      assert HasPrefix(controlURL, "/") ==> controlURL == "/" + controlURL[1..];
      baseURL + path
  }

  /** The port: 80 when the location gives none; else Sscanf's %d, which leaves 80 on overflow. */
  function PortOf(p: PortText): (port: int)
    ensures p == "" ==> port == DefaultPort
    ensures 0 <= port <= MaxInt
    ensures p != "" && DecimalValue(p) <= MaxInt ==> port == DecimalValue(p)
  {
    if p == "" then DefaultPort
    else if DecimalValue(p) <= MaxInt then DecimalValue(p)
    else DefaultPort
  }

  /** Every port Go can print with %d is read back unchanged. */
  lemma PortOfDecimal(n: nat)
    requires n <= MaxInt
    ensures PortOf(Decimal(n)) == n
  {
    DecimalRoundTrip(n);
  }

  /**
   * What the decoder makes of a decoded description: a TV record, or
   * "no AVTransport service found" when no service type mentions
   * AVTransport or the first one that does has an empty control URL.
   */
  function Describe(desc: DeviceDescription, loc: LocationURL): (r: Result<TV, DescribeError>)
    ensures r.Success? ==> r.value.controlURL != ""
    ensures r.Success? ==>
              && r.value.name == desc.device.friendlyName
              && r.value.ip == loc.hostname
              && r.value.port == PortOf(loc.port)
              && r.value.baseURL == BaseURL(desc.urlBase, loc)
  {
    var svcs := desc.device.serviceList;
    var base := BaseURL(desc.urlBase, loc);
    match FirstAVTransport(svcs)
    case None => Failure(NoAVTransportService)
    case Some(i) =>
      if svcs[i].controlURL == "" then Failure(NoAVTransportService)
      else Success(TV(desc.device.friendlyName, loc.hostname, PortOf(loc.port),
                      ResolveControlURL(base, svcs[i].controlURL), base))
  }

  /** Decoding fails exactly when there is no usable first AVTransport service. */
  lemma DescribeFails(desc: DeviceDescription, loc: LocationURL)
    ensures var svcs := desc.device.serviceList;
            Describe(desc, loc).Failure? <==>
              || (forall i :: 0 <= i < |svcs| ==> !IsAVTransport(svcs[i]))
              || (exists i :: IsFirstAVTransport(svcs, i) && svcs[i].controlURL == "")
  {
    var svcs := desc.device.serviceList;
    if i :| IsFirstAVTransport(svcs, i) {
      FirstAVTransportIs(svcs, i);
    }
  }

  /** Only the first matching service counts: its control URL is the one resolved, whatever follows it. */
  lemma DescribeUsesFirstMatch(desc: DeviceDescription, loc: LocationURL, i: int, rest: seq<Service>)
    requires IsFirstAVTransport(desc.device.serviceList, i)
    requires desc.device.serviceList[i].controlURL != ""
    ensures Describe(desc, loc).Success?
    ensures Describe(desc, loc).value.controlURL ==
              ResolveControlURL(BaseURL(desc.urlBase, loc), desc.device.serviceList[i].controlURL)
    ensures var others := desc.device.(serviceList := desc.device.serviceList[..i + 1] + rest);
            Describe(desc.(device := others), loc) == Describe(desc, loc)
  {
    var svcs := desc.device.serviceList;
    var svcs' := svcs[..i + 1] + rest;
    FirstAVTransportIs(svcs, i);
    assert IsFirstAVTransport(svcs', i);
    FirstAVTransportIs(svcs', i);
  }

  /** tv.go's parseDeviceDescription after the XML decode and URL parse. */
  method ParseDeviceDescription(desc: DeviceDescription, loc: LocationURL)
    returns (r: Result<TV, DescribeError>)
    ensures r == Describe(desc, loc)
  {
    var baseURL := desc.urlBase;
    if baseURL == "" {
      baseURL := loc.scheme + "://" + loc.host;
    }
    baseURL := TrimSuffix(baseURL, "/");

    var services := desc.device.serviceList;
    var controlURL := "";
    var i := 0;
    while i < |services|
      invariant 0 <= i <= |services|
      invariant forall j :: 0 <= j < i ==> !IsAVTransport(services[j])
      invariant controlURL == ""
    {
      if Contains(services[i].serviceType, "AVTransport") {
        controlURL := services[i].controlURL;
        FirstAVTransportIs(services, i);
        break;
      }
      i := i + 1;
    }

    if controlURL == "" {
      return Failure(NoAVTransportService);
    }

    if !HasPrefix(controlURL, "http") {
      if !HasPrefix(controlURL, "/") {
        controlURL := "/" + controlURL;
      }
      controlURL := baseURL + controlURL;
    }

    var port := DefaultPort;
    if loc.port != "" {
      if DecimalValue(loc.port) <= MaxInt {
        port := DecimalValue(loc.port);
      }
    }

    return Success(TV(desc.device.friendlyName, loc.hostname, port, controlURL, baseURL));
  }

  /** TV.String: "name (ip:port)". */
  function Label(tv: TV): string {
    tv.name + " (" + tv.ip + ":" + IntToDecimal(tv.port) + ")"
  }

  /** The port a label shows between its last ':' and its closing ')'. */
  function LabelPort(shown: string): Option<nat> {
    if !HasSuffix(shown, ")") then None
    else match LastIndexOf(shown, ':')
      case None => None
      case Some(i) =>
        if i + 1 <= |shown| - 1 && IsDigits(shown[i + 1..|shown| - 1]) && i + 1 < |shown| - 1
        then Some(DecimalValue(shown[i + 1..|shown| - 1]))
        else None
  }

  /** The label of a TV shows its port, whatever its name and address contain. */
  lemma LabelShowsPort(tv: TV)
    requires tv.port >= 0
    ensures LabelPort(Label(tv)) == Some(tv.port)
  {
    var a := tv.name + " (" + tv.ip;
    var d := Decimal(tv.port);
    var s := Label(tv);
    assert s == a + ":" + d + ")";
    assert HasSuffix(s, ")");
    LastIndexOfAt(s, ':', |a|);
    assert s[|a| + 1..|s| - 1] == d;
    DecimalRoundTrip(tv.port);
  }

  /** The position of the last `c` in `s`. */
  function LastIndexOf(s: string, c: char): (r: Option<nat>)
    ensures r.None? <==> c !in s
    ensures r.Some? ==> r.value < |s| && s[r.value] == c && c !in s[r.value + 1..]
  {
    if s == [] then None
    else if s[|s| - 1] == c then Some(|s| - 1)
    else
      var r := LastIndexOf(s[..|s| - 1], c);
      assert r.Some? ==> s[r.value + 1..] == s[..|s| - 1][r.value + 1..] + [s[|s| - 1]];
      assert r.None? ==> s == s[..|s| - 1] + [s[|s| - 1]];
      r
  }

  lemma LastIndexOfAt(s: string, c: char, i: int)
    requires 0 <= i < |s| && s[i] == c
    requires forall j :: i < j < |s| ==> s[j] != c
    ensures LastIndexOf(s, c) == Some(i)
  {
  }

  // ---------------------------------------------------------------------------
  // XML escaping

  /** escapeXML: &, <, > and " replaced one after the other, '&' first. */
  function EscapeXML(s: string): string {
    ReplaceAll(ReplaceAll(ReplaceAll(ReplaceAll(s, '&', "&amp;"), '<', "&lt;"), '>', "&gt;"), '"', "&quot;")
  }

  /** The entity (or the character itself) a single character becomes. */
  function EscapeChar(c: char): string {
    if c == '&' then "&amp;"
    else if c == '<' then "&lt;"
    else if c == '>' then "&gt;"
    else if c == '"' then "&quot;"
    else [c]
  }

  /** Reference definition: each character escaped once, in a single pass. */
  function EscapeEach(s: string): string {
    if s == [] then [] else EscapeChar(s[0]) + EscapeEach(s[1..])
  }

  /** Entity decoding, as an XML reader applies it to character data. */
  function UnescapeXML(s: string): string
    decreases |s|
  {
    if s == [] then []
    else if HasPrefix(s, "&amp;") then "&" + UnescapeXML(s[5..])
    else if HasPrefix(s, "&lt;") then "<" + UnescapeXML(s[4..])
    else if HasPrefix(s, "&gt;") then ">" + UnescapeXML(s[4..])
    else if HasPrefix(s, "&quot;") then "\"" + UnescapeXML(s[6..])
    else [s[0]] + UnescapeXML(s[1..])
  }

  lemma EscapeXMLConcat(a: string, b: string)
    ensures EscapeXML(a + b) == EscapeXML(a) + EscapeXML(b)
  {
    var r1a, r1b := ReplaceAll(a, '&', "&amp;"), ReplaceAll(b, '&', "&amp;");
    ReplaceAllConcat(a, b, '&', "&amp;");
    var r2a, r2b := ReplaceAll(r1a, '<', "&lt;"), ReplaceAll(r1b, '<', "&lt;");
    ReplaceAllConcat(r1a, r1b, '<', "&lt;");
    var r3a, r3b := ReplaceAll(r2a, '>', "&gt;"), ReplaceAll(r2b, '>', "&gt;");
    ReplaceAllConcat(r2a, r2b, '>', "&gt;");
    ReplaceAllConcat(r3a, r3b, '"', "&quot;");
  }

  /** The four passes applied to one character that only the first pass rewrites. */
  lemma EscapeAmp()
    ensures EscapeXML("&") == "&amp;"
  {
    var amp := "&amp;";
    ReplaceAllSingle('&', '&', amp);
    assert ReplaceAll("&", '&', amp) == amp;
    assert '<' !in amp && '>' !in amp && '"' !in amp;
    ReplaceAllAbsent(amp, '<', "&lt;");
    ReplaceAllAbsent(amp, '>', "&gt;");
    ReplaceAllAbsent(amp, '"', "&quot;");
  }

  lemma EscapeLt()
    ensures EscapeXML("<") == "&lt;"
  {
    ReplaceAllSingle('<', '&', "&amp;");
    ReplaceAllSingle('<', '<', "&lt;");
    ReplaceAllAbsent("&lt;", '>', "&gt;");
    ReplaceAllAbsent("&lt;", '"', "&quot;");
  }

  lemma EscapeGt()
    ensures EscapeXML(">") == "&gt;"
  {
    ReplaceAllSingle('>', '&', "&amp;");
    ReplaceAllSingle('>', '<', "&lt;");
    ReplaceAllSingle('>', '>', "&gt;");
    ReplaceAllAbsent("&gt;", '"', "&quot;");
  }

  lemma EscapeQuot()
    ensures EscapeXML("\"") == "&quot;"
  {
    ReplaceAllSingle('"', '&', "&amp;");
    ReplaceAllSingle('"', '<', "&lt;");
    ReplaceAllSingle('"', '>', "&gt;");
    ReplaceAllSingle('"', '"', "&quot;");
  }

  lemma EscapePlain(c: char)
    requires c != '&' && c != '<' && c != '>' && c != '"'
    ensures EscapeXML([c]) == [c]
  {
    ReplaceAllSingle(c, '&', "&amp;");
    ReplaceAllSingle(c, '<', "&lt;");
    ReplaceAllSingle(c, '>', "&gt;");
    ReplaceAllSingle(c, '"', "&quot;");
  }

  lemma EscapeXMLChar(c: char)
    ensures EscapeXML([c]) == EscapeChar(c)
  {
    if c == '&' {
      EscapeAmp();
    } else if c == '<' {
      EscapeLt();
    } else if c == '>' {
      EscapeGt();
    } else if c == '"' {
      EscapeQuot();
    } else {
      EscapePlain(c);
    }
  }


  /**
   * The four passes behave as one pass over the characters: the entities
   * the '&' pass introduces are not escaped again.
   */
  lemma {:induction false} EscapeXMLSinglePass(s: string)
    ensures EscapeXML(s) == EscapeEach(s)
  {
    if s != [] {
      assert s == [s[0]] + s[1..];
      EscapeXMLConcat([s[0]], s[1..]);
      EscapeXMLChar(s[0]);
      EscapeXMLSinglePass(s[1..]);
    }
  }

  lemma {:induction false} EscapeEachNoMarkup(s: string)
    ensures var e := EscapeEach(s); '<' !in e && '>' !in e && '"' !in e
  {
    if s != [] {
      EscapeEachNoMarkup(s[1..]);
    }
  }

  /** Escaped text holds no raw '<', '>' or '"'. */
  lemma EscapeXMLNoMarkup(s: string)
    ensures var e := EscapeXML(s); '<' !in e && '>' !in e && '"' !in e
  {
    EscapeXMLSinglePass(s);
    EscapeEachNoMarkup(s);
  }

  /** Text without &, <, > and " (apostrophes included) is left as it is. */
  lemma EscapeXMLPlain(s: string)
    requires '&' !in s && '<' !in s && '>' !in s && '"' !in s
    ensures EscapeXML(s) == s
  {
    ReplaceAllAbsent(s, '&', "&amp;");
    ReplaceAllAbsent(s, '<', "&lt;");
    ReplaceAllAbsent(s, '>', "&gt;");
    ReplaceAllAbsent(s, '"', "&quot;");
  }

  lemma UnescapeAmp(t: string)
    ensures UnescapeXML("&amp;" + t) == "&" + UnescapeXML(t)
  {
    var e := "&amp;" + t;
    assert e[..5] == "&amp;" && e[5..] == t;
  }

  lemma UnescapeLt(t: string)
    ensures UnescapeXML("&lt;" + t) == "<" + UnescapeXML(t)
  {
    var e := "&lt;" + t;
    assert e[..4] == "&lt;" && e[4..] == t;
    assert e[1] == 'l';
    assert !HasPrefix(e, "&amp;");
  }

  lemma UnescapeGt(t: string)
    ensures UnescapeXML("&gt;" + t) == ">" + UnescapeXML(t)
  {
    var e := "&gt;" + t;
    assert e[..4] == "&gt;" && e[4..] == t;
    assert e[1] == 'g';
    assert !HasPrefix(e, "&amp;") && !HasPrefix(e, "&lt;");
  }

  lemma UnescapeQuot(t: string)
    ensures UnescapeXML("&quot;" + t) == "\"" + UnescapeXML(t)
  {
    var e := "&quot;" + t;
    assert e[..6] == "&quot;" && e[6..] == t;
    assert e[1] == 'q';
    assert !HasPrefix(e, "&amp;") && !HasPrefix(e, "&lt;") && !HasPrefix(e, "&gt;");
  }

  lemma UnescapeOther(c: char, t: string)
    requires c != '&'
    ensures UnescapeXML([c] + t) == [c] + UnescapeXML(t)
  {
    var e := [c] + t;
    assert e[0] == c && e[1..] == t;
  }

  /** Decoding reads one escaped character back and goes on with the rest. */
  lemma UnescapeStep(c: char, t: string)
    ensures UnescapeXML(EscapeChar(c) + t) == [c] + UnescapeXML(t)
  {
    if c == '&' {
      UnescapeAmp(t);
    } else if c == '<' {
      UnescapeLt(t);
    } else if c == '>' {
      UnescapeGt(t);
    } else if c == '"' {
      UnescapeQuot(t);
    } else {
      UnescapeOther(c, t);
    }
  }

  lemma {:induction false} UnescapeEscapeEach(s: string)
    ensures UnescapeXML(EscapeEach(s)) == s
  {
    if s != [] {
      UnescapeEscapeEach(s[1..]);
      UnescapeStep(s[0], EscapeEach(s[1..]));
      assert s == [s[0]] + s[1..];
    }
  }

  /** A reader decoding the entities gets the original text back. */
  lemma EscapeXMLRoundTrip(s: string)
    ensures UnescapeXML(EscapeXML(s)) == s
  {
    EscapeXMLSinglePass(s);
    UnescapeEscapeEach(s);
  }

  // ---------------------------------------------------------------------------
  // Request bodies

  const AVTransportURN := "urn:schemas-upnp-org:service:AVTransport:1"

  const EnvelopeHead :=
    "<?xml version=\"1.0\" encoding=\"utf-8\"?>\n"
    + "<s:Envelope xmlns:s=\"http://schemas.xmlsoap.org/soap/envelope/\" s:encodingStyle=\"http://schemas.xmlsoap.org/soap/encoding/\">\n"
    + "  <s:Body>\n"
  const EnvelopeTail := "  </s:Body>\n</s:Envelope>"

  /** The envelope up to and including the action element's start tag. */
  function EnvelopeOpen(action: string): string {
    EnvelopeHead + "    <u:" + action + " xmlns:u=\"" + AVTransportURN + "\">\n"
  }

  /** The action element's end tag and the rest of the envelope. */
  function EnvelopeClose(action: string): string {
    "    </u:" + action + ">\n" + EnvelopeTail
  }

  /** A SOAP 1.1 envelope invoking `action` of the AVTransport service with the given argument lines. */
  function Envelope(action: string, args: string): string {
    EnvelopeOpen(action) + args + EnvelopeClose(action)
  }

  /** An element holding text. */
  function Element(name: string, value: string): string {
    "<" + name + ">" + value + "</" + name + ">"
  }

  lemma ElementHoldsValue(name: string, value: string)
    ensures Contains(Element(name, value), value)
  {
    assert Element(name, value) == ("<" + name + ">") + value + ("</" + name + ">");
    ContainsMiddle("<" + name + ">", value, "</" + name + ">");
  }

  /** One argument line of an action invocation. */
  function Arg(name: string, value: string): string {
    "      " + Element(name, value) + "\n"
  }

  const DidlHead :=
    "<DIDL-Lite xmlns=\"urn:schemas-upnp-org:metadata-1-0/DIDL-Lite/\" xmlns:dc=\"http://purl.org/dc/elements/1.1/\" xmlns:upnp=\"urn:schemas-upnp-org:metadata-1-0/upnp/\">"
    + "<item id=\"1\" parentID=\"0\" restricted=\"1\">"

  /** DIDL-Lite text up to the title. */
  const DidlTitleOpen := DidlHead + "<dc:title>"

  /** DIDL-Lite text between the title and the content type. */
  function DidlClassPart(upnpClass: string): string {
    "</dc:title>" + "<upnp:class>" + upnpClass + "</upnp:class>" + "<res protocolInfo=\"http-get:*:"
  }

  /** DIDL-Lite text after the content type. */
  function DidlResourcePart(uri: string): string {
    ":*\">" + uri + "</res>" + "</item></DIDL-Lite>"
  }

  /** DIDL-Lite metadata describing one item, before escaping. */
  function Didl(title: string, upnpClass: string, contentType: string, uri: string): string {
    DidlTitleOpen + title + (DidlClassPart(upnpClass) + contentType + DidlResourcePart(uri))
  }

  /** The item a SetAVTransportURI call describes in its DIDL-Lite metadata. */
  datatype Item = Item(title: string, upnpClass: string, contentType: string, uri: string)

  function ItemDidl(item: Item): string {
    Didl(item.title, item.upnpClass, item.contentType, item.uri)
  }

  /** A still image: title "Image", a photo item served as image/jpeg. */
  function ImageItem(uri: string): Item {
    Item("Image", "object.item.imageItem.photo", "image/jpeg", uri)
  }

  /** The metadata of a still image. */
  function ImageDidl(uri: string): string {
    ItemDidl(ImageItem(uri))
  }

  const VideoClass := "object.item.videoItem"
  const HlsContentType := "application/x-mpegURL"
  const MpegTsContentType := "video/mp2t"

  /** The content type setAVTransportURIForVideo declares for a URI. */
  function VideoContentType(uri: string): string {
    if HasSuffix(uri, ".m3u8") || Contains(uri, "m3u8") then HlsContentType else MpegTsContentType
  }

  /** HLS exactly when the URI mentions "m3u8" anywhere; the suffix test adds nothing. */
  lemma VideoContentTypeIsHls(uri: string)
    ensures VideoContentType(uri) == HlsContentType <==> Contains(uri, "m3u8")
    ensures VideoContentType(uri) != HlsContentType ==> VideoContentType(uri) == MpegTsContentType
  {
    if HasSuffix(uri, ".m3u8") {
      assert uri[|uri| - 5..] == ".m3u8";
      assert uri[|uri| - 4..] == "m3u8";
      SuffixContained(uri, "m3u8");
    }
  }

  lemma VideoContentTypePlain(uri: string)
    ensures var ct := VideoContentType(uri);
            '&' !in ct && '<' !in ct && '>' !in ct && '"' !in ct
  {
    var ct := VideoContentType(uri);
    assert ct == HlsContentType || ct == MpegTsContentType;
    forall i | 0 <= i < |ct| ensures ct[i] != '&' && ct[i] != '<' && ct[i] != '>' && ct[i] != '"' {
      if ct == HlsContentType {
        assert ct[i] in "application/x-mpegURL";
      } else {
        assert ct[i] in "video/mp2t";
      }
    }
  }

  /** The SetAVTransportURI envelope: the URI raw in CurrentURI, the metadata escaped. */
  function SetURIEnvelope(uri: string, didl: string): string {
    Envelope("SetAVTransportURI",
      Arg("InstanceID", "0") + Arg("CurrentURI", uri) + Arg("CurrentURIMetaData", EscapeXML(didl)))
  }


  /** A video stream under the caller's title, with the content type chosen from its URI. */
  function VideoItem(uri: string, title: string): Item {
    Item(title, VideoClass, VideoContentType(uri), uri)
  }


  /** The SetNextAVTransportURI envelope: the URI raw in NextURI, the metadata escaped. */
  function SetNextEnvelope(uri: string, didl: string): string {
    Envelope("SetNextAVTransportURI",
      Arg("InstanceID", "0") + Arg("NextURI", uri) + Arg("NextURIMetaData", EscapeXML(didl)))
  }

  const PlayBody := Envelope("Play", Arg("InstanceID", "0") + Arg("Speed", "1"))
  const StopBody := Envelope("Stop", Arg("InstanceID", "0"))

  lemma ContainsTransitive(s: string, t: string, u: string)
    requires Contains(s, t) && Contains(t, u)
    ensures Contains(s, u)
  {
    var i :| 0 <= i <= |s| && HasPrefix(s[i..], t);
    var j :| 0 <= j <= |t| && HasPrefix(t[j..], u);
    assert s[i..][..|t|] == t;
    forall k | 0 <= k < |u|
      ensures s[i + j + k] == u[k]
    {
      assert s[i + j + k] == s[i..][..|t|][j + k];
      assert u[k] == t[j..][..|u|][k];
    }
    assert s[i + j..][..|u|] == u;
  }

  /** An envelope carries the element of each of its argument lines. */
  lemma EnvelopeCarries(action: string, before: string, name: string, value: string, after: string)
    ensures Contains(Envelope(action, before + Arg(name, value) + after), Element(name, value))
  {
    var arg := Arg(name, value);
    var args := before + arg + after;
    ContainsMiddle("      ", Element(name, value), "\n");
    ContainsMiddle(before, arg, after);
    ContainsTransitive(args, arg, Element(name, value));
    ContainsWidened(EnvelopeOpen(action), args, EnvelopeClose(action), Element(name, value));
  }

  /** Play asks for instance 0 at speed 1; Stop addresses instance 0. */
  lemma PlayArguments()
    ensures Contains(PlayBody, Element("InstanceID", "0"))
    ensures Contains(PlayBody, Element("Speed", "1"))
  {
    var inst, speed := Arg("InstanceID", "0"), Arg("Speed", "1");
    assert [] + inst + speed == inst + speed;
    EnvelopeCarries("Play", [], "InstanceID", "0", speed);
    assert inst + speed + [] == inst + speed;
    EnvelopeCarries("Play", inst, "Speed", "1", []);
  }

  lemma StopArguments()
    ensures Contains(StopBody, Element("InstanceID", "0"))
  {
    var inst := Arg("InstanceID", "0");
    assert [] + inst + [] == inst;
    EnvelopeCarries("Stop", [], "InstanceID", "0", []);
  }

  /**
   * The URI travels unescaped in CurrentURI and the metadata escaped in
   * CurrentURIMetaData, from which entity decoding recovers the DIDL-Lite text.
   */
  lemma SetURIEnvelopeCarries(uri: string, didl: string)
    ensures Contains(SetURIEnvelope(uri, didl), Element("CurrentURI", uri))
    ensures Contains(SetURIEnvelope(uri, didl), Element("CurrentURIMetaData", EscapeXML(didl)))
    ensures UnescapeXML(EscapeXML(didl)) == didl
  {
    var inst, cur, meta := Arg("InstanceID", "0"), Arg("CurrentURI", uri), Arg("CurrentURIMetaData", EscapeXML(didl));
    EnvelopeCarries("SetAVTransportURI", inst, "CurrentURI", uri, meta);
    assert inst + cur + meta + [] == inst + cur + meta;
    EnvelopeCarries("SetAVTransportURI", inst + cur, "CurrentURIMetaData", EscapeXML(didl), []);
    EscapeXMLRoundTrip(didl);
  }

  /** The next-URI envelope carries the URI raw and the image metadata escaped. */
  lemma SetNextEnvelopeCarries(uri: string, didl: string)
    ensures Contains(SetNextEnvelope(uri, didl), Element("NextURI", uri))
    ensures Contains(SetNextEnvelope(uri, didl), Element("NextURIMetaData", EscapeXML(didl)))
  {
    var inst, next, meta := Arg("InstanceID", "0"), Arg("NextURI", uri), Arg("NextURIMetaData", EscapeXML(didl));
    EnvelopeCarries("SetNextAVTransportURI", inst, "NextURI", uri, meta);
    assert inst + next + meta + [] == inst + next + meta;
    EnvelopeCarries("SetNextAVTransportURI", inst + next, "NextURIMetaData", EscapeXML(didl), []);
  }

  /** Escaped metadata shows a title and a content type free of XML metacharacters verbatim. */
  lemma EscapedDidlShows(title: string, upnpClass: string, contentType: string, uri: string)
    requires '&' !in title && '<' !in title && '>' !in title && '"' !in title
    requires '&' !in contentType && '<' !in contentType && '>' !in contentType && '"' !in contentType
    ensures Contains(EscapeXML(Didl(title, upnpClass, contentType, uri)), title)
    ensures Contains(EscapeXML(Didl(title, upnpClass, contentType, uri)), contentType)
  {
    var a, b, c := DidlTitleOpen, DidlClassPart(upnpClass), DidlResourcePart(uri);
    EscapeXMLConcat(a, title);
    EscapeXMLConcat(a + title, b + contentType + c);
    EscapeXMLConcat(b, contentType);
    EscapeXMLConcat(b + contentType, c);
    EscapeXMLPlain(title);
    EscapeXMLPlain(contentType);
    var tail := EscapeXML(b) + contentType + EscapeXML(c);
    assert EscapeXML(Didl(title, upnpClass, contentType, uri)) == EscapeXML(a) + title + tail;
    ContainsMiddle(EscapeXML(a), title, tail);
    ContainsMiddle(EscapeXML(b), contentType, EscapeXML(c));
    ContainsWidened(EscapeXML(a) + title, tail, [], contentType);
    assert EscapeXML(a) + title + tail + [] == EscapeXML(a) + title + tail;
  }

  /**
   * The video envelope declares the stream's content type, and a title free
   * of XML metacharacters appears in it verbatim.
   */
  lemma VideoBodyCarries(uri: string, title: string)
    requires '&' !in title && '<' !in title && '>' !in title && '"' !in title
    ensures Contains(SetURIEnvelope(uri, ItemDidl(VideoItem(uri, title))), Element("CurrentURI", uri))
    ensures Contains(SetURIEnvelope(uri, ItemDidl(VideoItem(uri, title))), VideoContentType(uri))
    ensures Contains(SetURIEnvelope(uri, ItemDidl(VideoItem(uri, title))), title)
  {
    var ct := VideoContentType(uri);
    var didl := Didl(title, VideoClass, ct, uri);
    var body := SetURIEnvelope(uri, didl);
    var e := EscapeXML(didl);
    SetURIEnvelopeCarries(uri, didl);
    ElementHoldsValue("CurrentURIMetaData", e);
    ContainsTransitive(body, Element("CurrentURIMetaData", e), e);
    VideoContentTypePlain(uri);
    EscapedDidlShows(title, VideoClass, ct, uri);
    ContainsTransitive(body, e, title);
    ContainsTransitive(body, e, ct);
  }

  // ---------------------------------------------------------------------------
  // Sending actions

  /** The header value naming the invoked action. */
  function SoapActionHeader(action: string): string {
    "\"" + AVTransportURN + "#" + action + "\""
  }

  /** The action a SOAPAction header names, as a device reads it. */
  function ActionOfHeader(header: string): Option<string> {
    var prefix := "\"" + AVTransportURN + "#";
    if |header| >= |prefix| + 1 && HasPrefix(header, prefix) && header[|header| - 1] == '"'
    then Some(header[|prefix|..|header| - 1])
    else None
  }

  lemma SoapActionHeaderRoundTrip(action: string)
    ensures ActionOfHeader(SoapActionHeader(action)) == Some(action)
  {
    var prefix := "\"" + AVTransportURN + "#";
    var h := SoapActionHeader(action);
    assert h == prefix + action + "\"";
    assert h[..|prefix|] == prefix;
    assert h[|prefix|..|h| - 1] == action;
  }

  /** One AVTransport action invocation, before sendSOAP encodes it. */
  datatype Command =
    | SetURI(uri: string, item: Item)      // SetAVTransportURI
    | SetNextURI(uri: string, item: Item)  // SetNextAVTransportURI
    | PlayCommand                          // Play at normal speed
    | StopCommand                          // Stop

  function ActionName(cmd: Command): string {
    match cmd
    case SetURI(_, _) => "SetAVTransportURI"
    case SetNextURI(_, _) => "SetNextAVTransportURI"
    case PlayCommand => "Play"
    case StopCommand => "Stop"
  }

  /** The SOAP envelope the invocation is sent as. */
  function CommandBody(cmd: Command): string {
    match cmd
    case SetURI(uri, item) => SetURIEnvelope(uri, ItemDidl(item))
    case SetNextURI(uri, item) => SetNextEnvelope(uri, ItemDidl(item))
    case PlayCommand => PlayBody
    case StopCommand => StopBody
  }

  /** A POST sendSOAP makes: the TV's control URL and the invocation. */
  datatype SoapRequest = SoapRequest(url: string, command: Command)

  /** The SOAPAction header of a request. */
  function SoapActionOf(req: SoapRequest): string {
    SoapActionHeader(ActionName(req.command))
  }

  /** The body of a request. */
  function BodyOf(req: SoapRequest): string {
    CommandBody(req.command)
  }

  function SetAVTransportURIRequest(tv: TV, uri: string): SoapRequest {
    SoapRequest(tv.controlURL, SetURI(uri, ImageItem(uri)))
  }

  function SetAVTransportURIForVideoRequest(tv: TV, uri: string, title: string): SoapRequest {
    SoapRequest(tv.controlURL, SetURI(uri, VideoItem(uri, title)))
  }

  function SetNextAVTransportURIRequest(tv: TV, uri: string): SoapRequest {
    SoapRequest(tv.controlURL, SetNextURI(uri, ImageItem(uri)))
  }

  function PlayRequest(tv: TV): SoapRequest {
    SoapRequest(tv.controlURL, PlayCommand)
  }

  function StopRequest(tv: TV): SoapRequest {
    SoapRequest(tv.controlURL, StopCommand)
  }

  /**
   * setAVTransportURI posts to the control URL under the SetAVTransportURI
   * action, with the URI raw in CurrentURI and the image's DIDL-Lite escaped
   * in CurrentURIMetaData.
   */
  lemma ImageRequestCarries(tv: TV, uri: string)
    ensures var req := SetAVTransportURIRequest(tv, uri);
            && req.url == tv.controlURL
            && ActionOfHeader(SoapActionOf(req)) == Some("SetAVTransportURI")
            && Contains(BodyOf(req), Element("CurrentURI", uri))
            && Contains(BodyOf(req), Element("CurrentURIMetaData", EscapeXML(ImageDidl(uri))))
  {
    SoapActionHeaderRoundTrip("SetAVTransportURI");
    SetURIEnvelopeCarries(uri, ImageDidl(uri));
  }

  /**
   * setAVTransportURIForVideo posts a SetAVTransportURI whose body holds the
   * raw URI, the chosen content type and, when it has no markup, the title.
   */
  lemma VideoRequestCarries(tv: TV, uri: string, title: string)
    requires '&' !in title && '<' !in title && '>' !in title && '"' !in title
    ensures var req := SetAVTransportURIForVideoRequest(tv, uri, title);
            && req.url == tv.controlURL
            && ActionOfHeader(SoapActionOf(req)) == Some("SetAVTransportURI")
            && Contains(BodyOf(req), Element("CurrentURI", uri))
            && Contains(BodyOf(req), VideoContentType(uri))
            && Contains(BodyOf(req), title)
  {
    SoapActionHeaderRoundTrip("SetAVTransportURI");
    VideoBodyCarries(uri, title);
  }

  /**
   * Whatever the title, the video request carries the video item's DIDL-Lite,
   * escaped once, in CurrentURIMetaData: a title with markup is not escaped
   * before it is placed in the DIDL-Lite.
   */
  lemma VideoRequestMetadata(tv: TV, uri: string, title: string)
    ensures var req := SetAVTransportURIForVideoRequest(tv, uri, title);
            Contains(BodyOf(req), Element("CurrentURIMetaData", EscapeXML(ItemDidl(VideoItem(uri, title)))))
  {
    SetURIEnvelopeCarries(uri, ItemDidl(VideoItem(uri, title)));
  }

  /** play sends InstanceID 0 at Speed 1; stop sends InstanceID 0. */
  lemma PlayStopRequestsCarry(tv: TV)
    ensures var req := PlayRequest(tv);
            && ActionOfHeader(SoapActionOf(req)) == Some("Play")
            && Contains(BodyOf(req), Element("InstanceID", "0"))
            && Contains(BodyOf(req), Element("Speed", "1"))
    ensures var req := StopRequest(tv);
            && ActionOfHeader(SoapActionOf(req)) == Some("Stop")
            && Contains(BodyOf(req), Element("InstanceID", "0"))
  {
    SoapActionHeaderRoundTrip("Play");
    SoapActionHeaderRoundTrip("Stop");
    PlayArguments();
    StopArguments();
  }

  /** What came back for one POST: a status and the body read, or no response at all. */
  datatype SoapReply = Delivered(status: int, body: string) | Undelivered(reason: string)

  datatype SoapError =
    | RequestFailed(reason: string)       // the request could not be built or sent
    | HttpStatus(status: int, body: string) // "SOAP error: HTTP <status>: <body>"
    | UPnPFault(body: string)              // "UPnP error: <body>"

  const StatusOK := 200

  /** sendSOAP's verdict on a reply. */
  function ClassifyReply(reply: SoapReply): (r: Outcome<SoapError>)
    ensures r.Pass? <==> reply.Delivered? && reply.status == StatusOK && !Contains(reply.body, "<UPnPError")
    ensures reply.Undelivered? ==> r == Fail(RequestFailed(reply.reason))
    ensures reply.Delivered? && reply.status != StatusOK ==> r == Fail(HttpStatus(reply.status, reply.body))
    ensures reply.Delivered? && reply.status == StatusOK && Contains(reply.body, "<UPnPError") ==>
              r == Fail(UPnPFault(reply.body))
  {
    match reply
    case Undelivered(reason) => Fail(RequestFailed(reason))
    case Delivered(status, body) =>
      if status != StatusOK then Fail(HttpStatus(status, body))
      else if Contains(body, "<UPnPError") then Fail(UPnPFault(body))
      else Pass
  }

  /**
   * The devices' side of the HTTP exchanges: every POST is appended to `log`,
   * and the reply to the k-th POST (counting from 0) is `respond(k, request)`.
   */
  class SoapNetwork {
    var log: seq<SoapRequest>
    const respond: (nat, SoapRequest) -> SoapReply

    constructor (respond: (nat, SoapRequest) -> SoapReply)
      ensures log == [] && this.respond == respond
    {
      log := [];
      this.respond := respond;
    }

    method Post(req: SoapRequest) returns (reply: SoapReply)
      modifies this
      ensures log == old(log) + [req]
      ensures reply == respond(|old(log)|, req)
    {
      reply := respond(|log|, req);
      log := log + [req];
    }
  }

  /** The outcome sendSOAP reports for `req` when it is the k-th POST. */
  function SendOutcome(net: SoapNetwork, k: nat, req: SoapRequest): Outcome<SoapError> {
    ClassifyReply(net.respond(k, req))
  }

  /** sendSOAP: POST the invocation to the TV's control URL and classify the reply. */
  method SendSOAP(net: SoapNetwork, tv: TV, cmd: Command) returns (r: Outcome<SoapError>)
    modifies net
    ensures net.log == old(net.log) + [SoapRequest(tv.controlURL, cmd)]
    ensures r == SendOutcome(net, |old(net.log)|, SoapRequest(tv.controlURL, cmd))
  {
    var reply := net.Post(SoapRequest(tv.controlURL, cmd));
    r := ClassifyReply(reply);
  }

  method SetAVTransportURI(net: SoapNetwork, tv: TV, uri: string) returns (r: Outcome<SoapError>)
    modifies net
    ensures net.log == old(net.log) + [SetAVTransportURIRequest(tv, uri)]
    ensures r == SendOutcome(net, |old(net.log)|, SetAVTransportURIRequest(tv, uri))
  {
    r := SendSOAP(net, tv, SetURI(uri, ImageItem(uri)));
  }

  method SetAVTransportURIForVideo(net: SoapNetwork, tv: TV, uri: string, title: string)
    returns (r: Outcome<SoapError>)
    modifies net
    ensures net.log == old(net.log) + [SetAVTransportURIForVideoRequest(tv, uri, title)]
    ensures r == SendOutcome(net, |old(net.log)|, SetAVTransportURIForVideoRequest(tv, uri, title))
  {
    r := SendSOAP(net, tv, SetURI(uri, VideoItem(uri, title)));
  }

  method SetNextAVTransportURI(net: SoapNetwork, tv: TV, uri: string) returns (r: Outcome<SoapError>)
    modifies net
    ensures net.log == old(net.log) + [SetNextAVTransportURIRequest(tv, uri)]
    ensures r == SendOutcome(net, |old(net.log)|, SetNextAVTransportURIRequest(tv, uri))
  {
    r := SendSOAP(net, tv, SetNextURI(uri, ImageItem(uri)));
  }

  method Play(net: SoapNetwork, tv: TV) returns (r: Outcome<SoapError>)
    modifies net
    ensures net.log == old(net.log) + [PlayRequest(tv)]
    ensures r == SendOutcome(net, |old(net.log)|, PlayRequest(tv))
  {
    r := SendSOAP(net, tv, PlayCommand);
  }

  method Stop(net: SoapNetwork, tv: TV) returns (r: Outcome<SoapError>)
    modifies net
    ensures net.log == old(net.log) + [StopRequest(tv)]
    ensures r == SendOutcome(net, |old(net.log)|, StopRequest(tv))
  {
    r := SendSOAP(net, tv, StopCommand);
  }
}

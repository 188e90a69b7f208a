/**
 * SSDP discovery (section 1 of the UPnP Device Architecture 1.0): parsing
 * the M-SEARCH responses, fetching each new device description once, and
 * collecting the renderers that could be described.
 */
module Discovery {
  import opened Wrappers
  import opened Text
  import opened Tv

  // ---------------------------------------------------------------------------
  // Parsing one response

  /** The three headers kept from an SSDP response. */
  datatype SsdpResponse = SsdpResponse(location: string, server: string, usn: string)

  const EmptyResponse := SsdpResponse("", "", "")

  /** bufio.Reader.ReadString('\n') that succeeds: the line with its '\n', and what follows. */
  function NextLine(s: string): (r: Option<(string, string)>)
    ensures r.None? <==> '\n' !in s
    ensures r.Some? ==> s == r.value.0 + r.value.1 && |r.value.0| > 0
    ensures r.Some? ==> var line := r.value.0;
              line[|line| - 1] == '\n' && '\n' !in line[..|line| - 1]
  {
    match IndexOf(s, '\n')
    case None => None
    case Some(i) =>
      assert s == s[..i + 1] + s[i + 1..];
      assert s[..i + 1][..i] == s[..i];
      Some((s[..i + 1], s[i + 1..]))
  }

  /** Records `value` under a (lower-cased) header name the client keeps; other names are ignored. */
  function SetHeader(resp: SsdpResponse, key: string, value: string): SsdpResponse {
    if key == "location" then resp.(location := value)
    else if key == "server" then resp.(server := value)
    else if key == "usn" then resp.(usn := value)
    else resp
  }

  /** One header line: trimmed, split at its first ':', name trimmed and lower-cased, value trimmed. */
  function ApplyHeader(resp: SsdpResponse, line: string): SsdpResponse {
    var t := TrimSpace(line);
    match IndexOf(t, ':')
    case None => resp
    case Some(i) => SetHeader(resp, ToLower(TrimSpace(t[..i])), TrimSpace(t[i + 1..]))
  }

  predicate IsBlankLine(line: string) {
    line == "\r\n" || line == "\n"
  }

  /** The header loop: until the input has no complete line left or a blank line is met. */
  function ParseHeaders(resp: SsdpResponse, s: string): SsdpResponse
    decreases |s|
  {
    match NextLine(s)
    case None => resp
    case Some((line, rest)) =>
      if IsBlankLine(line) then resp else ParseHeaders(ApplyHeader(resp, line), rest)
  }

  /** What parseSSDP makes of a datagram: the status line skipped, then the headers. */
  function SsdpOf(data: string): SsdpResponse {
    match NextLine(data)
    case None => EmptyResponse
    case Some((_, rest)) => ParseHeaders(EmptyResponse, rest)
  }

  /** parseSSDP, reading the datagram line by line. */
  method ParseSSDP(data: string) returns (resp: SsdpResponse)
    ensures resp == SsdpOf(data)
  {
    resp := EmptyResponse;
    var rest := data;
    var status := IndexOf(rest, '\n');
    if status.None? {
      return;
    }
    rest := rest[status.value + 1..];
    var nl := IndexOf(rest, '\n');
    while nl.Some? && !(rest[..nl.value + 1] == "\r\n" || rest[..nl.value + 1] == "\n")
      invariant nl == IndexOf(rest, '\n')
      invariant ParseHeaders(resp, rest) == SsdpOf(data)
      decreases |rest|
    {
      var line := rest[..nl.value + 1];
      rest := rest[nl.value + 1..];
      line := TrimSpace(line);
      var colon := IndexOf(line, ':');
      if colon.Some? {
        var key := ToLower(TrimSpace(line[..colon.value]));
        var value := TrimSpace(line[colon.value + 1..]);
        if key == "location" {
          resp := resp.(location := value);
        } else if key == "server" {
          resp := resp.(server := value);
        } else if key == "usn" {
          resp := resp.(usn := value);
        }
      }
      nl := IndexOf(rest, '\n');
    }
  }

  /** A datagram without a complete status line carries nothing. */
  lemma SsdpWithoutStatusLine(data: string)
    requires '\n' !in data
    ensures SsdpOf(data) == EmptyResponse
  {
  }

  /** The status line is never read as a header, whatever it holds. */
  lemma SsdpSkipsStatusLine(status: string, rest: string)
    requires '\n' !in status
    ensures SsdpOf(status + "\n" + rest) == ParseHeaders(EmptyResponse, rest)
  {
    var s := status + "\n" + rest;
    IndexOfAt(s, '\n', |status|);
    assert s[..|status|] == status;
    assert s[|status| + 1..] == rest;
  }

  /** A blank line ends the headers; nothing after it is read. */
  lemma ParseStopsAtBlankLine(resp: SsdpResponse, line: string, rest: string)
    requires IsBlankLine(line)
    ensures ParseHeaders(resp, line + rest) == resp
  {
    var s := line + rest;
    IndexOfAt(s, '\n', |line| - 1);
    assert s[..|line|] == line;
  }

  /** A final line without '\n' is dropped (ReadString reports EOF). */
  lemma ParseDropsUnterminatedLine(resp: SsdpResponse, s: string)
    requires '\n' !in s
    ensures ParseHeaders(resp, s) == resp
  {
  }

  /** A complete non-blank line is applied, then parsing goes on after it. */
  lemma ParseHeaderLine(resp: SsdpResponse, line: string, rest: string)
    requires |line| > 0 && line[|line| - 1] == '\n' && '\n' !in line[..|line| - 1]
    requires !IsBlankLine(line)
    ensures ParseHeaders(resp, line + rest) == ParseHeaders(ApplyHeader(resp, line), rest)
  {
    var s := line + rest;
    assert s[..|line| - 1] == line[..|line| - 1];
    IndexOfAt(s, '\n', |line| - 1);
    assert s[..|line|] == line && s[|line|..] == rest;
  }

  /** A line with no ':' in it changes nothing. */
  lemma ApplyHeaderNoColon(resp: SsdpResponse, line: string)
    requires ':' !in line
    ensures ApplyHeader(resp, line) == resp
  {
    var t := TrimSpace(line);
    assert forall c :: c in t ==> c in line by {
      forall c | c in t ensures c in line {
        var j :| 0 <= j < |t| && t[j] == c;
        var l := TrimLeft(line);
        assert t == l[..|t|];
        assert l[j] == line[|line| - |l| + j];
      }
    }
  }

  /**
   * A header line "name:value\r\n" sets the field its name designates,
   * ignoring case and white space around the name, to the value without
   * its surrounding white space; a ':' inside the value is kept.
   */
  lemma ApplyHeaderNameValue(resp: SsdpResponse, name: string, value: string)
    requires ':' !in name
    ensures ApplyHeader(resp, name + ":" + value + "\r\n") ==
              SetHeader(resp, ToLower(TrimSpace(name)), TrimSpace(value))
  {
    var tail := value + "\r\n";
    HeaderLineTrimmed(name, tail);
    HeaderLineShape(name, value);
    ApplyTrimmedHeader(resp, name + [':'] + tail, TrimLeft(name), TrimRight(tail));
    TrimSpaceAfterTrimLeft(name);
    TrimSpaceAfterTrimRight(tail);
    TrimSpaceDropsCrLf(value);
  }

  lemma HeaderLineShape(name: string, value: string)
    ensures name + ":" + value + "\r\n" == name + [':'] + (value + "\r\n")
  {
  }

  lemma HeaderLineTrimmed(name: string, tail: string)
    requires ':' !in name
    ensures TrimSpace(name + [':'] + tail) == TrimLeft(name) + [':'] + TrimRight(tail)
    ensures ':' !in TrimLeft(name)
  {
    TrimSpaceAround(name, ':', tail);
    TrimLeftKeepsOut(name, ':');
  }

  lemma ApplyTrimmedHeader(resp: SsdpResponse, line: string, key: string, value: string)
    requires TrimSpace(line) == key + [':'] + value && ':' !in key
    ensures ApplyHeader(resp, line) == SetHeader(resp, ToLower(TrimSpace(key)), TrimSpace(value))
  {
    IndexOfSplit(key, ':', value);
  }

  /**
   * A response whose status line is followed by a LOCATION header (in any
   * letter case), a blank line and anything else announces that location.
   */
  lemma SsdpAnnouncesLocation(status: string, name: string, value: string, rest: string)
    requires '\n' !in status && '\n' !in name && '\n' !in value && ':' !in name
    requires ToLower(TrimSpace(name)) == "location"
    ensures SsdpOf(status + "\n" + name + ":" + value + "\r\n" + "\r\n" + rest).location == TrimSpace(value)
  {
    var line := name + ":" + value + "\r\n";
    AnnouncementShape(status, name, value, rest);
    SsdpSkipsStatusLine(status, line + ("\r\n" + rest));
    HeaderLineIsLine(name, value);
    ParseHeaderLine(EmptyResponse, line, "\r\n" + rest);
    ApplyHeaderNameValue(EmptyResponse, name, value);
    ParseStopsAtBlankLine(SetHeader(EmptyResponse, "location", TrimSpace(value)), "\r\n", rest);
  }

  lemma AnnouncementShape(status: string, name: string, value: string, rest: string)
    ensures status + "\n" + name + ":" + value + "\r\n" + "\r\n" + rest ==
            status + "\n" + ((name + ":" + value + "\r\n") + ("\r\n" + rest))
  {
  }

  lemma HeaderLineIsLine(name: string, value: string)
    requires '\n' !in name && '\n' !in value
    ensures var line := name + ":" + value + "\r\n";
            && |line| > 0 && line[|line| - 1] == '\n' && '\n' !in line[..|line| - 1]
            && !IsBlankLine(line)
  {
    var line := name + ":" + value + "\r\n";
    assert line[..|line| - 1] == name + ":" + value + "\r";
  }

  // ---------------------------------------------------------------------------
  // Fetching a description

  /** The outcome of decoding a description body as XML. */
  datatype DescriptionBody = Decoded(desc: DeviceDescription) | Undecodable(reason: string)

  /** What the HTTP GET of a description location produced. */
  datatype DescriptionReply = GetFailed(reason: string) | Got(status: int, body: DescriptionBody)

  datatype FetchError =
    | InvalidLocation                // the request could not be built from the location
    | GetError(reason: string)
    | HttpError(status: int)         // "HTTP <status>"
    | DecodeError(reason: string)
    | Undescribable(err: DescribeError)

  /**
   * fetchTVInfo for one location: `loc` is the location as url.Parse splits
   * it (None when it does not parse), `reply` what the GET returned.
   */
  function FetchTVInfo(loc: Option<LocationURL>, reply: DescriptionReply): Result<TV, FetchError> {
    match loc
    case None => Failure(InvalidLocation)
    case Some(u) =>
      match reply
      case GetFailed(reason) => Failure(GetError(reason))
      case Got(status, body) =>
        if status != StatusOK then Failure(HttpError(status))
        else match body
          case Undecodable(reason) => Failure(DecodeError(reason))
          case Decoded(desc) =>
            match Describe(desc, u)
            case Failure(e) => Failure(Undescribable(e))
            case Success(tv) => Success(tv)
  }

  /**
   * A location yields a TV exactly when it parses, the GET answers 200 with
   * a decodable description, and that description names a usable
   * AVTransport service; the TV is then the one the description gives.
   */
  lemma FetchTVInfoOutcome(loc: Option<LocationURL>, reply: DescriptionReply)
    ensures var r := FetchTVInfo(loc, reply);
            && (r.Success? <==>
                  && loc.Some? && reply.Got? && reply.status == StatusOK && reply.body.Decoded?
                  && Describe(reply.body.desc, loc.value).Success?)
            && (r.Success? ==> r.value == Describe(reply.body.desc, loc.value).value)
            && (loc.None? ==> r == Failure(InvalidLocation))
            && (loc.Some? && reply.GetFailed? ==> r == Failure(GetError(reply.reason)))
            && (loc.Some? && reply.Got? && reply.status != StatusOK ==> r == Failure(HttpError(reply.status)))
  {
  }

  // ---------------------------------------------------------------------------
  // The discovery loop

  /** The parsed form of each datagram. */
  function Responses(datagrams: seq<string>): (rs: seq<SsdpResponse>)
    ensures |rs| == |datagrams|
    ensures forall i :: 0 <= i < |rs| ==> rs[i] == SsdpOf(datagrams[i])
  {
    seq(|datagrams|, i requires 0 <= i < |datagrams| => SsdpOf(datagrams[i]))
  }

  /** The non-empty locations the responses announce, in arrival order. */
  function Locations(rs: seq<SsdpResponse>): seq<string> {
    if rs == [] then []
    else
      var l := rs[|rs| - 1].location;
      Locations(rs[..|rs| - 1]) + (if l == "" then [] else [l])
  }

  lemma {:induction false} LocationsMembers(rs: seq<SsdpResponse>, l: string)
    ensures l in Locations(rs) <==> l != "" && exists i :: 0 <= i < |rs| && rs[i].location == l
  {
    if rs != [] {
      var init := rs[..|rs| - 1];
      LocationsMembers(init, l);
      if l != "" && l !in Locations(init) && rs[|rs| - 1].location != l {
        forall i | 0 <= i < |rs| ensures rs[i].location != l {
          if i < |init| {
            assert init[i] == rs[i];
          }
        }
      }
      if i :| 0 <= i < |init| && init[i].location == l {
        assert rs[i] == init[i];
      }
    }
  }

  lemma LocationsSnoc(rs: seq<SsdpResponse>, r: SsdpResponse)
    ensures Locations(rs + [r]) == Locations(rs) + (if r.location == "" then [] else [r.location])
  {
    assert (rs + [r])[..|rs|] == rs;
  }

  predicate NoDuplicates(xs: seq<string>) {
    forall i, j :: 0 <= i < j < |xs| ==> xs[i] != xs[j]
  }

  /** The first occurrence of each element, in order. */
  function Dedup(xs: seq<string>): seq<string> {
    if xs == [] then []
    else
      var d := Dedup(xs[..|xs| - 1]);
      var x := xs[|xs| - 1];
      if x in d then d else d + [x]
  }

  /** Dedup keeps exactly the elements of its input, each once. */
  lemma {:induction false} DedupProperties(xs: seq<string>)
    ensures NoDuplicates(Dedup(xs))
    ensures forall x :: x in Dedup(xs) <==> x in xs
  {
    if xs != [] {
      var init := xs[..|xs| - 1];
      DedupProperties(init);
      assert xs == init + [xs[|xs| - 1]];
    }
  }

  lemma DedupSnoc(xs: seq<string>, x: string)
    ensures Dedup(xs + [x]) == if x in Dedup(xs) then Dedup(xs) else Dedup(xs) + [x]
  {
    assert (xs + [x])[..|xs|] == xs;
  }

  /** The TVs that fetching and describing the given locations yields, in order. */
  function Described(locations: seq<string>, fetch: string -> DescriptionReply,
                     parseURL: string -> Option<LocationURL>): seq<TV> {
    if locations == [] then []
    else
      var l := locations[|locations| - 1];
      var r := FetchTVInfo(parseURL(l), fetch(l));
      Described(locations[..|locations| - 1], fetch, parseURL) + (if r.Success? then [r.value] else [])
  }

  /**
   * Every TV reported comes from one of the locations, and a location
   * whose description could be fetched and decoded is reported.
   */
  lemma {:induction false} DescribedMembers(locations: seq<string>, fetch: string -> DescriptionReply,
                                            parseURL: string -> Option<LocationURL>)
    ensures |Described(locations, fetch, parseURL)| <= |locations|
    ensures forall tv :: tv in Described(locations, fetch, parseURL) ==>
              exists l :: l in locations && FetchTVInfo(parseURL(l), fetch(l)) == Success(tv)
    ensures forall l :: l in locations && FetchTVInfo(parseURL(l), fetch(l)).Success? ==>
              FetchTVInfo(parseURL(l), fetch(l)).value in Described(locations, fetch, parseURL)
  {
    if locations != [] {
      var init := locations[..|locations| - 1];
      DescribedMembers(init, fetch, parseURL);
      assert locations == init + [locations[|locations| - 1]];
    }
  }

  lemma DescribedSnoc(locations: seq<string>, l: string, fetch: string -> DescriptionReply,
                      parseURL: string -> Option<LocationURL>)
    ensures var r := FetchTVInfo(parseURL(l), fetch(l));
            Described(locations + [l], fetch, parseURL) ==
              Described(locations, fetch, parseURL) + (if r.Success? then [r.value] else [])
  {
    assert (locations + [l])[..|locations|] == locations;
  }

  datatype DiscoverError = SocketError(reason: string) | Cancelled

  /** How many datagrams the loop takes in before it stops. */
  function Received(datagrams: seq<string>, cancelAt: Option<nat>): (n: nat)
    ensures n <= |datagrams|
    ensures cancelAt.None? ==> n == |datagrams|
    ensures cancelAt.Some? && cancelAt.value <= |datagrams| ==> n == cancelAt.value
    ensures cancelAt.Some? && cancelAt.value > |datagrams| ==> n == |datagrams|
  {
    if cancelAt.Some? && cancelAt.value <= |datagrams| then cancelAt.value else |datagrams|
  }

  /** The locations Discover probes: each location announced before it stops, once. */
  function Probed(datagrams: seq<string>): seq<string> {
    Dedup(Locations(Responses(datagrams)))
  }

  lemma ProbedSnoc(datagrams: seq<string>, i: int)
    requires 0 <= i < |datagrams|
    ensures var l := SsdpOf(datagrams[i]).location;
            Probed(datagrams[..i + 1]) ==
              if l == "" || l in Probed(datagrams[..i]) then Probed(datagrams[..i])
              else Probed(datagrams[..i]) + [l]
  {
    var r := SsdpOf(datagrams[i]);
    assert Responses(datagrams[..i + 1]) == Responses(datagrams[..i]) + [r];
    LocationsSnoc(Responses(datagrams[..i]), r);
    var ls := Locations(Responses(datagrams[..i]));
    if r.location == "" {
      assert ls + [] == ls;
    } else {
      DedupSnoc(ls, r.location);
    }
  }

  /**
   * Discover. `socket` is the outcome of opening the socket and sending the
   * M-SEARCH; `datagrams` are the responses received before the read
   * deadline; the context is found cancelled before the read following the
   * first `cancelAt` datagrams; `fetch` gives the reply to the GET of a
   * location and `parseURL` its url.Parse split. `probed` lists the
   * locations handed to fetchTVInfo, in order.
   */
  method Discover(socket: Outcome<string>, datagrams: seq<string>, cancelAt: Option<nat>,
                  fetch: string -> DescriptionReply, parseURL: string -> Option<LocationURL>)
    returns (tvs: seq<TV>, err: Outcome<DiscoverError>, probed: seq<string>)
    ensures socket.Fail? ==> tvs == [] && probed == [] && err == Fail(SocketError(socket.error))
    ensures socket.Pass? ==>
              && probed == Probed(datagrams[..Received(datagrams, cancelAt)])
              && tvs == Described(probed, fetch, parseURL)
              && (err == Fail(Cancelled) <==> cancelAt.Some? && cancelAt.value <= |datagrams|)
              && (err.Pass? <==> !(cancelAt.Some? && cancelAt.value <= |datagrams|))
  {
    tvs, probed := [], [];
    if socket.Fail? {
      return tvs, Fail(SocketError(socket.error)), probed;
    }
    var seen: map<string, bool> := map[];
    var i := 0;
    assert datagrams[..0] == [];
    while i < |datagrams| && !(cancelAt.Some? && cancelAt.value == i)
      invariant 0 <= i <= |datagrams|
      invariant cancelAt.Some? ==> i <= cancelAt.value
      invariant probed == Probed(datagrams[..i])
      invariant forall l :: (l in seen && seen[l]) <==> l in probed
      invariant tvs == Described(probed, fetch, parseURL)
    {
      var resp := ParseSSDP(datagrams[i]);
      ProbedSnoc(datagrams, i);
      i := i + 1;
      if resp.location != "" && !(resp.location in seen && seen[resp.location]) {
        seen := seen[resp.location := true];
        DescribedSnoc(probed, resp.location, fetch, parseURL);
        probed := probed + [resp.location];
        var tv := FetchTVInfo(parseURL(resp.location), fetch(resp.location));
        if tv.Success? {
          tvs := tvs + [tv.value];
        }
      }
    }
    if cancelAt.Some? && cancelAt.value == i {
      return tvs, Fail(Cancelled), probed;
    }
    assert datagrams[..i] == datagrams;
    return tvs, Pass, probed;
  }

  /**
   * Every announced location is probed exactly once, however often and in
   * whatever order it was announced, and nothing else is probed.
   */
  lemma ProbedOnce(datagrams: seq<string>, l: string)
    ensures var p := Probed(datagrams);
            && (l in p <==> l != "" && exists i :: 0 <= i < |datagrams| && SsdpOf(datagrams[i]).location == l)
            && forall i, j :: 0 <= i < j < |p| ==> p[i] != p[j]
  {
    var rs := Responses(datagrams);
    DedupProperties(Locations(rs));
    LocationsMembers(rs, l);
    if l in Probed(datagrams) {
      var i :| 0 <= i < |rs| && rs[i].location == l;
      assert SsdpOf(datagrams[i]).location == l;
    }
    if i :| 0 <= i < |datagrams| && SsdpOf(datagrams[i]).location == l {
      assert rs[i].location == l;
    }
  }

  /** A datagram announcing an already-probed location, or none, adds nothing to probe. */
  lemma RepeatedAnnouncementIgnored(datagrams: seq<string>, d: string)
    requires SsdpOf(d).location == "" || SsdpOf(d).location in Probed(datagrams)
    ensures Probed(datagrams + [d]) == Probed(datagrams)
  {
    var ds := datagrams + [d];
    ProbedSnoc(ds, |datagrams|);
    assert ds[..|datagrams|] == datagrams && ds[..|datagrams| + 1] == ds;
  }
}

# nimsforestsmarttv protocol core in Dafny

A model of the protocol layer of nimsforestsmarttv, a controller that finds
DLNA/UPnP media renderers (smart TVs) on the local network and pushes
images, an MJPEG-style "latest frame" stream and HLS video to them.

It covers four pieces.

- **Device descriptions and AVTransport control** (`tv.dfy`, module `Tv`):
  - what `parseDeviceDescription` does once the XML is decoded: the base URL, the first AVTransport service, the absolute control URL and the port;
  - `escapeXML` and its inverse;
  - the SOAP envelopes for SetAVTransportURI, SetNextAVTransportURI, Play and Stop;
  - the SOAPAction header;
  - `sendSOAP`'s verdict on a reply;
  - `TV.String`.
- **SSDP discovery** (`discovery.dfy`, module `Discovery`):
  - the line-oriented `parseSSDP` header parser;
  - the status check in `fetchTVInfo`;
  - the `Discover` loop over the received datagrams, with its `seen` map, the skipping of responses without a Location and the skipping of failed fetches.
- **The image server** (`server.dfy`, module `Server`):
  - the `ImageServer` state: the image map, the id counter and the latest frame;
  - `Store`, with its counter-derived paths and its one-entry eviction;
  - `UpdateLatestFrame`;
  - the `/img_…` and `/stream.jpg` handlers;
  - `URL` and `StreamURL`.
- **The renderer** (`rendering.dfy`, module `Rendering`):
  - the `playingTVs` map;
  - `DisplayJPEG`, `DisplayJPEGStream`, `DisplayHLS`, `DisplayVideo` and `Stop`, which sequence the store and the SOAP calls with early returns on error.

Two further files hold shared helpers:

- `text.dfy` (module `Text`): the string functions of Go's `strings` and the `%d` formatting and scanning of `fmt` that the core uses, with their lemmas. These are prefix, suffix, contains, index, replace-all, trimming, ASCII lower-casing and decimal formatting and parsing.
- `wrappers.dfy` (module `Wrappers`): `Option`, `Result` and `Outcome`.

The model stands in for the outside world as follows.

- **The TV's HTTP endpoint** is a `Tv.SoapNetwork` object. It appends every POST to `log` and answers the k-th POST with a reply function given at construction.
- **Discovery's inputs** are:
  - the outcome of opening the UDP socket;
  - the sequence of datagrams received before the deadline;
  - the position at which the context is found cancelled;
  - a function giving the GET reply for a location;
  - the `url.Parse` split of a location.
- **The local IP, the port and `time.Now().UnixNano()`** are parameters.

The model follows the code where the code and its comments differ.

- **Capacity:** `Store` evicts only when the map already has more than 10 entries (server.go:119), so the map holds up to 11 images, not the 10 the comment at server.go:118 promises.
- **Which entry is evicted:** the evicted entry is whichever one map iteration yields first, and Go does not specify that order. The model picks an arbitrary existing key (`:|`), not the oldest.
- **Escaping:** `setAVTransportURI` escapes only the DIDL-Lite metadata. The URI goes into `CurrentURI` unescaped, and the model keeps it so.

## Model

| member | source | states |
|---|---|---|
| Tv.FirstAVTransport | tv.go:64-70 | None exactly when no service type contains "AVTransport"; otherwise the index of the first one that does |
| Tv.FirstAVTransportIs | tv.go:64-70 | the first matching index is the one the search returns |
| Tv.BaseURL | tv.go:57-61 | URLBase when non-empty, else scheme://host; exactly one trailing "/" removed |
| Tv.ResolveControlURL | tv.go:77-82 | a control URL starting with "http" is kept; otherwise the result is base + "/" + the path without its leading "/" |
| Tv.PortOf | tv.go:84-88 | 80 when the location has no port; otherwise its decimal value when it fits an int (Sscanf leaves 80 on overflow) |
| Tv.PortOfDecimal | tv.go:84-88 | every printed port in range reads back unchanged |
| Tv.Describe | tv.go:44-97 | on success: non-empty control URL, name = FriendlyName, IP = location hostname, port and base URL as above |
| Tv.DescribeFails | tv.go:64-74 | failure with "no AVTransport service" exactly when no service matches or the first match has an empty control URL |
| Tv.DescribeUsesFirstMatch | tv.go:64-82 | only the first match counts: its control URL is resolved, and changing later services changes nothing |
| Tv.ParseDeviceDescription | tv.go:44-97 | the loop with break on the first match, and the local reassignments, compute exactly Describe |
| Tv.LabelShowsPort | tv.go:242-244 | String's "name (ip:port)" label shows the TV's port after its last ':', whatever the name and IP hold |
| Tv.Label | tv.go:242-244 | definition of String: name, " (", IP, ":", the decimal port, ")"; LabelShowsPort is its property |
| Tv.EscapeXMLConcat | tv.go:233-239 | escaping distributes over concatenation |
| Tv.EscapeXML | tv.go:233-239 | definition: the four ReplaceAll passes in the source order, "&" first; the lemmas below are its properties |
| Tv.EscapeXMLChar | tv.go:233-239 | on one character, the four ReplaceAll passes of escapeXML amount to the per-character escape |
| Tv.EscapeXMLSinglePass | tv.go:233-239 | because '&' is replaced first, the sequential replacements equal one simultaneous per-character escape, and no entity is escaped twice |
| Tv.EscapeXMLNoMarkup | tv.go:233-239 | the escaped text contains no raw '<', '>' or '"' |
| Tv.EscapeXMLPlain | tv.go:233-239 | text without the four metacharacters is left unchanged; the apostrophe is not escaped |
| Tv.EscapeXMLRoundTrip | tv.go:233-239 | unescaping the escaped text gives back the original |
| Tv.VideoContentTypeIsHls | tv.go:139-145 | "application/x-mpegURL" exactly when the URI contains "m3u8" (the suffix test adds nothing), else "video/mp2t" |
| Tv.VideoContentType | tv.go:139-145 | definition: the HasSuffix(".m3u8") or Contains("m3u8") test choosing between the two content types; VideoContentTypeIsHls is its property |
| Tv.SetURIEnvelopeCarries | tv.go:107-116 | the SetAVTransportURI body has the URI raw in CurrentURI and the escaped metadata in CurrentURIMetaData, and that metadata unescapes to the DIDL-Lite |
| Tv.SetNextEnvelopeCarries | tv.go:186-195 | the SetNextAVTransportURI body has the URI raw in NextURI and the escaped metadata in NextURIMetaData |
| Tv.Didl | tv.go:102 | definition of the DIDL-Lite item text (title, upnp class, protocolInfo content type, resource URI) that the three set-URI calls build |
| Tv.ItemDidl | tv.go:102 | the DIDL-Lite of an item record; ImageItem gives the photo item of tv.go:102, VideoItem the video item of tv.go:148 |
| Tv.SetURIEnvelope | tv.go:107-116 | definition of the SetAVTransportURI envelope: InstanceID 0, the URI, the escaped metadata; SetURIEnvelopeCarries is its property |
| Tv.SetNextEnvelope | tv.go:186-195 | definition of the SetNextAVTransportURI envelope: InstanceID 0, NextURI, escaped NextURIMetaData; SetNextEnvelopeCarries is its property |
| Tv.ActionName | tv.go:118 | the action name each call passes to sendSOAP: SetAVTransportURI, SetNextAVTransportURI, Play or Stop |
| Tv.CommandBody | tv.go:107-195 | the envelope each call passes to sendSOAP; the PlayBody and StopBody constants are the fixed envelopes of tv.go:123-131 and tv.go:169-176 |
| Tv.EscapedDidlShows | tv.go:148-160 | a title and content type without metacharacters appear verbatim in the escaped DIDL-Lite |
| Tv.VideoBodyCarries | tv.go:137-165 | the video SetAVTransportURI body carries the raw URI, the chosen content type and the title |
| Tv.ImageRequestCarries | tv.go:100-119 | setAVTransportURI posts to the control URL with action SetAVTransportURI, CurrentURI raw and the image DIDL-Lite escaped |
| Tv.VideoRequestCarries | tv.go:137-165 | setAVTransportURIForVideo posts SetAVTransportURI with the raw URI, its content type and the title |
| Tv.VideoRequestMetadata | tv.go:147-159 | for every title, markup included, CurrentURIMetaData holds the video DIDL-Lite escaped exactly once; the title is not escaped before it enters the DIDL-Lite |
| Tv.PlayArguments | tv.go:123-131 | the Play body carries InstanceID 0 and Speed 1 |
| Tv.StopArguments | tv.go:169-176 | the Stop body carries InstanceID 0 |
| Tv.PlayStopRequestsCarry | tv.go:122-179 | play and stop post the Play/Stop actions with those arguments |
| Tv.SoapActionHeaderRoundTrip | tv.go:208 | the SOAPAction header is "urn:schemas-upnp-org:service:AVTransport:1#action" in quotes, and the action can be read back from it |
| Tv.SoapActionHeader | tv.go:208 | definition of the quoted "urn:schemas-upnp-org:service:AVTransport:1#action" header; SoapActionHeaderRoundTrip is its property |
| Tv.ClassifyReply | tv.go:202-229 | success exactly for a 200 reply whose body has no "<UPnPError"; otherwise the matching error: transport failure, HTTP status with the body, or UPnP fault |
| Tv.SoapNetwork.Post | tv.go:210-218 | one POST is appended to the log and answered by the device's reply function |
| Tv.SendSOAP | tv.go:201-230 | exactly one request goes to the control URL, and its verdict is the classification of the reply |
| Tv.SetAVTransportURI | tv.go:100-119 | sends the SetAVTransportURI request for the image and reports its verdict |
| Tv.SetAVTransportURIForVideo | tv.go:137-165 | sends the video SetAVTransportURI request and reports its verdict |
| Tv.SetNextAVTransportURI | tv.go:182-198 | sends the SetNextAVTransportURI request and reports its verdict |
| Tv.Play | tv.go:122-134 | sends Play and reports its verdict |
| Tv.Stop | tv.go:168-179 | sends Stop and reports its verdict |
| Discovery.NextLine | discovery.go:107-111 | splits off the text up to and including the first '\n'; None exactly when there is none |
| Discovery.ParseSSDP | discovery.go:95-133 | the line loop that mutates the response computes exactly SsdpOf |
| Discovery.SsdpOf | discovery.go:95-133 | reference definition of parseSSDP: drop the status line, then ParseHeaders from the empty response |
| Discovery.ParseHeaders | discovery.go:107-131 | reference definition of the header loop: stop at a blank or unterminated line, otherwise apply the line and continue |
| Discovery.ApplyHeader | discovery.go:113-129 | reference definition of one line: TrimSpace, split at the first ":", lower-cased trimmed key, trimmed value; no colon leaves the response unchanged |
| Discovery.SetHeader | discovery.go:122-129 | the switch: location, server or usn overwrite their field; any other key changes nothing |
| Discovery.SsdpWithoutStatusLine | discovery.go:101-104 | input without a newline gives the empty response |
| Discovery.SsdpSkipsStatusLine | discovery.go:101-104 | the first line is always discarded |
| Discovery.ParseStopsAtBlankLine | discovery.go:108-111 | parsing stops at the first "\r\n" or "\n" line |
| Discovery.ParseDropsUnterminatedLine | discovery.go:107-111 | a final line without a newline is ignored |
| Discovery.ParseHeaderLine | discovery.go:107-131 | a terminated non-blank line is applied, and parsing goes on with the rest |
| Discovery.ApplyHeaderNoColon | discovery.go:113-117 | a line without ':' is skipped without aborting |
| Discovery.ApplyTrimmedHeader | discovery.go:113-129 | the key is the trimmed, lower-cased text before the first ':'; the value is the trimmed text after it, colons included |
| Discovery.ApplyHeaderNameValue | discovery.go:113-129 | a "name:value" line sets the field the name selects (only location, server and usn are kept), overwriting any earlier value |
| Discovery.SsdpAnnouncesLocation | discovery.go:95-133 | a response whose header line is named "location" in any case and spacing yields the trimmed value as its location, colons in the URL preserved |
| Discovery.FetchTVInfoOutcome | discovery.go:136-154 | a location yields a TV exactly when it parses, the GET answers 200 with a decodable description and that description is usable; otherwise the matching error, for instance "HTTP status" on non-200 |
| Discovery.FetchTVInfo | discovery.go:136-154 | definition of fetchTVInfo over the parsed location and the GET reply; FetchTVInfoOutcome is its property |
| Discovery.Responses | discovery.go:70 | definition: each datagram parsed with SsdpOf, in arrival order; ProbedOnce and the ensures of Discover are its properties |
| Discovery.LocationsMembers | discovery.go:71-73 | the announced locations are exactly the non-empty Location values |
| Discovery.DedupProperties | discovery.go:75-79 | the first-appearance dedup has no duplicates and loses no location |
| Discovery.DescribedMembers | discovery.go:82-88 | the TVs found come only from probed locations, and every location whose fetch succeeds contributes |
| Discovery.Received | discovery.go:55-58 | the datagrams read before the loop stops: the first cancelAt of them when the context is cancelled before they run out, otherwise all of them |
| Discovery.Locations | discovery.go:70-73 | reference definition: the non-empty Location values of the responses, in arrival order |
| Discovery.Dedup | discovery.go:75-79 | reference definition of the seen map: each value kept at its first appearance |
| Discovery.Probed | discovery.go:70-79 | reference definition of what Discover hands to fetchTVInfo: Dedup of Locations of the parsed datagrams |
| Discovery.Described | discovery.go:82-88 | reference definition: the successful fetchTVInfo results of the probed locations, in order, failures skipped |
| Discovery.Discover | discovery.go:27-92 | socket failure gives no TVs; otherwise the probed locations and the TVs are those of the datagrams read before cancellation, and the error is the context's exactly when it was cancelled |
| Discovery.ProbedOnce | discovery.go:71-79 | every announced location is fetched exactly once per pass, and nothing else is fetched |
| Discovery.RepeatedAnnouncementIgnored | discovery.go:75-79 | a datagram with no Location, or an already-seen one, adds nothing to fetch |
| Server.NextId | server.go:114 | the uint64 counter increments, wrapping to 0 at 2^64 |
| Server.IdAfterStep | server.go:114 | k+1 stores advance the counter one step beyond k stores |
| Server.IdsDistinct | server.go:114 | fewer than 2^64 stores apart, two ids differ |
| Server.ImagePath | server.go:115 | definition of the "/img_%d_%d.jpg" path; ImagePathRoundTrip and ImagePathInjective are its properties |
| Server.ImagePathRoundTrip | server.go:115 | the path "/img_id_nanos.jpg" can be parsed back into its id and timestamp |
| Server.ImagePathInjective | server.go:115 | distinct ids or timestamps give distinct paths |
| Server.ImagePathIsNotStream | server.go:51-53 | no image path is the stream path, so the two handlers never compete |
| Server.ImageURLsDistinct | server.go:115-128 | two stores with different ids give different URLs, even for identical bytes |
| Server.StoredURLsDistinct | server.go:113-128 | URLs from different stores less than 2^64 apart are different |
| Server.ImageHeaders | server.go:105-107 | definition: the headers handleImage sets (Content-Type image/jpeg, the decimal Content-Length, Cache-Control); ImageHeadersLength is its property |
| Server.StreamHeaders | server.go:79-86 | definition: the six headers handleStreamImage sets, Content-Type and Content-Length first; StreamHeadersLength is its property |
| Server.ImageHeadersLength | server.go:105-107 | the image response declares Content-Type image/jpeg and Content-Length equal to the image size |
| Server.StreamHeadersLength | server.go:79-86 | the stream response declares Content-Type image/jpeg and Content-Length equal to the frame size |
| Server.StoredFromBounded | server.go:117-126 | after a store the new path maps to the data; at most 11 entries remain; every other entry was there before, unchanged |
| Server.StoredFrom | server.go:117-125 | the map after one store: when more than 10 entries were present, one arbitrary present entry removed, then the new path set to the data; otherwise just the new path set |
| Server.StoredFromFresh | server.go:118-125 | a new path grows the map by one, unless more than 10 entries were present and one was evicted |
| Server.StoredFromKeys | server.go:117-126 | a store introduces no key except its own path |
| Server.StoredFromIssued | server.go:113-126 | a fresh id's path was not already stored, and every stored path carries an id already issued |
| Server.RemoveOne | server.go:120-123 | deleting one present key shrinks the map by exactly one |
| Server.ImageServer.constructor | server.go:29-66 | a new server has no images, counter 0 and no frame |
| Server.ImageServer.URL | server.go:149-151 | exactly "http://" + localIP + ":" + the decimal port, as the Sprintf formats it; the suffix reads back as the server's port |
| Server.ImageServer.StreamURL | server.go:139-141 | URL() followed by "/stream.jpg", the same for the server's whole life |
| Server.ImageServer.Store | server.go:113-129 | increments the counter; the returned URL is URL() + "/img_id_nanos.jpg"; the map is the old one with at most one entry evicted and the new path set to the data; latestFrame is untouched; the size bound holds |
| Server.ImageServer.UpdateLatestFrame | server.go:132-136 | replaces the frame and leaves the images and counter untouched |
| Server.ImageServer.HandleImage | server.go:92-110 | 404 exactly for a path not in the map; otherwise exactly the stored bytes, with Content-Length their length |
| Server.ImageServer.HandleStreamImage | server.go:69-89 | 404 exactly when no frame has been set; otherwise the latest frame with its length |
| Server.ServeImage | server.go:51-53 | a request for an image path reaches the image handler |
| Server.ServeStream | server.go:51-53 | a request for "/stream.jpg" reaches the stream handler |
| Server.ImageServer.Serve | server.go:51-53 | the ServeMux: exactly "/stream.jpg" goes to the stream handler, every other path to the image handler |
| Server.StoreTwice | server.go:113-129 | storing the same bytes twice yields two different URLs |
| Server.FillPastCapacity | server.go:118-125 | twelve stores from empty leave exactly 11 images, not 10 |
| Rendering.HLSTitle | renderer.go:145-147 | an empty title becomes "HLS Stream"; any other title is kept |
| Rendering.SetThenPlay | renderer.go:86-97 | set-URI is sent first; Play is sent exactly when set-URI succeeded; the call succeeds exactly when both do; each failure names its step |
| Rendering.SetThenPlaySucceeds | renderer.go:86-97 | against a TV that accepts everything, exactly set-URI and Play go out and the call succeeds |
| Rendering.Renderer.constructor | renderer.go:35-58 | the renderer starts with no TV marked as playing |
| Rendering.Renderer.DisplayJPEG | renderer.go:81-98 | keeps the renderer's Valid (its store's size and counter bounds); stores the image with Store's guarantees (new counter, StoredFrom the old map, the new path holding the data, frame untouched), then sends set-URI for its URL and Play, stopping at the first failure |
| Rendering.Renderer.DisplayJPEGStream | renderer.go:103-124 | always replaces the frame first. A TV already marked sees no request and the call succeeds. Otherwise set-URI(stream URL) and Play are sent, and only this TV's key is marked, only when both succeed |
| Rendering.Renderer.DisplayHLS | renderer.go:140-160 | sends the video set-URI with HLSTitle(title) and then Play, stopping at the first failure; the image store and frame are untouched |
| Rendering.Renderer.DisplayVideo | renderer.go:164-166 | sends the same requests and gives the same outcome as DisplayHLS |
| Rendering.Renderer.Stop | renderer.go:169-174 | removes only this TV's mark, before and whatever the outcome of the Stop request it then sends |
| Rendering.StreamTwice | renderer.go:103-124 | two pushes to an accepting TV send exactly one set-URI and one Play; the second frame is served |
| Rendering.StopThenStream | renderer.go:169-174 | after Stop the next push sends set-URI and Play again |
| Rendering.HLSWithoutTitle | hls_test.go:194-228 | with no title, DisplayHLS sends exactly the video set-URI titled "HLS Stream" and then Play |
| Rendering.JPEGSetFails | renderer.go:86-92 | when set-URI fails, the image is still stored, no Play is sent and the "set URI" step is reported |
| Rendering.JPEGKeepsEarlierImages | renderer.go:86 | below capacity DisplayJPEG evicts nothing: an earlier image is still served, and unchanged unless it had the new path |
| Text.DecimalRoundTrip | server.go:115 | the decimal digits of a number read back as that number |
| Text.ReplaceAllConcat | tv.go:233-239 | strings.ReplaceAll of one character distributes over concatenation |
| Text.TrimSpaceDropsCrLf | discovery.go:113 | TrimSpace removes the line's trailing "\r\n" |

## Left out

- **Discover's socket I/O is not modelled:**
  - the UDP socket, the M-SEARCH datagram and `WriteToUDP`;
  - the read deadline and the 65535-byte buffer (datagrams are taken whole);
  - the `ctx.Done()` select.

  These are I/O; they become the `socket`, `datagrams` and `cancelAt` inputs.
- Discover: `probed`, the sequence of locations passed to `fetchTVInfo`, is an extra result. It exposes the once-per-location property.
- **fetchTVInfo's HTTP client:** the request, the 5-second client timeout and the response body stream become a reply function of the location (`fetch`), whose body is already decoded. A request that cannot be built is folded into `InvalidLocation`, because these are I/O and library calls.
- **XML decoding and `url.Parse`:** `encoding/xml` decoding is replaced by a decoded `DeviceDescription` or an undecodable marker. The `url.Parse` split is replaced by a `LocationURL`, because those are foreign library calls.
- **sendSOAP's HTTP client:** the request building, headers and client are not modelled. Only the request (URL, SOAPAction, body), its log position and the reply are; the Content-Type header, the 10-second timeout and the `io.ReadAll` of the reply (taken as the reply's body string) are not modelled.
- Tv.SendSOAP: takes the action as a `Command`, from which `ActionName` and `CommandBody` derive the action string and body, instead of two free strings. Every caller in the source passes a matching pair.
- **getLocalIP, getLocalIPFallback, net.Listen, the serving goroutine and Close:** the local IP and port are constructor parameters, and a served request is `Serve(path)`. The Go 404 page text, ServeMux path cleaning and redirects are not modelled.
- **time.Now().UnixNano() in Store:** it is the `nanos` parameter.
- **sync.Mutex, sync.RWMutex and atomic.AddUint64:** everything is sequential, so the interleavings of concurrent handlers are not modelled.
- **Renderer.Display, DisplayText, DisplayTextWithOptions, RenderText, TextOptions and the JPEG encoding:** imaging code outside this model. The same goes for NewRenderer's option plumbing, Close and ServerURL.
- Rendering.Renderer.DisplayJPEGStream: always passes a frame (`Some`). The `nil` frame that the stream handler's 404 branch covers comes only through `UpdateLatestFrame(None)`.
- Tv.PortOf: Go's `int` is taken to be 64 bits wide. An `fmt.Sscanf` of a port beyond that range leaves the default 80, as the code does.
- Text.ToLower: folds only to ASCII results. That covers A-Z, U+0130 and the Kelvin sign. Every other rune is left as it is, unlike `strings.ToLower`. This is enough to compare against the ASCII header names location, server and usn.
- **Bytes versus characters:** Go strings are byte sequences (for example `string(buf[:n])` at discovery.go:70), while the model's strings are `seq<char>`. For the ASCII protocol text involved the behaviour is the same; byte-level effects of non-ASCII or invalid UTF-8 input are not modelled.
- **Logging** (`fmt.Printf`) and **the interactive CLI** in cmd/smarttv/main.go are not modelled.

/**
 * The HTTP image server the TVs fetch pictures from: a bounded map of stored
 * JPEG images addressed by counter-derived paths, and one streaming slot that
 * always holds the latest frame.
 */
module Server {
  import opened Wrappers
  import opened Text

  newtype byte = x: int | 0 <= x < 256

  /** The counter is a Go `uint64` bumped with atomic.AddUint64: it wraps at 2^64. */
  const Wrap: nat := 0x1_0000_0000_0000_0000

  /** The number of images above which Store evicts one before inserting. */
  const Capacity: nat := 10

  const StreamPath: string := "/stream.jpg"

  /** The id atomic.AddUint64(&counter, 1) hands out. */
  function NextId(c: nat): (r: nat)
    requires c < Wrap
    ensures r < Wrap
    ensures c + 1 < Wrap ==> r == c + 1
    ensures c + 1 == Wrap ==> r == 0
  {
    (c + 1) % Wrap
  }

  /** The id handed out by the `k`-th store after the counter held `c`. */
  function IdAfter(c: nat, k: nat): nat {
    (c + k) % Wrap
  }

  /** Each store advances the id by one step, wrap-around included. */
  lemma IdAfterStep(c: nat, k: nat)
    ensures NextId(IdAfter(c, k)) == IdAfter(c, k + 1)
  {
    var q := (c + k) / Wrap;
    assert c + k == q * Wrap + IdAfter(c, k);
    if IdAfter(c, k) + 1 < Wrap {
      assert c + k + 1 == q * Wrap + (IdAfter(c, k) + 1);
    } else {
      assert c + k + 1 == (q + 1) * Wrap;
    }
  }

  /** Fewer than 2^64 stores apart, two stores receive different ids. */
  lemma IdsDistinct(c: nat, i: nat, j: nat)
    requires i < j < i + Wrap
    ensures IdAfter(c, i) != IdAfter(c, j)
  {
    var qi := (c + i) / Wrap;
    var qj := (c + j) / Wrap;
    assert c + i == qi * Wrap + IdAfter(c, i);
    assert c + j == qj * Wrap + IdAfter(c, j);
  }

  /** The path `fmt.Sprintf("/img_%d_%d.jpg", id, nanos)` under which Store files an image. */
  function ImagePath(id: nat, nanos: int): string {
    "/img_" + Decimal(id) + "_" + IntToDecimal(nanos) + ".jpg"
  }

  /** Reads an image path back into its id and timestamp. */
  function ParseImagePath(p: string): Option<(nat, int)> {
    if |p| >= 9 && HasPrefix(p, "/img_") && HasSuffix(p, ".jpg") then
      var mid := p[5..|p| - 4];
      match IndexOf(mid, '_')
      case None => None
      case Some(i) =>
        match (ParseDecimal(mid[..i]), ParseInt(mid[i + 1..]))
        case (Some(id), Some(nanos)) => Some((id, nanos))
        case _ => None
    else None
  }

  lemma DigitsHaveNoUnderscore(s: string)
    requires IsDigits(s)
    ensures '_' !in s
  {
    forall i | 0 <= i < |s|
      ensures s[i] != '_'
    {
      assert IsDigit(s[i]);
    }
  }

  /** An image path names its id and timestamp unambiguously. */
  lemma ImagePathRoundTrip(id: nat, nanos: int)
    ensures ParseImagePath(ImagePath(id, nanos)) == Some((id, nanos))
  {
    var d := Decimal(id);
    var n := IntToDecimal(nanos);
    var p := ImagePath(id, nanos);
    var mid := d + ['_'] + n;
    assert p == "/img_" + mid + ".jpg";
    assert p[..5] == "/img_";
    assert p[|p| - 4..] == ".jpg";
    assert p[5..|p| - 4] == mid;
    DigitsHaveNoUnderscore(d);
    IndexOfSplit(d, '_', n);
    ParseDecimalRoundTrip(id);
    ParseIntRoundTrip(nanos);
  }

  /** Different (id, timestamp) pairs give different paths. */
  lemma ImagePathInjective(id1: nat, nanos1: int, id2: nat, nanos2: int)
    requires ImagePath(id1, nanos1) == ImagePath(id2, nanos2)
    ensures id1 == id2 && nanos1 == nanos2
  {
    ImagePathRoundTrip(id1, nanos1);
    ImagePathRoundTrip(id2, nanos2);
  }

  /** No image path collides with the streaming endpoint's route. */
  lemma ImagePathIsNotStream(id: nat, nanos: int)
    ensures ImagePath(id, nanos) != StreamPath
  {
    ImagePathRoundTrip(id, nanos);
    assert StreamPath[1] != "/img_"[1];
    assert !HasPrefix(StreamPath, "/img_");
  }

  /** What the HTTP handlers write: a 404 or a 200 with headers and a body. */
  datatype HttpResponse = NotFound | Ok(headers: seq<(string, string)>, body: seq<byte>)

  /** The value of the first header with the given name. */
  function HeaderValue(headers: seq<(string, string)>, name: string): (r: Option<string>)
    ensures r.Some? <==> exists i :: 0 <= i < |headers| && headers[i].0 == name
  {
    if headers == [] then None
    else if headers[0].0 == name then Some(headers[0].1)
    else
      var rest := HeaderValue(headers[1..], name);
      assert forall i :: 0 < i < |headers| ==> headers[i] == headers[1..][i - 1];
      rest
  }

  /** The body length a response announces in Content-Length, when it announces one. */
  function ContentLength(resp: HttpResponse): Option<nat> {
    if resp.NotFound? then None
    else match HeaderValue(resp.headers, "Content-Length")
      case None => None
      case Some(v) => ParseDecimal(v)
  }

  function ContentType(resp: HttpResponse): Option<string> {
    if resp.NotFound? then None else HeaderValue(resp.headers, "Content-Type")
  }

  /** Headers handleImage sets before writing a stored image. */
  function ImageHeaders(length: nat): seq<(string, string)> {
    [("Content-Type", "image/jpeg"),
     ("Content-Length", Decimal(length)),
     ("Cache-Control", "no-cache, no-store, must-revalidate")]
  }

  /** Headers handleStreamImage sets to make the TV fetch the frame again. */
  function StreamHeaders(length: nat): seq<(string, string)> {
    [("Content-Type", "image/jpeg"),
     ("Content-Length", Decimal(length)),
     ("Cache-Control", "no-cache, no-store, must-revalidate, max-age=0"),
     ("Pragma", "no-cache"),
     ("Expires", "Thu, 01 Jan 1970 00:00:00 GMT"),
     ("Refresh", "1")]
  }

  /** The Content-Length both handlers announce is the body length. */
  lemma ImageHeadersLength(n: nat)
    ensures HeaderValue(ImageHeaders(n), "Content-Length") == Some(Decimal(n))
    ensures HeaderValue(ImageHeaders(n), "Content-Type") == Some("image/jpeg")
  {
    var h := ImageHeaders(n);
    assert h[0].0 == "Content-Type" && h[1].0 == "Content-Length";
    assert h[0].0 != "Content-Length" by { assert h[0].0[8] != "Content-Length"[8]; }
    assert HeaderValue(h, "Content-Length") == HeaderValue(h[1..], "Content-Length");
  }

  lemma StreamHeadersLength(n: nat)
    ensures HeaderValue(StreamHeaders(n), "Content-Length") == Some(Decimal(n))
    ensures HeaderValue(StreamHeaders(n), "Content-Type") == Some("image/jpeg")
  {
    var h := StreamHeaders(n);
    assert h[0].0 == "Content-Type" && h[1].0 == "Content-Length";
    assert h[0].0 != "Content-Length" by { assert h[0].0[8] != "Content-Length"[8]; }
    assert HeaderValue(h, "Content-Length") == HeaderValue(h[1..], "Content-Length");
  }

  /**
   * The map Store leaves behind when it files `data` under `path`: when the
   * map held more than Capacity images, exactly one of them (any) is dropped
   * first; otherwise nothing is dropped.
   */
  ghost predicate StoredFrom(before: map<string, seq<byte>>, after: map<string, seq<byte>>,
                             path: string, data: seq<byte>)
  {
    if |before| > Capacity then
      exists k :: k in before && after == (before - {k})[path := data]
    else after == before[path := data]
  }

  /** Removing a present key shrinks a map by one. */
  lemma RemoveOne(m: map<string, seq<byte>>, k: string)
    requires k in m
    ensures |m - {k}| == |m| - 1
  {
    assert (m - {k}).Keys == m.Keys - {k};
  }

  /**
   * After a store the new image is present, the size stays within
   * Capacity + 1, and every other image still present is unchanged.
   */
  lemma StoredFromBounded(before: map<string, seq<byte>>, after: map<string, seq<byte>>,
                          path: string, data: seq<byte>)
    requires StoredFrom(before, after, path, data) && |before| <= Capacity + 1
    ensures path in after && after[path] == data
    ensures |after| <= Capacity + 1
    ensures forall p :: p in after && p != path ==> p in before && after[p] == before[p]
  {
    if |before| > Capacity {
      var k :| k in before && after == (before - {k})[path := data];
      RemoveOne(before, k);
    }
  }

  /** A store under a new path grows the map by one until it is over Capacity, then keeps its size. */
  lemma StoredFromFresh(before: map<string, seq<byte>>, after: map<string, seq<byte>>,
                        path: string, data: seq<byte>)
    requires StoredFrom(before, after, path, data) && path !in before
    ensures |after| == if |before| > Capacity then |before| else |before| + 1
  {
    if |before| > Capacity {
      var k :| k in before && after == (before - {k})[path := data];
      RemoveOne(before, k);
    }
  }

  /** Every path in the map is an image path whose id is at most `c`. */
  ghost predicate IssuedUpTo(images: map<string, seq<byte>>, c: nat) {
    forall p :: p in images ==> ParseImagePath(p).Some? && ParseImagePath(p).value.0 <= c
  }

  /** A store adds no path other than its own. */
  lemma StoredFromKeys(before: map<string, seq<byte>>, after: map<string, seq<byte>>,
                       path: string, data: seq<byte>)
    requires StoredFrom(before, after, path, data)
    ensures forall p :: p in after ==> p == path || p in before
  {
    if |before| > Capacity {
      var k :| k in before && after == (before - {k})[path := data];
    }
  }

  /**
   * Until the counter wraps, Store never overwrites an image: the path of
   * the next id is not in use, and once it is stored the next id bounds
   * every path again.
   */
  lemma StoredFromIssued(before: map<string, seq<byte>>, after: map<string, seq<byte>>,
                         c: nat, nanos: int, data: seq<byte>)
    requires IssuedUpTo(before, c)
    requires StoredFrom(before, after, ImagePath(c + 1, nanos), data)
    ensures ImagePath(c + 1, nanos) !in before
    ensures IssuedUpTo(after, c + 1)
  {
    var path := ImagePath(c + 1, nanos);
    ImagePathRoundTrip(c + 1, nanos);
    assert ParseImagePath(path).value.0 == c + 1;
    StoredFromKeys(before, after, path, data);
    forall p | p in after
      ensures ParseImagePath(p).Some? && ParseImagePath(p).value.0 <= c + 1
    {
      if p != path {
        assert p in before;
      }
    }
  }

  class ImageServer {
    const localIP: string
    const port: int
    /** Stored images by URL path. */
    var images: map<string, seq<byte>>
    var counter: nat
    /** The frame for streaming mode; None is Go's nil slice. */
    var latestFrame: Option<seq<byte>>

    /** The map never exceeds one more than Capacity; the counter is a uint64. */
    predicate Valid()
      reads this
    {
      |images| <= Capacity + 1 && counter < Wrap
    }

    /**
     * Every stored path is an image path whose id the counter has already
     * handed out; this holds until the counter wraps.
     */
    ghost predicate Issued()
      reads this
    {
      IssuedUpTo(images, counter)
    }

    /** The server as NewImageServer leaves it, on a given address. */
    constructor (localIP: string, port: int)
      ensures this.localIP == localIP && this.port == port
      ensures images == map[] && counter == 0 && latestFrame == None
      ensures Valid() && Issued()
    {
      this.localIP := localIP;
      this.port := port;
      images := map[];
      counter := 0;
      latestFrame := None;
    }

    /** `http://<localIP>:<port>`: the port reads back from what follows the address. */
    function URL(): (r: string)
      ensures r == "http://" + localIP + ":" + IntToDecimal(port)
      ensures HasPrefix(r, "http://" + localIP + ":")
      ensures ParseInt(r[|"http://" + localIP + ":"|..]) == Some(port)
    {
      var head := "http://" + localIP + ":";
      var url := head + IntToDecimal(port);
      ParseIntRoundTrip(port);
      assert url[|head|..] == IntToDecimal(port);
      url
    }

    /** The fixed URL of the streaming endpoint; it depends only on constants. */
    function StreamURL(): (r: string)
      ensures HasPrefix(r, URL()) && r[|URL()|..] == StreamPath
    {
      URL() + StreamPath
    }

    /**
     * Files `data` under a fresh path and returns its URL; when the map
     * already holds more than Capacity images, one arbitrary image is
     * dropped first.
     */
    method Store(data: seq<byte>, nanos: int) returns (url: string)
      requires Valid()
      modifies this
      ensures Valid()
      ensures counter == NextId(old(counter))
      ensures url == URL() + ImagePath(counter, nanos)
      ensures StoredFrom(old(images), images, ImagePath(counter, nanos), data)
      ensures ImagePath(counter, nanos) in images && images[ImagePath(counter, nanos)] == data
      ensures latestFrame == old(latestFrame)
    {
      counter := NextId(counter);
      var path := ImagePath(counter, nanos);
      ghost var before := images;
      if |images| > Capacity {
        var k :| k in images;
        images := images - {k};
        images := images[path := data];
        assert k in before && images == (before - {k})[path := data];
      } else {
        images := images[path := data];
      }
      url := URL() + path;
      StoredFromBounded(before, images, path, data);
    }

    /** Puts a new frame (or nil) into the streaming slot. */
    method UpdateLatestFrame(frame: Option<seq<byte>>)
      modifies this
      ensures latestFrame == frame
      ensures images == old(images) && counter == old(counter)
    {
      latestFrame := frame;
    }

    /** handleImage: the stored bytes for an exact path match, 404 otherwise. */
    function HandleImage(path: string): (r: HttpResponse)
      reads this
      ensures r.NotFound? <==> path !in images
      ensures r.Ok? ==> r.body == images[path]
      ensures r.Ok? ==> ContentLength(r) == Some(|r.body|)
      ensures r.Ok? ==> ContentType(r) == Some("image/jpeg")
    {
      if path in images then
        var r := Ok(ImageHeaders(|images[path]|), images[path]);
        ImageHeadersLength(|images[path]|);
        ParseDecimalRoundTrip(|images[path]|);
        r
      else NotFound
    }

    /** handleStreamImage: the latest frame, or 404 before any frame was set. */
    function HandleStreamImage(): (r: HttpResponse)
      reads this
      ensures r.NotFound? <==> latestFrame.None?
      ensures r.Ok? ==> r.body == latestFrame.value
      ensures r.Ok? ==> ContentLength(r) == Some(|r.body|)
      ensures r.Ok? ==> ContentType(r) == Some("image/jpeg")
    {
      match latestFrame
      case None => NotFound
      case Some(frame) =>
        var r := Ok(StreamHeaders(|frame|), frame);
        StreamHeadersLength(|frame|);
        ParseDecimalRoundTrip(|frame|);
        r
    }

    /** The HTTP mux: "/stream.jpg" goes to the stream handler, any other path to handleImage. */
    function Serve(path: string): HttpResponse
      reads this
    {
      if path == StreamPath then HandleStreamImage() else HandleImage(path)
    }
  }

  /**
   * A stored image is served under its path with its bytes, and a path that
   * is not stored gives 404: the stream route never shadows an image.
   */
  lemma ServeImage(s: ImageServer, id: nat, nanos: int)
    ensures var p := ImagePath(id, nanos);
            var r := s.Serve(p);
            (r.NotFound? <==> p !in s.images) &&
            (r.Ok? ==> r.body == s.images[p] && ContentLength(r) == Some(|r.body|))
  {
    ImagePathIsNotStream(id, nanos);
  }

  /** The stream route serves the latest frame. */
  lemma ServeStream(s: ImageServer)
    ensures var r := s.Serve(StreamPath);
            (r.NotFound? <==> s.latestFrame.None?) &&
            (r.Ok? ==> r.body == s.latestFrame.value)
  {
  }

  /** Image URLs on one server differ whenever their ids do, whatever the clock says. */
  lemma ImageURLsDistinct(base: string, id1: nat, nanos1: int, id2: nat, nanos2: int)
    requires id1 != id2
    ensures base + ImagePath(id1, nanos1) != base + ImagePath(id2, nanos2)
  {
    var u1 := base + ImagePath(id1, nanos1);
    var u2 := base + ImagePath(id2, nanos2);
    if u1 == u2 {
      assert u1[|base|..] == ImagePath(id1, nanos1);
      assert u2[|base|..] == ImagePath(id2, nanos2);
      ImagePathInjective(id1, nanos1, id2, nanos2);
    }
  }

  /** Two stores fewer than 2^64 apart return different URLs, whatever the bytes and clock. */
  lemma StoredURLsDistinct(base: string, c: nat, i: nat, j: nat, nanos1: int, nanos2: int)
    requires i < j < i + Wrap
    ensures base + ImagePath(IdAfter(c, i), nanos1) != base + ImagePath(IdAfter(c, j), nanos2)
  {
    IdsDistinct(c, i, j);
    ImageURLsDistinct(base, IdAfter(c, i), nanos1, IdAfter(c, j), nanos2);
  }

  /** Two back-to-back stores of the same bytes at the same instant get different URLs. */
  method StoreTwice(s: ImageServer, data: seq<byte>, nanos: int) returns (u1: string, u2: string)
    requires s.Valid()
    modifies s
    ensures u1 != u2
  {
    u1 := s.Store(data, nanos);
    ghost var id1 := s.counter;
    u2 := s.Store(data, nanos);
    ImageURLsDistinct(s.URL(), id1, nanos, s.counter, nanos);
  }

  /**
   * The eviction guard lets the map reach Capacity + 1 entries: eleven
   * stores into a new server keep all eleven images, and a twelfth keeps
   * the size at eleven.
   */
  method FillPastCapacity(localIP: string, port: int, data: seq<byte>, nanos: int)
    returns (s: ImageServer)
    ensures |s.images| == Capacity + 1
  {
    s := new ImageServer(localIP, port);
    var k := 0;
    while k < Capacity + 2
      invariant 0 <= k <= Capacity + 2
      invariant s.Valid() && s.Issued() && s.counter == k
      invariant |s.images| == if k <= Capacity + 1 then k else Capacity + 1
    {
      ghost var before := s.images;
      assert IssuedUpTo(before, k);
      var _ := s.Store(data, nanos);
      assert s.counter == k + 1;
      StoredFromIssued(before, s.images, k, nanos, data);
      StoredFromFresh(before, s.images, ImagePath(s.counter, nanos), data);
      k := k + 1;
    }
  }
}

/**
 * The renderer: the high-level display calls that combine the image server
 * with the TV's AVTransport actions, and the per-TV record of which TVs are
 * already playing the stream.
 */
module Rendering {
  import opened Wrappers
  import opened Tv
  import opened Server

  /** A failed display call: the step that failed ("set URI", "play", ...) and the SOAP error. */
  datatype RenderError = RenderError(step: string, cause: SoapError)

  const DefaultHLSTitle: string := "HLS Stream"

  /** The title DisplayHLS sends: the caller's, or "HLS Stream" when it is empty. */
  function HLSTitle(title: string): (r: string)
    ensures r != ""
    ensures title != "" ==> r == title
    ensures title == "" ==> r == DefaultHLSTitle
  {
    if title == "" then DefaultHLSTitle else title
  }

  /**
   * The exchange every display call performs once its URI is known: the
   * set-URI request is the k-th POST; Play follows only if it succeeded.
   * The result is the requests sent and the error reported.
   */
  function SetThenPlay(net: SoapNetwork, k: nat, setReq: SoapRequest, playReq: SoapRequest,
                       setStep: string, playStep: string): (res: (seq<SoapRequest>, Outcome<RenderError>))
    ensures res.0 == [setReq] || res.0 == [setReq, playReq]
    ensures res.0 == [setReq, playReq] <==> SendOutcome(net, k, setReq).Pass?
    ensures res.1.Pass? <==> SendOutcome(net, k, setReq).Pass? && SendOutcome(net, k + 1, playReq).Pass?
    ensures SendOutcome(net, k, setReq).Fail? ==>
              res.1 == Fail(RenderError(setStep, SendOutcome(net, k, setReq).error))
    ensures SendOutcome(net, k, setReq).Pass? && SendOutcome(net, k + 1, playReq).Fail? ==>
              res.1 == Fail(RenderError(playStep, SendOutcome(net, k + 1, playReq).error))
  {
    match SendOutcome(net, k, setReq)
    case Fail(e) => ([setReq], Fail(RenderError(setStep, e)))
    case Pass =>
      match SendOutcome(net, k + 1, playReq)
      case Fail(e) => ([setReq, playReq], Fail(RenderError(playStep, e)))
      case Pass => ([setReq, playReq], Pass)
  }

  /** A network on which every POST succeeds. */
  ghost predicate AllSucceed(net: SoapNetwork) {
    forall k: nat, req: SoapRequest :: ClassifyReply(net.respond(k, req)).Pass?
  }

  /** When the TV accepts everything, the full set-then-play pair goes out and nothing fails. */
  lemma SetThenPlaySucceeds(net: SoapNetwork, k: nat, setReq: SoapRequest, playReq: SoapRequest,
                            setStep: string, playStep: string)
    requires AllSucceed(net)
    ensures SetThenPlay(net, k, setReq, playReq, setStep, playStep) == ([setReq, playReq], Pass)
  {
    assert ClassifyReply(net.respond(k, setReq)).Pass?;
    assert ClassifyReply(net.respond(k + 1, playReq)).Pass?;
  }

  class Renderer {
    const server: ImageServer
    /** TVs (by control URL) on which the stream has been started. */
    var playingTVs: map<string, bool>

    constructor (server: ImageServer)
      ensures this.server == server && playingTVs == map[]
    {
      this.server := server;
      playingTVs := map[];
    }

    /** The renderer's invariant is its image store's. */
    predicate Valid()
      reads this, server
    {
      server.Valid()
    }

    /** `playingTVs[key]`, with Go's false for a missing key. */
    predicate Playing(key: string)
      reads this
    {
      key in playingTVs && playingTVs[key]
    }

    /**
     * Stores the image, points the TV at its URL and starts playback; a
     * failed set-URI means Play is not sent.
     */
    method DisplayJPEG(net: SoapNetwork, tv: TV, data: seq<byte>, nanos: int)
      returns (r: Outcome<RenderError>)
      requires Valid()
      modifies server, net
      ensures Valid()
      ensures server.counter == NextId(old(server.counter))
      ensures StoredFrom(old(server.images), server.images, ImagePath(server.counter, nanos), data)
      ensures ImagePath(server.counter, nanos) in server.images
      ensures server.images[ImagePath(server.counter, nanos)] == data
      ensures server.latestFrame == old(server.latestFrame)
      ensures var plan := SetThenPlay(net, |old(net.log)|,
                             SetAVTransportURIRequest(tv, server.URL() + ImagePath(server.counter, nanos)),
                             PlayRequest(tv), "set URI", "play");
              net.log == old(net.log) + plan.0 && r == plan.1
    {
      var imageURL := server.Store(data, nanos);
      var e := SetAVTransportURI(net, tv, imageURL);
      if e.Fail? {
        return Fail(RenderError("set URI", e.error));
      }
      e := Play(net, tv);
      if e.Fail? {
        return Fail(RenderError("play", e.error));
      }
      return Pass;
    }

    /**
     * Replaces the streaming frame, then starts the stream on the TV unless
     * it is already marked as playing; the mark is set only when both the
     * set-URI and the Play call succeed.
     */
    method DisplayJPEGStream(net: SoapNetwork, tv: TV, data: seq<byte>)
      returns (r: Outcome<RenderError>)
      modifies this, server, net
      ensures Valid() <==> old(Valid())
      ensures server.latestFrame == Some(data)
      ensures server.images == old(server.images) && server.counter == old(server.counter)
      ensures old(Playing(tv.controlURL)) ==>
                net.log == old(net.log) && r == Pass && playingTVs == old(playingTVs)
      ensures !old(Playing(tv.controlURL)) ==>
                var plan := SetThenPlay(net, |old(net.log)|,
                               SetAVTransportURIRequest(tv, server.StreamURL()),
                               PlayRequest(tv), "set stream URI", "play stream");
                net.log == old(net.log) + plan.0 && r == plan.1 &&
                playingTVs == if r.Pass? then old(playingTVs)[tv.controlURL := true] else old(playingTVs)
    {
      server.UpdateLatestFrame(Some(data));
      var key := tv.controlURL;
      r := Pass;
      if !(key in playingTVs && playingTVs[key]) {
        var streamURL := server.StreamURL();
        var e := SetAVTransportURI(net, tv, streamURL);
        if e.Fail? {
          r := Fail(RenderError("set stream URI", e.error));
        } else {
          e := Play(net, tv);
          if e.Fail? {
            r := Fail(RenderError("play stream", e.error));
          } else {
            playingTVs := playingTVs[key := true];
          }
        }
      }
    }

    /**
     * Points the TV at an HLS (or other video) URL with a title, defaulting
     * to "HLS Stream", and starts playback; the image store is untouched.
     */
    method DisplayHLS(net: SoapNetwork, tv: TV, hlsURL: string, title: string)
      returns (r: Outcome<RenderError>)
      modifies net
      ensures Valid() <==> old(Valid())
      ensures var plan := SetThenPlay(net, |old(net.log)|,
                             SetAVTransportURIForVideoRequest(tv, hlsURL, HLSTitle(title)),
                             PlayRequest(tv), "set HLS URI", "play HLS");
              net.log == old(net.log) + plan.0 && r == plan.1
      ensures server.images == old(server.images) && server.latestFrame == old(server.latestFrame)
    {
      var t := title;
      if t == "" {
        t := DefaultHLSTitle;
      }
      var e := SetAVTransportURIForVideo(net, tv, hlsURL, t);
      if e.Fail? {
        return Fail(RenderError("set HLS URI", e.error));
      }
      e := Play(net, tv);
      if e.Fail? {
        return Fail(RenderError("play HLS", e.error));
      }
      return Pass;
    }

    /** Another name for DisplayHLS, with the same requests and outcome. */
    method DisplayVideo(net: SoapNetwork, tv: TV, videoURL: string, title: string)
      returns (r: Outcome<RenderError>)
      modifies net
      ensures Valid() <==> old(Valid())
      ensures var plan := SetThenPlay(net, |old(net.log)|,
                             SetAVTransportURIForVideoRequest(tv, videoURL, HLSTitle(title)),
                             PlayRequest(tv), "set HLS URI", "play HLS");
              net.log == old(net.log) + plan.0 && r == plan.1
    {
      r := DisplayHLS(net, tv, videoURL, title);
    }

    /**
     * Forgets that the TV is playing, then sends Stop and reports its
     * outcome; the mark is gone even when Stop fails.
     */
    method Stop(net: SoapNetwork, tv: TV) returns (r: Outcome<SoapError>)
      modifies this, net
      ensures Valid() <==> old(Valid())
      ensures playingTVs == old(playingTVs) - {tv.controlURL}
      ensures net.log == old(net.log) + [StopRequest(tv)]
      ensures r == SendOutcome(net, |old(net.log)|, StopRequest(tv))
    {
      playingTVs := playingTVs - {tv.controlURL};
      r := Tv.Stop(net, tv);
    }
  }

  /**
   * Streaming two frames to a TV that accepts everything starts it once:
   * exactly one set-URI (to the stream URL) and one Play go out, and the
   * second frame is the one served.
   */
  method StreamTwice(rd: Renderer, net: SoapNetwork, tv: TV, first: seq<byte>, second: seq<byte>)
    requires AllSucceed(net) && !rd.Playing(tv.controlURL)
    modifies rd, rd.server, net
    ensures net.log == old(net.log) + [SetAVTransportURIRequest(tv, rd.server.StreamURL()), PlayRequest(tv)]
    ensures rd.server.latestFrame == Some(second)
    ensures rd.Playing(tv.controlURL)
  {
    SetThenPlaySucceeds(net, |net.log|, SetAVTransportURIRequest(tv, rd.server.StreamURL()),
                        PlayRequest(tv), "set stream URI", "play stream");
    var r1 := rd.DisplayJPEGStream(net, tv, first);
    var r2 := rd.DisplayJPEGStream(net, tv, second);
  }

  /**
   * After Stop, the next frame starts the stream again: the requests are
   * Stop, set-URI and Play, whatever the playing mark was before.
   */
  method StopThenStream(rd: Renderer, net: SoapNetwork, tv: TV, frame: seq<byte>)
    requires AllSucceed(net)
    modifies rd, rd.server, net
    ensures net.log == old(net.log) +
              [StopRequest(tv), SetAVTransportURIRequest(tv, rd.server.StreamURL()), PlayRequest(tv)]
    ensures rd.Playing(tv.controlURL)
  {
    var s := rd.Stop(net, tv);
    SetThenPlaySucceeds(net, |net.log|, SetAVTransportURIRequest(tv, rd.server.StreamURL()),
                        PlayRequest(tv), "set stream URI", "play stream");
    var r := rd.DisplayJPEGStream(net, tv, frame);
  }

  /**
   * On a TV that accepts everything, DisplayHLS with no title sends exactly
   * SetAVTransportURI (video metadata titled "HLS Stream") and then Play.
   */
  method HLSWithoutTitle(rd: Renderer, net: SoapNetwork, tv: TV, hlsURL: string)
    returns (r: Outcome<RenderError>)
    requires AllSucceed(net)
    modifies net
    ensures r == Pass
    ensures net.log == old(net.log) +
              [SetAVTransportURIForVideoRequest(tv, hlsURL, DefaultHLSTitle), PlayRequest(tv)]
  {
    SetThenPlaySucceeds(net, |net.log|, SetAVTransportURIForVideoRequest(tv, hlsURL, DefaultHLSTitle),
                        PlayRequest(tv), "set HLS URI", "play HLS");
    r := rd.DisplayHLS(net, tv, hlsURL, "");
  }

  /**
   * Below capacity, DisplayJPEG evicts nothing: an image stored earlier is
   * still served after it, whatever the TV answered.
   */
  method JPEGKeepsEarlierImages(rd: Renderer, net: SoapNetwork, tv: TV, data: seq<byte>, nanos: int, p: string)
    returns (r: Outcome<RenderError>)
    requires rd.Valid() && |rd.server.images| <= Capacity && p in rd.server.images
    modifies rd.server, net
    ensures p in rd.server.images
    ensures p != ImagePath(rd.server.counter, nanos) ==> rd.server.images[p] == old(rd.server.images[p])
  {
    r := rd.DisplayJPEG(net, tv, data, nanos);
  }

  /**
   * When set-URI fails, DisplayJPEG has still stored the image, sends no
   * Play and reports the "set URI" step.
   */
  method JPEGSetFails(rd: Renderer, net: SoapNetwork, tv: TV, data: seq<byte>, nanos: int)
    returns (r: Outcome<RenderError>)
    requires rd.Valid()
    requires forall req: SoapRequest :: ClassifyReply(net.respond(|net.log|, req)).Fail?
    modifies rd.server, net
    ensures r.Fail? && r.error.step == "set URI"
    ensures |net.log| == |old(net.log)| + 1
    ensures ImagePath(rd.server.counter, nanos) in rd.server.images
  {
    r := rd.DisplayJPEG(net, tv, data, nanos);
  }
}

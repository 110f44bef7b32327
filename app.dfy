/** server/src/main.c after start-up: the application object that wires the
    pipeline's callbacks to the session's mailbox and the session's callbacks
    to the pipeline, and the endless frame loop that renders, pushes and polls
    at a fixed cadence. The clock readings, the pictures the renderer draws,
    the answers of GStreamer and the events libwebsockets delivers during a
    poll are inputs. */
module App {
  import opened CText
  import opened WireCodec
  import S = Signaling
  import P = Pipeline
  import FS = FrameSource

  /** What the application owns and the two libraries record: the session's
      fields and transport log, and the pipeline's signal and buffer logs. */
  datatype World = World(
    session: S.State,
    transport: seq<S.TransportOp>,
    signals: seq<P.Signal>,
    queued: seq<P.Buffer>)

  /** A guint line index as webrtcbin reports it. */
  type Guint = n: nat | n < UINT32_LIMIT

  /** Something that happens while cs_signaling_poll runs: a libwebsockets
      callback (with what the pipeline will answer, should the callback reach
      it), or a local candidate gathered by webrtcbin. */
  datatype Wake =
    | NetEvent(ev: S.Event, reply: P.OfferReply, parses: bool)
    | LocalCandidate(mlineIndex: Guint, candidate: string)

  /** The session part of a world after a reaction of the session. */
  function AfterSession(w: World, r: S.Reaction): World {
    w.(session := r.next, transport := w.transport + r.ops)
  }

  /** on_local_sdp: the type and text go unchanged to cs_signaling_broadcast_sdp. */
  function LocalSdpW(w: World, sdpType: string, sdp: string): World {
    AfterSession(w, S.SdpBroadcast(w.session, Some(sdpType), Some(sdp)))
  }

  /** on_local_ice: the candidate, index and media id go unchanged to
      cs_signaling_broadcast_ice. */
  function LocalIceW(w: World, candidate: string, mlineIndex: int, mid: string): World {
    AfterSession(w, S.IceBroadcast(w.session, Some(candidate), mlineIndex, Some(mid)))
  }

  /** on_remote_sdp: cs_pipeline_set_remote_description with the same text. */
  function RemoteSdpW(w: World, sdpType: string, sdp: string, parses: bool): World {
    if parses then w.(signals := w.signals + [P.SetRemoteDescription(P.SdpTypeFromString(Some(sdpType)), sdp)])
    else w
  }

  /** on_remote_ice: cs_pipeline_add_ice_candidate, which drops the media id. */
  function RemoteIceW(w: World, candidate: string, mlineIndex: int): World {
    w.(signals := w.signals + [P.AddIceCandidate(mlineIndex, candidate)])
  }

  /** A pipeline callback performed by main.c's forwarders. */
  function LocalW(w: World, up: P.LocalUpcall): World {
    match up
    case NoLocalUpcall => w
    case LocalSdp(t, sdp) => LocalSdpW(w, t, sdp)
    case LocalIce(c, i, m) => LocalIceW(w, c, i, m)
  }

  /** on_offer_needed: cs_pipeline_create_offer, whose offer reaches
      on_local_sdp before the returned copy is freed. */
  function OfferNeededW(w: World, reply: P.OfferReply): World {
    match reply
    case NoOffer => w.(signals := w.signals + [P.CreateOfferSignal])
    case OfferMade(sdp, renders) =>
      var made := w.(signals := w.signals + [P.CreateOfferSignal, P.SetLocalDescription(sdp)]);
      if renders then LocalSdpW(made, "offer", sdp) else made
  }

  /** A session callback performed by main.c's forwarders. */
  function UpcallW(w: World, up: S.Upcall, reply: P.OfferReply, parses: bool): World {
    match up
    case NoUpcall => w
    case OfferNeeded => OfferNeededW(w, reply)
    case RemoteSdp(t, sdp) => RemoteSdpW(w, t, sdp, parses)
    case RemoteIce(c, i, _) => RemoteIceW(w, c, i)
  }

  /** One wake-up during a poll. */
  function ServeW(w: World, wake: Wake): World {
    match wake
    case NetEvent(ev, reply, parses) =>
      var r := S.Step(w.session, ev, true);
      UpcallW(AfterSession(w, r), r.upcall, reply, parses)
    case LocalCandidate(i, c) =>
      LocalW(w, P.IceUpcall(true, i, c))
  }

  /** The wake-ups of one cs_signaling_poll, in order. */
  function PollW(w: World, batch: seq<Wake>): World
    decreases |batch|
  {
    if batch == [] then w else PollW(ServeW(w, batch[0]), batch[1..])
  }

  /** Serving the network never hands a frame to appsrc. */
  lemma {:induction false} PollKeepsFrames(w: World, batch: seq<Wake>)
    ensures PollW(w, batch).queued == w.queued
    decreases |batch|
  {
    if batch != [] {
      PollKeepsFrames(ServeW(w, batch[0]), batch[1..]);
    }
  }

  /** A peer connecting while the pipeline makes an offer: the session adopts
      the peer, the offer is created and set locally, and its SDP message is
      staged with a writable request for that peer. */
  lemma OfferOnConnect(w: World, h: S.Handle, sdp: string, parses: bool)
    ensures var v := ServeW(w, NetEvent(S.Established(h), P.OfferMade(sdp, true), parses));
      v.session == S.State(Some(h), Some(SdpWire("offer", sdp)))
      && v.transport == w.transport + [S.RequestWritable(h)]
      && v.signals == w.signals + [P.CreateOfferSignal, P.SetLocalDescription(sdp)]
      && v.queued == w.queued
  {
    var r := S.Step(w.session, S.Established(h), true);
    assert r.next.client == Some(h) && r.ops == [] && r.upcall == S.OfferNeeded;
    var a := AfterSession(w, r);
    var made := a.(signals := a.signals + [P.CreateOfferSignal, P.SetLocalDescription(sdp)]);
    var b := S.SdpBroadcast(made.session, Some("offer"), Some(sdp));
    assert b.next == S.State(Some(h), Some(SdpWire("offer", sdp)));
    assert b.ops == [S.RequestWritable(h)];
  }

  /** The offer reaches the peer: after the connection, the writable event
      for that peer writes the offer's SDP message and empties the mailbox. */
  lemma OfferReachesPeer(w: World, h: S.Handle, sdp: string, parses: bool, reply: P.OfferReply)
    ensures var v := PollW(w, [NetEvent(S.Established(h), P.OfferMade(sdp, true), parses),
                               NetEvent(S.Writeable(h), reply, parses)]);
      v.session == S.State(Some(h), None)
      && v.transport == w.transport + [S.RequestWritable(h), S.Write(h, SdpWire("offer", sdp))]
      && v.signals == w.signals + [P.CreateOfferSignal, P.SetLocalDescription(sdp)]
  {
    var first := NetEvent(S.Established(h), P.OfferMade(sdp, true), parses);
    var second := NetEvent(S.Writeable(h), reply, parses);
    OfferOnConnect(w, h, sdp, parses);
    var u := ServeW(w, first);
    var r := S.Step(u.session, S.Writeable(h), true);
    assert r.ops == [S.Write(h, SdpWire("offer", sdp))] && r.next == S.State(Some(h), None);
    assert PollW(w, [first, second]) == PollW(u, [second]);
    assert PollW(u, [second]) == ServeW(u, second);
  }

  /** An answer the browser sends back in the form the server itself writes
      is set as the remote description of type answer, provided the text has
      no quote or NUL and its escaped form fits the 8192-byte buffer; nothing
      else changes. */
  lemma AnswerApplied(w: World, h: S.Handle, sdp: string, reply: P.OfferReply)
    requires '"' !in sdp && '\0' !in sdp && |Escape(sdp)| < S.SDP_LEN
    ensures ServeW(w, NetEvent(S.Receive(h, SdpWire("answer", sdp)), reply, true))
      == w.(signals := w.signals + [P.SetRemoteDescription(P.Answer, sdp)])
  {
    S.SdpWireDispatch("answer", sdp);
  }

  /** An answer whose text the pipeline cannot parse leaves every log as it
      was, although the message was read. */
  lemma UnparsedAnswerIgnored(w: World, h: S.Handle, sdp: string, reply: P.OfferReply)
    requires '"' !in sdp && '\0' !in sdp && |Escape(sdp)| < S.SDP_LEN
    ensures ServeW(w, NetEvent(S.Receive(h, SdpWire("answer", sdp)), reply, false)) == w
  {
    S.SdpWireDispatch("answer", sdp);
  }

  /** A candidate the browser sends back in the form the server itself
      writes is added to the pipeline with its index; nothing else changes.
      The candidate holds no quote or NUL, is not the word sdpMid and escapes
      into fewer than 1024 characters; the media id holds no quote,
      backslash or NUL and is under 32 characters. */
  lemma CandidateApplied(w: World, h: S.Handle, c: string, n: int, m: string, reply: P.OfferReply, parses: bool)
    requires '"' !in c && '\0' !in c && c != "sdpMid" && |Escape(c)| < S.CANDIDATE_LEN
    requires '"' !in m && '\\' !in m && '\0' !in m && |m| < S.MID_LEN
    ensures ServeW(w, NetEvent(S.Receive(h, IceWire(c, n, m)), reply, parses))
      == w.(signals := w.signals + [P.AddIceCandidate(n, c)])
  {
    S.IceWireDispatch(c, n, m);
  }

  /** A local candidate is staged as the ICE message on_local_ice asks for:
      the index cast from guint to int, media id "0", cut to its buffer; a
      writable request goes to the peer when there is one. */
  lemma CandidateStaged(w: World, i: Guint, c: string)
    ensures var v := ServeW(w, LocalCandidate(i, c));
      v.session == S.State(w.session.client, Some(StagedIce(c, GuintToInt(i), Some("0"))))
      && v.transport == w.transport + (if w.session.client.Some? then [S.RequestWritable(w.session.client.value)] else [])
      && v.signals == w.signals && v.queued == w.queued
  {
    assert P.IceUpcall(true, i, c) == P.LocalIce(c, GuintToInt(i), "0");
  }

  /** With an index up to 99999 the staged text is the whole ICE message. */
  lemma CandidateStagedWhole(w: World, i: Guint, c: string)
    requires i <= 99999
    ensures ServeW(w, LocalCandidate(i, c)).session == S.State(w.session.client, Some(IceWire(c, i, "0")))
  {
    CandidateStaged(w, i, c);
    IceFitsExactly(c, i, Some("0"));
  }

  /** A received message reaches the pipeline or nothing: the session and
      the transport log are left alone, and at most one signal is added. */
  lemma ReceiveTouchesOnlyPipeline(w: World, h: S.Handle, payload: string, reply: P.OfferReply, parses: bool)
    ensures var v := ServeW(w, NetEvent(S.Receive(h, payload), reply, parses));
      v.session == w.session && v.transport == w.transport && v.queued == w.queued
      && w.signals <= v.signals && |v.signals| <= |w.signals| + 1
  {
    var r := S.Step(w.session, S.Receive(h, payload), true);
    assert r.next == w.session && r.ops == [];
    assert !r.upcall.OfferNeeded?;
  }

  /** The application object: main.c's cs_app, with the session and pipeline
      it points to. main.c installs every callback. */
  class Application {
    const session: S.Session
    const pipeline: P.Pipeline

    ghost function Snapshot(): World
      reads this, session, pipeline
    {
      World(session.Fields(), session.transport, pipeline.signals, pipeline.queued)
    }

    /** All callbacks are set, as main.c installs them. */
    predicate Wired()
    {
      session.offerHook && pipeline.localSdpHook && pipeline.localIceHook
    }

    constructor ()
      ensures Wired() && fresh(session) && fresh(pipeline)
      ensures Snapshot() == World(S.State(None, None), [], [], [])
    {
      session := new S.Session(true);
      pipeline := new P.Pipeline(true, true);
    }

    /** on_local_sdp. */
    method OnLocalSdp(sdpType: string, sdp: string)
      modifies session
      ensures Snapshot() == LocalSdpW(old(Snapshot()), sdpType, sdp)
    {
      var _ := session.BroadcastSdp(Some(sdpType), Some(sdp));
    }

    /** on_local_ice. */
    method OnLocalIce(candidate: string, mlineIndex: int, mid: string)
      modifies session
      ensures Snapshot() == LocalIceW(old(Snapshot()), candidate, mlineIndex, mid)
    {
      var _ := session.BroadcastIce(Some(candidate), mlineIndex, Some(mid));
    }

    /** on_remote_sdp. */
    method OnRemoteSdp(sdpType: string, sdp: string, parses: bool)
      modifies pipeline
      ensures Snapshot() == RemoteSdpW(old(Snapshot()), sdpType, sdp, parses)
    {
      var _ := P.SetRemote(pipeline, Some(sdpType), Some(sdp), parses);
    }

    /** on_remote_ice. */
    method OnRemoteIce(candidate: string, mlineIndex: int, mid: string)
      modifies pipeline
      ensures Snapshot() == RemoteIceW(old(Snapshot()), candidate, mlineIndex)
    {
      var _ := P.AddIce(pipeline, Some(candidate), mlineIndex, Some(mid));
    }

    /** Performs a callback the pipeline makes. */
    method DeliverLocal(up: P.LocalUpcall)
      modifies session
      ensures Snapshot() == LocalW(old(Snapshot()), up)
    {
      match up
      case NoLocalUpcall =>
      case LocalSdp(t, sdp) => OnLocalSdp(t, sdp);
      case LocalIce(c, i, m) => OnLocalIce(c, i, m);
    }

    /** on_offer_needed: the offer text returned is only freed. */
    method OnOfferNeeded(reply: P.OfferReply)
      requires Wired()
      modifies session, pipeline
      ensures Snapshot() == OfferNeededW(old(Snapshot()), reply)
    {
      var _, up := P.CreateOffer(pipeline, reply);
      DeliverLocal(up);
    }

    /** Performs a callback the session makes. */
    method Deliver(up: S.Upcall, reply: P.OfferReply, parses: bool)
      requires Wired()
      modifies session, pipeline
      ensures Snapshot() == UpcallW(old(Snapshot()), up, reply, parses)
    {
      match up
      case NoUpcall =>
      case OfferNeeded => OnOfferNeeded(reply);
      case RemoteSdp(t, sdp) => OnRemoteSdp(t, sdp, parses);
      case RemoteIce(c, i, m) => OnRemoteIce(c, i, m);
    }

    /** One wake-up: a libwebsockets callback into ws_callback, or webrtcbin
        calling on_ice_candidate. */
    method Serve(wake: Wake)
      requires Wired()
      modifies session, pipeline
      ensures Snapshot() == ServeW(old(Snapshot()), wake)
    {
      match wake
      case NetEvent(ev, reply, parses) =>
        var up := session.Callback(ev);
        Deliver(up, reply, parses);
      case LocalCandidate(i, c) =>
        var up := pipeline.OnIceCandidate(i, c);
        DeliverLocal(up);
    }

    /** cs_signaling_poll: the wake-ups it dispatches, in order. */
    method Poll(batch: seq<Wake>)
      requires Wired()
      modifies session, pipeline
      ensures Snapshot() == PollW(old(Snapshot()), batch)
    {
      var i := 0;
      while i < |batch|
        invariant i <= |batch|
        invariant PollW(Snapshot(), batch[i..]) == PollW(old(Snapshot()), batch)
      {
        assert batch[i..][1..] == batch[i + 1..];
        Serve(batch[i]);
        i := i + 1;
      }
    }
  }
}

/** The signaling session of server/src/signaling_ws.c: at most one peer
    connection (`client_wsi`) and a single-slot outbound mailbox (`pending`).
    libwebsockets is abstracted: its callbacks arrive as events, and the two
    things the session asks of it (lws_write and lws_callback_on_writable)
    are recorded as transport operations. The application callbacks the
    session invokes are returned as an upcall, which the caller performs
    next; each branch of ws_callback invokes its callback as its last action,
    so the order of effects is the same. */
module Signaling {
  import opened CText
  import opened WireCodec

  /** A libwebsockets connection handle (`struct lws *`, never NULL here). */
  type Handle = nat

  /** The callback reasons ws_callback handles; all others do nothing. */
  datatype Event =
    | Established(wsi: Handle)
    | Receive(wsi: Handle, payload: string)
    | Writeable(wsi: Handle)
    | Closed(wsi: Handle)
    | OtherReason(wsi: Handle)

  /** The application callback one event invokes, if any. */
  datatype Upcall =
    | NoUpcall
    | OfferNeeded
    | RemoteSdp(sdpType: string, sdp: string)
    | RemoteIce(candidate: string, mlineIndex: int, mid: string)

  /** What the session asks of the transport. */
  datatype TransportOp = Write(wsi: Handle, text: string) | RequestWritable(wsi: Handle)

  /** The two fields the session mutates. */
  datatype State = State(client: Option<Handle>, pending: Option<string>)

  /** The effect of one event or one staging: the new fields, the transport
      operations in order, the upcall, and the return code of a staging. */
  datatype Reaction = Reaction(next: State, ops: seq<TransportOp>, upcall: Upcall, rc: int)

  const TYPE_LEN: nat := 16
  const SDP_LEN: nat := 8192
  const CANDIDATE_LEN: nat := 1024
  const MID_LEN: nat := 32

  /** The RECEIVE branch: the payload read as a C string, its type field
      decoded into 16 bytes; "answer" or "offer" with a description field
      (8192 bytes) reports a remote description, "ice" with a candidate field
      (1024 bytes) reports a remote candidate whose media id (32 bytes)
      defaults to "0" and whose line index defaults to 0; anything else is
      ignored. Every reported string fits the buffer it was decoded into. */
  function Dispatch(payload: string): (r: Upcall)
    ensures !r.OfferNeeded?
    ensures ExtractString(CStr(payload), "type", TYPE_LEN).None? ==> r == NoUpcall
    ensures r.RemoteSdp? <==> ExtractString(CStr(payload), "type", TYPE_LEN) in {Some("answer"), Some("offer")}
                              && ExtractString(CStr(payload), "sdp", SDP_LEN).Some?
    ensures r.RemoteIce? <==> ExtractString(CStr(payload), "type", TYPE_LEN) == Some("ice")
                              && ExtractString(CStr(payload), "candidate", CANDIDATE_LEN).Some?
    ensures r.RemoteSdp? ==> Some(r.sdpType) == ExtractString(CStr(payload), "type", TYPE_LEN)
                             && Some(r.sdp) == ExtractString(CStr(payload), "sdp", SDP_LEN)
    ensures r.RemoteIce? ==> Some(r.candidate) == ExtractString(CStr(payload), "candidate", CANDIDATE_LEN)
                             && r.mid == ExtractString(CStr(payload), "sdpMid", MID_LEN).GetOr("0")
                             && r.mlineIndex == ExtractInt(CStr(payload), "sdpMLineIndex").GetOr(0)
    ensures r.RemoteSdp? ==> |r.sdpType| < TYPE_LEN && |r.sdp| < SDP_LEN
    ensures r.RemoteIce? ==> |r.candidate| < CANDIDATE_LEN && |r.mid| < MID_LEN
  {
    var text := CStr(payload);
    match ExtractString(text, "type", TYPE_LEN)
    case None => NoUpcall
    case Some(t) =>
      if t == "answer" || t == "offer" then DescriptionUpcall(text, t)
      else if t == "ice" then CandidateUpcall(text)
      else NoUpcall
  }

  /** A description message of type `t`: its description field, if any. */
  function DescriptionUpcall(text: string, t: string): Upcall {
    match ExtractString(text, "sdp", SDP_LEN)
    case None => NoUpcall
    case Some(sdp) => RemoteSdp(t, sdp)
  }

  /** A candidate message: its candidate field, if any, with the index and
      media id fields or their defaults 0 and "0". */
  function CandidateUpcall(text: string): Upcall {
    match ExtractString(text, "candidate", CANDIDATE_LEN)
    case None => NoUpcall
    case Some(c) =>
      RemoteIce(c, ExtractInt(text, "sdpMLineIndex").GetOr(0), ExtractString(text, "sdpMid", MID_LEN).GetOr("0"))
  }

  /** ws_callback as a transition of the two fields. ESTABLISHED adopts the
      new handle whatever the old one was; CLOSED forgets the handle only
      when it is the current one and never touches the mailbox; WRITEABLE
      sends the mailbox and empties it only for the current handle. */
  function Step(s: State, ev: Event, offerHook: bool): (r: Reaction)
    ensures r.rc == 0
    ensures ev.Established? ==> r.next.client == Some(ev.wsi)
    ensures ev.Closed? ==> r.next.client == (if s.client == Some(ev.wsi) then None else s.client)
    ensures !ev.Established? && !ev.Closed? ==> r.next.client == s.client
    ensures r.next.pending == s.pending || (ev.Writeable? && r.next.pending.None?)
    ensures |r.ops| <= 1
    ensures forall op :: op in r.ops ==> op.Write? && s.client == Some(op.wsi) && s.pending == Some(op.text)
    ensures r.ops != [] <==> ev.Writeable? && s.client == Some(ev.wsi) && s.pending.Some?
    ensures r.ops != [] <==> r.next.pending != s.pending
    ensures r.upcall.OfferNeeded? <==> ev.Established? && offerHook
    ensures !ev.Receive? ==> !r.upcall.RemoteSdp? && !r.upcall.RemoteIce?
  {
    match ev
    case Established(w) => Reaction(State(Some(w), s.pending), [], if offerHook then OfferNeeded else NoUpcall, 0)
    case Receive(_, payload) => Reaction(s, [], Dispatch(payload), 0)
    case Writeable(w) =>
      if s.pending.None? || s.client != Some(w) then Reaction(s, [], NoUpcall, 0)
      else Reaction(State(s.client, None), [Write(w, s.pending.value)], NoUpcall, 0)
    case Closed(w) => Reaction(State(if s.client == Some(w) then None else s.client, s.pending), [], NoUpcall, 0)
    case OtherReason(_) => Reaction(s, [], NoUpcall, 0)
  }

  /** A new outbound message replaces the mailbox, then send_pending asks
      for a writable callback on the current peer (0), or fails with -1 when
      there is none, keeping the message. */
  function Stage(s: State, text: string): (r: Reaction)
    ensures r.next == State(s.client, Some(text)) && r.upcall == NoUpcall
    ensures r.rc == (if s.client.Some? then 0 else -1)
    ensures r.ops == (if s.client.Some? then [RequestWritable(s.client.value)] else [])
  {
    match s.client
    case None => Reaction(State(None, Some(text)), [], NoUpcall, -1)
    case Some(h) => Reaction(State(Some(h), Some(text)), [RequestWritable(h)], NoUpcall, 0)
  }

  /** cs_signaling_broadcast_sdp: -1 and no change for a NULL argument,
      otherwise staging of the SDP message. */
  function SdpBroadcast(s: State, sdpType: Option<string>, sdp: Option<string>): (r: Reaction)
    ensures sdpType.None? || sdp.None? ==> r == Reaction(s, [], NoUpcall, -1)
    ensures sdpType.Some? && sdp.Some? ==> r.next.pending == Some(SdpWire(sdpType.value, sdp.value))
  {
    if sdpType.None? || sdp.None? then Reaction(s, [], NoUpcall, -1)
    else Stage(s, StagedSdp(sdpType.value, sdp.value))
  }

  /** cs_signaling_broadcast_ice: -1 and no change for a NULL candidate,
      otherwise staging of the ICE message, "0" standing for a NULL media id. */
  function IceBroadcast(s: State, candidate: Option<string>, mlineIndex: int, mid: Option<string>): (r: Reaction)
    ensures candidate.None? ==> r == Reaction(s, [], NoUpcall, -1)
    ensures candidate.Some? && -9999 <= mlineIndex <= 99999
        ==> r.next.pending == Some(IceWire(candidate.value, mlineIndex, mid.GetOr("0")))
  {
    if candidate.None? then Reaction(s, [], NoUpcall, -1)
    else
      IceFitsExactly(candidate.value, mlineIndex, mid);
      Stage(s, StagedIce(candidate.value, mlineIndex, mid))
  }

  /** One input to the session: a libwebsockets callback or a staging call. */
  datatype Input =
    | Net(ev: Event)
    | SendSdp(sdpType: Option<string>, sdp: Option<string>)
    | SendIce(candidate: Option<string>, mlineIndex: int, mid: Option<string>)

  function Apply(s: State, input: Input, offerHook: bool): Reaction {
    match input
    case Net(ev) => Step(s, ev, offerHook)
    case SendSdp(t, sdp) => SdpBroadcast(s, t, sdp)
    case SendIce(c, n, mid) => IceBroadcast(s, c, n, mid)
  }

  /** The outcome of a sequence of inputs. */
  datatype Trace = Trace(last: State, ops: seq<TransportOp>, upcalls: seq<Upcall>)

  function Run(s: State, inputs: seq<Input>, offerHook: bool): Trace
    decreases |inputs|
  {
    if inputs == [] then Trace(s, [], [])
    else
      var r := Apply(s, inputs[0], offerHook);
      var t := Run(r.next, inputs[1..], offerHook);
      Trace(t.last, r.ops + t.ops, [r.upcall] + t.upcalls)
  }

  /** The message a staging input puts in the mailbox, if it stages one. */
  function StagedText(input: Input): Option<string> {
    match input
    case Net(_) => None
    case SendSdp(t, sdp) => if t.Some? && sdp.Some? then Some(StagedSdp(t.value, sdp.value)) else None
    case SendIce(c, n, mid) => if c.Some? then Some(StagedIce(c.value, n, mid)) else None
  }

  /** The messages a sequence of inputs stages, in order. */
  function StagedTexts(inputs: seq<Input>): seq<string>
    decreases |inputs|
  {
    if inputs == [] then []
    else StagedList(inputs[0]) + StagedTexts(inputs[1..])
  }

  /** The message one input stages, as a list of at most one. */
  function StagedList(input: Input): seq<string> {
    match StagedText(input) case Some(m) => [m] case None => []
  }

  function Writes(ops: seq<TransportOp>): seq<TransportOp>
    ensures forall op :: op in Writes(ops) ==> op in ops && op.Write?
    decreases |ops|
  {
    if ops == [] then []
    else (if ops[0].Write? then [ops[0]] else []) + Writes(ops[1..])
  }

  function OptionCount<T>(o: Option<T>): nat {
    if o.Some? then 1 else 0
  }

  lemma {:induction false} WritesConcat(a: seq<TransportOp>, b: seq<TransportOp>)
    ensures Writes(a + b) == Writes(a) + Writes(b)
    decreases |a|
  {
    if a != [] {
      assert (a + b)[1..] == a[1..] + b;
      WritesConcat(a[1..], b);
    } else {
      assert a + b == b;
    }
  }

  /** Which inputs can open a connection. */
  predicate Connects(input: Input) {
    input.Net? && input.ev.Established?
  }

  /** Without a peer and without a connection being established, nothing
      reaches the transport: no write and no request for one. */
  lemma {:induction false} NoPeerNoTraffic(s: State, inputs: seq<Input>, offerHook: bool)
    requires s.client.None?
    requires forall i :: 0 <= i < |inputs| ==> !Connects(inputs[i])
    ensures Run(s, inputs, offerHook).ops == []
    ensures Run(s, inputs, offerHook).last.client.None?
    decreases |inputs|
  {
    if inputs != [] {
      var r := Apply(s, inputs[0], offerHook);
      assert r.ops == [] && r.next.client.None?;
      NoPeerNoTraffic(r.next, inputs[1..], offerHook);
    }
  }

  /** Every write carries a message that was in the mailbox at the start or
      was staged along the way, and the writes plus what is left in the
      mailbox never outnumber those messages: each staged message is sent at
      most once, and none is invented. */
  lemma {:induction false} WritesAreStaged(s: State, inputs: seq<Input>, offerHook: bool)
    ensures var t := Run(s, inputs, offerHook);
      |Writes(t.ops)| + OptionCount(t.last.pending) <= OptionCount(s.pending) + |StagedTexts(inputs)|
    ensures var t := Run(s, inputs, offerHook);
      forall op :: op in Writes(t.ops) ==> Some(op.text) == s.pending || op.text in StagedTexts(inputs)
    ensures var t := Run(s, inputs, offerHook);
      t.last.pending.Some? ==> t.last.pending == s.pending || t.last.pending.value in StagedTexts(inputs)
    decreases |inputs|
  {
    if inputs != [] {
      var r := Apply(s, inputs[0], offerHook);
      var t := Run(r.next, inputs[1..], offerHook);
      WritesAreStaged(r.next, inputs[1..], offerHook);
      WritesConcat(r.ops, t.ops);
      ApplyAccounting(s, inputs[0], offerHook);
    }
  }

  /** One input writes at most the message the mailbox held, and leaves in
      the mailbox what it held or what the input staged. */
  lemma ApplyAccounting(s: State, input: Input, offerHook: bool)
    ensures var r := Apply(s, input, offerHook);
      |Writes(r.ops)| + OptionCount(r.next.pending) <= OptionCount(s.pending) + |StagedList(input)|
    ensures var r := Apply(s, input, offerHook);
      forall op :: op in Writes(r.ops) ==> Some(op.text) == s.pending
    ensures var r := Apply(s, input, offerHook);
      r.next.pending.Some? ==> r.next.pending == s.pending || r.next.pending.value in StagedList(input)
  {
    var r := Apply(s, input, offerHook);
    match input
    case Net(ev) =>
      if r.ops != [] {
        assert r.ops == [Write(ev.wsi, s.pending.value)];
        assert Writes(r.ops) == r.ops;
      } else {
        assert Writes(r.ops) == [];
      }
    case SendSdp(ty, sdp) =>
      assert Writes(r.ops) == [] by {
        assert r.ops == [] || r.ops == [RequestWritable(s.client.value)];
      }
    case SendIce(c, n, mid) =>
      assert Writes(r.ops) == [] by {
        assert r.ops == [] || r.ops == [RequestWritable(s.client.value)];
      }
  }

  /** Run on a non-empty input sequence: the first reaction, then the rest. */
  lemma RunCons(s: State, i: Input, rest: seq<Input>, offerHook: bool)
    ensures var r := Apply(s, i, offerHook);
      var t := Run(r.next, rest, offerHook);
      Run(s, [i] + rest, offerHook) == Trace(t.last, r.ops + t.ops, [r.upcall] + t.upcalls)
  {
    assert ([i] + rest)[1..] == rest;
  }

  /** A staging input puts its message in the mailbox, asks for a writable
      callback on the current peer if there is one, and writes nothing. */
  lemma StagingEffect(s: State, m: Input, offerHook: bool)
    requires StagedText(m).Some?
    ensures var r := Apply(s, m, offerHook);
      r.next == State(s.client, StagedText(m)) && Writes(r.ops) == [] && r.upcall == NoUpcall
      && r.ops == (if s.client.Some? then [RequestWritable(s.client.value)] else [])
      && r.rc == (if s.client.Some? then 0 else -1)
  {
    var r := Apply(s, m, offerHook);
    assert r == Stage(s, StagedText(m).value);
    assert Writes(r.ops) == [] by {
      if s.client.Some? {
        assert r.ops == [RequestWritable(s.client.value)];
      }
    }
  }

  /** Last write wins: with a peer connected, two stagings before the
      writable callback send only the second message. */
  lemma LastWriteWins(h: Handle, earlier: Option<string>, a: Input, b: Input, offerHook: bool)
    requires StagedText(a).Some? && StagedText(b).Some?
    ensures var t := Run(State(Some(h), earlier), [a, b, Net(Writeable(h))], offerHook);
      Writes(t.ops) == [Write(h, StagedText(b).value)] && t.last == State(Some(h), None)
  {
    var s0 := State(Some(h), earlier);
    var w := Net(Writeable(h));
    var r1 := Apply(s0, a, offerHook);
    StagingEffect(s0, a, offerHook);
    var r2 := Apply(r1.next, b, offerHook);
    StagingEffect(r1.next, b, offerHook);
    var r3 := Apply(r2.next, w, offerHook);
    assert r3.ops == [Write(h, StagedText(b).value)];
    RunCons(r2.next, w, [], offerHook);
    RunCons(r1.next, b, [w], offerHook);
    RunCons(s0, a, [b, w], offerHook);
    assert [w] + [] == [w] && [b] + [w] == [b, w] && [a] + [b, w] == [a, b, w];
    var t := Run(s0, [a, b, w], offerHook);
    assert t.ops == r1.ops + (r2.ops + (r3.ops + []));
    WritesConcat(r1.ops, r2.ops + (r3.ops + []));
    WritesConcat(r2.ops, r3.ops + []);
    assert r3.ops + [] == r3.ops;
  }

  /** A second connection supersedes the first: a writable callback for the
      first handle then sends nothing, and the message stays for the second. */
  lemma Superseded(s: State, h1: Handle, h2: Handle, offerHook: bool)
    requires h1 != h2 && s.pending.Some?
    ensures var t := Run(s, [Net(Established(h1)), Net(Established(h2)), Net(Writeable(h1))], offerHook);
      t.ops == [] && t.last == State(Some(h2), s.pending)
  {
    var e1, e2, w := Net(Established(h1)), Net(Established(h2)), Net(Writeable(h1));
    var s1 := State(Some(h1), s.pending);
    var s2 := State(Some(h2), s.pending);
    RunCons(s2, w, [], offerHook);
    RunCons(s1, e2, [w], offerHook);
    RunCons(s, e1, [e2, w], offerHook);
    assert [w] + [] == [w] && [e2] + [w] == [e2, w] && [e1] + [e2, w] == [e1, e2, w];
  }

  /** Closing does not empty the mailbox: a message staged for a peer that
      then disconnects is sent to the next peer that connects. */
  lemma StaleMessageReachesNextPeer(h1: Handle, h2: Handle, m: Input, offerHook: bool)
    requires StagedText(m).Some?
    ensures var ins := [m, Net(Closed(h1)), Net(Established(h2)), Net(Writeable(h2))];
      Writes(Run(State(Some(h1), None), ins, offerHook).ops) == [Write(h2, StagedText(m).value)]
  {
    var c, e, w := Net(Closed(h1)), Net(Established(h2)), Net(Writeable(h2));
    var text := StagedText(m).value;
    var s0 := State(Some(h1), None);
    StagingEffect(s0, m, offerHook);
    CloseThenReconnect(h1, h2, text, offerHook);
    var t2 := Run(State(Some(h1), Some(text)), [c, e, w], offerHook);
    var t1 := Run(s0, [m, c, e, w], offerHook);
    assert t1.ops == [RequestWritable(h1)] + t2.ops by {
      RunCons(s0, m, [c, e, w], offerHook);
      assert [m] + [c, e, w] == [m, c, e, w];
    }
    WritesConcat([RequestWritable(h1)], t2.ops);
    assert Writes([RequestWritable(h1)]) == [];
    assert Writes(t2.ops) == [Write(h2, text)];
  }

  /** A staged message outlives the close of its peer and is written to the
      next peer once that peer is writable. */
  lemma CloseThenReconnect(h1: Handle, h2: Handle, text: string, offerHook: bool)
    ensures var ins := [Net(Closed(h1)), Net(Established(h2)), Net(Writeable(h2))];
      Run(State(Some(h1), Some(text)), ins, offerHook).ops == [Write(h2, text)]
  {
    var c, e, w := Net(Closed(h1)), Net(Established(h2)), Net(Writeable(h2));
    var s1 := State(Some(h1), Some(text));
    var s2 := State(None, Some(text));
    var s3 := State(Some(h2), Some(text));
    var t4 := Run(s3, [w], offerHook);
    assert t4.ops == [Write(h2, text)] by {
      RunCons(s3, w, [], offerHook);
      assert [w] + [] == [w];
    }
    var t3 := Run(s2, [e, w], offerHook);
    assert t3.ops == t4.ops by {
      RunCons(s2, e, [w], offerHook);
      assert [e] + [w] == [e, w];
    }
    RunCons(s1, c, [e, w], offerHook);
    assert [c] + [e, w] == [c, e, w];
  }

  /** Staging with no peer reports -1, yet the message is kept and reaches
      the first peer that connects. */
  lemma StagedWithoutPeer(pending: Option<string>, m: Input, h: Handle, offerHook: bool)
    requires StagedText(m).Some?
    ensures Apply(State(None, pending), m, offerHook).rc == -1
    ensures Writes(Run(State(None, pending), [m, Net(Established(h)), Net(Writeable(h))], offerHook).ops)
         == [Write(h, StagedText(m).value)]
  {
    var e, w := Net(Established(h)), Net(Writeable(h));
    var s0 := State(None, pending);
    var s1 := State(None, StagedText(m));
    var s2 := State(Some(h), StagedText(m));
    StagingEffect(s0, m, offerHook);
    RunCons(s2, w, [], offerHook);
    RunCons(s1, e, [w], offerHook);
    RunCons(s0, m, [e, w], offerHook);
    assert [w] + [] == [w] && [e] + [w] == [e, w] && [m] + [e, w] == [m, e, w];
    var t := Run(s0, [m, e, w], offerHook);
    assert t.ops == [] + ([] + ([Write(h, StagedText(m).value)] + []));
    assert t.ops == [Write(h, StagedText(m).value)];
  }

  /** The session object. `transport` records what was asked of
      libwebsockets, in order. */
  class Session {
    var clientWsi: Option<Handle>
    var pending: Option<string>
    const offerHook: bool
    ghost var transport: seq<TransportOp>

    function Fields(): State
      reads this
    {
      State(clientWsi, pending)
    }

    /** cs_signaling_create (the libwebsockets context aside): zeroed fields
        and the callbacks copied, of which only on_offer_needed is checked. */
    constructor (offerHook: bool)
      ensures Fields() == State(None, None) && this.offerHook == offerHook && transport == []
    {
      clientWsi := None;
      pending := None;
      this.offerHook := offerHook;
      transport := [];
    }

    /** ws_callback. */
    method Callback(ev: Event) returns (up: Upcall)
      modifies this
      ensures var r := Step(old(Fields()), ev, offerHook);
        Fields() == r.next && transport == old(transport) + r.ops && up == r.upcall
    {
      match ev
      case Established(w) =>
        clientWsi := Some(w);
        up := if offerHook then OfferNeeded else NoUpcall;
      case Receive(_, payload) =>
        up := OnReceive(payload);
      case Writeable(w) =>
        up := NoUpcall;
        if pending.None? || clientWsi != Some(w) {
          return;
        }
        transport := transport + [Write(w, pending.value)];
        pending := None;
      case Closed(w) =>
        if clientWsi == Some(w) {
          clientWsi := None;
        }
        up := NoUpcall;
      case OtherReason(_) =>
        up := NoUpcall;
    }

    /** send_pending. */
    method SendPending() returns (rc: int)
      modifies this
      ensures Fields() == old(Fields())
      ensures rc == (if clientWsi.Some? then 0 else -1)
      ensures transport == old(transport) + (if clientWsi.Some? then [RequestWritable(clientWsi.value)] else [])
    {
      if clientWsi.None? {
        return -1;
      }
      transport := transport + [RequestWritable(clientWsi.value)];
      rc := 0;
    }

    /** cs_signaling_broadcast_sdp. */
    method BroadcastSdp(sdpType: Option<string>, sdp: Option<string>) returns (rc: int)
      modifies this
      ensures var r := SdpBroadcast(old(Fields()), sdpType, sdp);
        Fields() == r.next && transport == old(transport) + r.ops && rc == r.rc
    {
      if sdpType.None? || sdp.None? {
        return -1;
      }
      var msg := FormatSdp(sdpType.value, sdp.value);
      pending := Some(msg);
      rc := SendPending();
    }

    /** cs_signaling_broadcast_ice. */
    method BroadcastIce(candidate: Option<string>, mlineIndex: int, mid: Option<string>) returns (rc: int)
      modifies this
      ensures var r := IceBroadcast(old(Fields()), candidate, mlineIndex, mid);
        Fields() == r.next && transport == old(transport) + r.ops && rc == r.rc
    {
      if candidate.None? {
        return -1;
      }
      var msg := FormatIce(candidate.value, mlineIndex, mid);
      pending := Some(msg);
      rc := SendPending();
    }
  }

  /** The message text of cs_signaling_broadcast_sdp: the description is
      escaped, and the text is printed into strlen(type) + strlen(escaped)
      + 32 bytes. */
  method FormatSdp(sdpType: string, sdp: string) returns (msg: string)
    ensures msg == StagedSdp(sdpType, sdp)
  {
    var escaped := JsonEscape(sdp);
    var e := escaped[..escaped.Length - 1];
    var needed := |sdpType| + |e| + 32;
    msg := Snprintf("{\"type\":\"" + sdpType + "\",\"sdp\":\"" + e + "\"}", needed);
  }

  /** The message text of cs_signaling_broadcast_ice: the candidate is
      escaped, "0" stands for a NULL media id, and the text is printed into
      strlen(escaped) + strlen(mid, or 1) + 64 bytes. */
  method FormatIce(candidate: string, mlineIndex: int, mid: Option<string>) returns (msg: string)
    ensures msg == StagedIce(candidate, mlineIndex, mid)
  {
    var escaped := JsonEscape(candidate);
    var e := escaped[..escaped.Length - 1];
    var needed := |e| + (if mid.Some? then |mid.value| else 1) + 64;
    var m := if mid.Some? then mid.value else "0";
    msg := Snprintf("{\"type\":\"ice\",\"candidate\":\"" + e + "\",\"sdpMLineIndex\":"
      + IntToDecimal(mlineIndex) + ",\"sdpMid\":\"" + m + "\"}", needed);
  }

  /** The RECEIVE branch over its stack buffers: type[16], then sdp[8192] or
      candidate[1024] with sdp_mid[32] = "0" and an index starting at 0. */
  method OnReceive(payload: string) returns (up: Upcall)
    ensures up == Dispatch(payload)
  {
    var text := CStr(payload);
    var typeBuf := new char[TYPE_LEN];
    var rc := ExtractJsonString(text, "type", typeBuf);
    if rc != 0 {
      return NoUpcall;
    }
    var t := CStr(typeBuf[..]);
    assert ExtractString(text, "type", TYPE_LEN) == Some(t);
    if t == "answer" || t == "offer" {
      up := ReceiveDescription(text, t);
      DispatchDescription(payload, t);
    } else if t == "ice" {
      up := ReceiveCandidate(text);
      DispatchCandidate(payload);
    } else {
      up := NoUpcall;
      DispatchOther(payload, t);
    }
  }

  /** The description branch: sdp[8192]. */
  method ReceiveDescription(text: string, t: string) returns (up: Upcall)
    requires '\0' !in text
    ensures up == DescriptionUpcall(text, t)
  {
    var sdpBuf := new char[SDP_LEN];
    var rc := ExtractJsonString(text, "sdp", sdpBuf);
    up := if rc == 0 then RemoteSdp(t, CStr(sdpBuf[..])) else NoUpcall;
  }

  /** The candidate branch: candidate[1024], sdp_mid[32] holding "0" and an
      index starting at 0, each overwritten when its field is found. */
  method ReceiveCandidate(text: string) returns (up: Upcall)
    requires '\0' !in text
    ensures up == CandidateUpcall(text)
  {
    var candidateBuf := new char[CANDIDATE_LEN];
    var midBuf := new char[MID_LEN](_ => '\0');
    midBuf[0] := '0';
    assert CStr(midBuf[..]) == "0" by {
      CStrAt(midBuf[..], 1);
    }
    var index := 0;
    var rc := ExtractJsonString(text, "candidate", candidateBuf);
    if rc == 0 {
      var c := CStr(candidateBuf[..]);
      var _ := ExtractJsonString(text, "sdpMid", midBuf);
      var _, index' := ExtractJsonInt(text, "sdpMLineIndex", index);
      up := RemoteIce(c, index', CStr(midBuf[..]));
    } else {
      up := NoUpcall;
    }
  }

  /** The session reads the SDP message it formats for an offer or an
      answer back as that description, when the text has no quote or NUL and
      its escaped form fits the 8192-byte buffer. */
  lemma SdpWireDispatch(t: string, sdp: string)
    requires t == "answer" || t == "offer"
    requires '"' !in sdp && '\0' !in sdp && |Escape(sdp)| < SDP_LEN
    ensures Dispatch(SdpWire(t, sdp)) == RemoteSdp(t, sdp)
  {
    var text := SdpWire(t, sdp);
    PlainTypeName(t);
    SdpWireNoNul(t, sdp);
    CStrPlain(text);
    SdpWireDecodes(t, sdp);
    assert ExtractString(CStr(text), "type", TYPE_LEN) == Some(t);
    DispatchDescription(text, t);
  }

  /** The ICE message cs_signaling_broadcast_ice formats, received back,
      becomes the remote candidate it carries, provided the candidate holds
      no quote or NUL, is not the word sdpMid and escapes into fewer than
      1024 characters, and the media id holds no quote, backslash or NUL and
      is under 32 characters. */
  lemma IceWireDispatch(c: string, n: int, m: string)
    requires '"' !in c && '\0' !in c && c != "sdpMid" && |Escape(c)| < CANDIDATE_LEN
    requires '"' !in m && '\\' !in m && '\0' !in m && |m| < MID_LEN
    ensures Dispatch(IceWire(c, n, m)) == RemoteIce(c, n, m)
  {
    var text := IceWire(c, n, m);
    IceWireNoNul(c, n, m);
    CStrPlain(text);
    IceWireDecodes(c, n, m);
    DispatchCandidate(text);
  }

  /** A received ICE message whose candidate is the word sdpMid reports that
      word as its media id, whatever media id it carries. */
  lemma IceMidShadowDispatch(n: int, m: string)
    requires '"' !in m && '\0' !in m
    ensures Dispatch(IceWire("sdpMid", n, m)) == RemoteIce("sdpMid", n, "sdpMid")
  {
    var c := "sdpMid";
    var text := IceWire(c, n, m);
    EscapePlain(c);
    IceWireNoNul(c, n, m);
    CStrPlain(text);
    IceTypeDecodes(c, n, m);
    IceCandidateDecodes(c, n, m);
    IceIndexDecodes(c, n, m);
    IceMidShadowed(n, m);
    DispatchCandidate(text);
  }

  lemma DispatchDescription(payload: string, t: string)
    requires ExtractString(CStr(payload), "type", TYPE_LEN) == Some(t) && (t == "answer" || t == "offer")
    ensures Dispatch(payload) == DescriptionUpcall(CStr(payload), t)
  {
  }

  lemma DispatchCandidate(payload: string)
    requires ExtractString(CStr(payload), "type", TYPE_LEN) == Some("ice")
    ensures Dispatch(payload) == CandidateUpcall(CStr(payload))
  {
  }

  lemma DispatchOther(payload: string, t: string)
    requires ExtractString(CStr(payload), "type", TYPE_LEN) == Some(t) && t != "answer" && t != "offer" && t != "ice"
    ensures Dispatch(payload) == NoUpcall
  {
  }
}

/** The entry points of server/src/pipeline_gst.c. The GStreamer graph is a
    black box: what webrtcbin and appsrc answer (the offer a promise carries,
    whether an SDP text parses, whether appsrc accepts a buffer) arrives as
    a parameter, and the signals emitted on webrtcbin and the buffers handed
    to appsrc are recorded in order. */
module Pipeline {
  import opened CText

  /** The session description types of JSEP (section 4.1.10 of RFC 8829). */
  datatype SdpType = Offer | Pranswer | Answer | Rollback

  /** sdp_type_from_string: NULL and "offer" give an offer, "answer" and
      "pranswer" their own type, and every other text a rollback. */
  function SdpTypeFromString(t: Option<string>): (r: SdpType)
    ensures r == Offer <==> t == None || t == Some("offer")
    ensures r == Answer <==> t == Some("answer")
    ensures r == Pranswer <==> t == Some("pranswer")
    ensures r == Rollback <==> t.Some? && t.value !in {"offer", "answer", "pranswer"}
  {
    match t
    case None => Offer
    case Some(s) =>
      if s == "offer" then Offer
      else if s == "answer" then Answer
      else if s == "pranswer" then Pranswer
      else Rollback
  }

  /** The name of a type as the mapping reads it. */
  function TypeName(k: SdpType): string {
    match k
    case Offer => "offer"
    case Pranswer => "pranswer"
    case Answer => "answer"
    case Rollback => "rollback"
  }

  /** The names of offer, answer and pranswer map back to their type; the
      name "rollback" does too, but only by falling through. */
  lemma TypeNameRoundTrip(k: SdpType)
    ensures SdpTypeFromString(Some(TypeName(k))) == k
  {
  }

  /** The mapping is onto: every type has a text that yields it. */
  lemma EveryTypeReachable(k: SdpType)
    ensures exists t :: SdpTypeFromString(t) == k
  {
    TypeNameRoundTrip(k);
  }

  /** A buffer handed to appsrc: the frame bytes and both timestamps. */
  datatype Buffer = Buffer(data: seq<bv8>, pts: nat, dts: nat)

  /** A signal emitted on webrtcbin. */
  datatype Signal =
    | CreateOfferSignal
    | SetLocalDescription(sdp: string)
    | SetRemoteDescription(kind: SdpType, sdp: string)
    | AddIceCandidate(mlineIndex: int, candidate: string)

  /** The callback on_local_sdp or on_local_ice, invoked from the pipeline. */
  datatype LocalUpcall =
    | NoLocalUpcall
    | LocalSdp(sdpType: string, sdp: string)
    | LocalIce(candidate: string, mlineIndex: int, mid: string)

  /** What the create-offer promise delivers: no offer, or an offer with its
      description and whether rendering it as text succeeds. */
  datatype OfferReply = NoOffer | OfferMade(sdp: string, renders: bool)

  /** on_ice_candidate: the candidate goes to on_local_ice, when set, with the
      index cast from guint to int and the media id "0". */
  function IceUpcall(hook: bool, mlineIndex: nat, candidate: string): (r: LocalUpcall)
    requires mlineIndex < UINT32_LIMIT
    ensures r.LocalIce? <==> hook
    ensures r.LocalIce? ==> r.candidate == candidate && r.mid == "0"
    ensures r.LocalIce? ==> r.mlineIndex % UINT32_LIMIT == mlineIndex && -(INT32_LIMIT as int) <= r.mlineIndex < INT32_LIMIT
    ensures r.LocalIce? && mlineIndex < INT32_LIMIT ==> r.mlineIndex == mlineIndex
  {
    if hook then LocalIce(candidate, GuintToInt(mlineIndex), "0") else NoLocalUpcall
  }

  class Pipeline {
    /** The buffers appsrc accepted, in order. */
    var queued: seq<Buffer>
    /** The signals emitted on webrtcbin, in order. */
    var signals: seq<Signal>
    const localSdpHook: bool
    const localIceHook: bool

    constructor (localSdpHook: bool, localIceHook: bool)
      ensures queued == [] && signals == []
      ensures this.localSdpHook == localSdpHook && this.localIceHook == localIceHook
    {
      queued := [];
      signals := [];
      this.localSdpHook := localSdpHook;
      this.localIceHook := localIceHook;
    }

    /** on_ice_candidate, as webrtcbin calls it. */
    method OnIceCandidate(mlineIndex: nat, candidate: string) returns (up: LocalUpcall)
      requires mlineIndex < UINT32_LIMIT
      ensures up == IceUpcall(localIceHook, mlineIndex, candidate)
    {
      up := NoLocalUpcall;
      if localIceHook {
        up := LocalIce(candidate, GuintToInt(mlineIndex), "0");
      }
    }
  }

  /** cs_pipeline_push_frame: -1 for a NULL pipeline or buffer; otherwise a
      buffer of the first `len` bytes stamped with pts = dts = ptsNs, and 0
      exactly when appsrc accepts it. */
  method PushFrame(p: Pipeline?, rgba: Option<seq<bv8>>, len: nat, ptsNs: nat, accepted: bool) returns (rc: int)
    requires rgba.Some? ==> len <= |rgba.value|
    modifies p
    ensures p != null ==> p.signals == old(p.signals)
    ensures p != null && rgba.Some? && accepted
      ==> p.queued == old(p.queued) + [Buffer(rgba.value[..len], ptsNs, ptsNs)]
    ensures p != null && !(rgba.Some? && accepted) ==> p.queued == old(p.queued)
    ensures rc == (if p != null && rgba.Some? && accepted then 0 else -1)
  {
    if p == null || rgba.None? {
      return -1;
    }
    var buffer := Buffer(rgba.value[..len], ptsNs, ptsNs);
    if accepted {
      p.queued := p.queued + [buffer];
      rc := 0;
    } else {
      rc := -1;
    }
  }

  /** cs_pipeline_set_remote_description: -1 for a NULL pipeline or text or
      when the text does not parse; otherwise the description is set with
      the mapped type. */
  method SetRemote(p: Pipeline?, sdpType: Option<string>, sdp: Option<string>, parses: bool) returns (rc: int)
    modifies p
    ensures p != null ==> p.queued == old(p.queued)
    ensures p != null && sdp.Some? && parses
      ==> p.signals == old(p.signals) + [SetRemoteDescription(SdpTypeFromString(sdpType), sdp.value)]
    ensures p != null && !(sdp.Some? && parses) ==> p.signals == old(p.signals)
    ensures rc == (if p != null && sdp.Some? && parses then 0 else -1)
  {
    if p == null || sdp.None? {
      return -1;
    }
    if !parses {
      return -1;
    }
    p.signals := p.signals + [SetRemoteDescription(SdpTypeFromString(sdpType), sdp.value)];
    rc := 0;
  }

  /** cs_pipeline_create_offer: emits create-offer and waits; with an offer,
      sets it as the local description; with its text, hands the same text
      to on_local_sdp as an "offer" (when set) and returns it. */
  method CreateOffer(p: Pipeline?, reply: OfferReply) returns (out: Option<string>, up: LocalUpcall)
    modifies p
    ensures p == null ==> out.None? && up == NoLocalUpcall
    ensures p != null ==> p.queued == old(p.queued)
    ensures p != null && reply.NoOffer? ==> p.signals == old(p.signals) + [CreateOfferSignal]
    ensures p != null && reply.OfferMade?
      ==> p.signals == old(p.signals) + [CreateOfferSignal, SetLocalDescription(reply.sdp)]
    ensures out.Some? <==> p != null && reply.OfferMade? && reply.renders
    ensures out.Some? ==> out.value == reply.sdp
    ensures up.LocalSdp? <==> p != null && out.Some? && p.localSdpHook
    ensures up.LocalSdp? ==> up.sdpType == "offer" && Some(up.sdp) == out
    ensures !up.LocalIce?
  {
    out, up := None, NoLocalUpcall;
    if p == null {
      return;
    }
    p.signals := p.signals + [CreateOfferSignal];
    if reply.NoOffer? {
      return;
    }
    p.signals := p.signals + [SetLocalDescription(reply.sdp)];
    if !reply.renders {
      return;
    }
    out := Some(reply.sdp);
    if p.localSdpHook {
      up := LocalSdp("offer", out.value);
    }
  }

  /** cs_pipeline_add_ice_candidate: -1 for a NULL pipeline or candidate;
      otherwise the candidate is added with its line index, and the media id
      is ignored. */
  method AddIce(p: Pipeline?, candidate: Option<string>, mlineIndex: int, mid: Option<string>) returns (rc: int)
    modifies p
    ensures p != null ==> p.queued == old(p.queued)
    ensures p != null && candidate.Some?
      ==> p.signals == old(p.signals) + [AddIceCandidate(mlineIndex, candidate.value)]
    ensures p != null && candidate.None? ==> p.signals == old(p.signals)
    ensures rc == (if p != null && candidate.Some? then 0 else -1)
  {
    if p == null || candidate.None? {
      return -1;
    }
    p.signals := p.signals + [AddIceCandidate(mlineIndex, candidate.value)];
    rc := 0;
  }
}

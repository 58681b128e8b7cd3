/** The life cycle of a stream, section 5.1 of RFC 7540. */
module StreamState {
  import opened Errors

  datatype Initiator = User | Library | Remote

  datatype ProtoError = ResetError(reason: nat, initiator: Initiator) | GoAwayError(initiator: Initiator) | IoError {
    predicate IsLocal() {
      match this
      case ResetError(_, i) => !i.Remote?
      case GoAwayError(i) => !i.Remote?
      case IoError => true
    }

    /** The peer has reset the stream. */
    predicate IsRemoteReset() {
      ResetError? && initiator.Remote?
    }
  }

  datatype Peer = AwaitingHeaders | Streaming

  datatype Cause = EndStream | Failed(error: ProtoError) | ScheduledReset(reason: nat)

  datatype State =
    | Idle
    | ReservedLocal
    | ReservedRemote
    | Open(local: Peer, remote: Peer)
    | HalfClosedLocal(peer: Peer)
    | HalfClosedRemote(peer: Peer)
    | Closed(cause: Cause)
  {
    predicate IsSendStreaming() {
      (Open? && local.Streaming?) || (HalfClosedRemote? && peer.Streaming?)
    }

    predicate IsSendClosed() {
      Closed? || HalfClosedLocal? || ReservedRemote?
    }

    /** The send half has not been opened yet. */
    predicate IsSendAwaiting() {
      Idle? || ReservedLocal? || (Open? && local.AwaitingHeaders?) || (HalfClosedRemote? && peer.AwaitingHeaders?)
    }

    predicate IsRecvHeaders() {
      Idle? || (Open? && remote.AwaitingHeaders?) || (HalfClosedLocal? && peer.AwaitingHeaders?) || ReservedRemote?
    }

    predicate IsRecvStreaming() {
      (Open? && remote.Streaming?) || (HalfClosedLocal? && peer.Streaming?)
    }

    predicate IsRecvEndStream() {
      (Closed? && cause.EndStream?) || HalfClosedRemote?
    }

    predicate IsScheduledReset() {
      Closed? && cause.ScheduledReset?
    }

    predicate IsRemoteReset() {
      Closed? && cause.Failed? && cause.error.IsRemoteReset()
    }

    predicate IsReset() {
      Closed? && !cause.EndStream?
    }

    predicate IsLocalError() {
      Closed? && match cause
                 case EndStream => false
                 case Failed(e) => e.IsLocal()
                 case ScheduledReset(_) => true
    }
  }

  /** Opens the send half; None where the call is an error. */
  function SendOpen(s: State, eos: bool): Option<State> {
    match s
    case Idle => Some(if eos then HalfClosedLocal(AwaitingHeaders) else Open(Streaming, AwaitingHeaders))
    case Open(AwaitingHeaders, remote) => Some(if eos then HalfClosedLocal(remote) else Open(Streaming, remote))
    case HalfClosedRemote(AwaitingHeaders) => Some(if eos then Closed(EndStream) else HalfClosedRemote(Streaming))
    case ReservedLocal => Some(if eos then Closed(EndStream) else HalfClosedRemote(Streaming))
    case _ => None
  }

  /** Opens the receive half on HEADERS, and says whether they were the first of the stream. */
  function RecvOpen(s: State, eos: bool, informational: bool): Option<(State, bool)> {
    var remote := if informational then AwaitingHeaders else Streaming;
    match s
    case Idle => Some((if eos then HalfClosedRemote(AwaitingHeaders) else Open(AwaitingHeaders, remote), true))
    case ReservedRemote =>
      Some((if eos then Closed(EndStream) else if informational then ReservedRemote
            else HalfClosedLocal(Streaming), true))
    case Open(local, AwaitingHeaders) => Some((if eos then HalfClosedRemote(local) else Open(local, remote), false))
    case HalfClosedLocal(AwaitingHeaders) =>
      Some((if eos then Closed(EndStream) else HalfClosedLocal(remote), false))
    case _ => None
  }

  function RecvClose(s: State): Option<State> {
    match s
    case Open(local, _) => Some(HalfClosedRemote(local))
    case HalfClosedLocal(_) => Some(Closed(EndStream))
    case _ => None
  }

  /** The peer reset the stream; a closed stream with nothing queued keeps its cause. */
  function RecvReset(s: State, reason: nat, queued: bool): State {
    if s.Closed? && !queued then s else Closed(Failed(ResetError(reason, Remote)))
  }

  function HandleError(s: State, e: ProtoError): State {
    if s.Closed? then s else Closed(Failed(e))
  }

  /** Ends the send half; any other state is a panic. */
  function SendClose(s: State): State
    requires s.Open? || s.HalfClosedRemote?
  {
    match s
    case Open(_, remote) => HalfClosedLocal(remote)
    case _ => Closed(EndStream)
  }

  // ===== laws =====

  datatype Transition =
    | SentHeaders(eos: bool)
    | GotHeaders(eos: bool, informational: bool)
    | GotEnd
    | GotReset(reason: nat, queued: bool)
    | GotError(error: ProtoError)
    | SentEnd
    | Reset(reason: nat, initiator: Initiator)
    | Schedule(reason: nat)

  /** Any one of the transitions; one that is an error leaves the state as it was. */
  function Step(s: State, t: Transition): State {
    match t
    case SentHeaders(eos) => SendOpen(s, eos).GetOr(s)
    case GotHeaders(eos, informational) => RecvOpen(s, eos, informational).GetOr((s, false)).0
    case GotEnd => RecvClose(s).GetOr(s)
    case GotReset(reason, queued) => RecvReset(s, reason, queued)
    case GotError(e) => HandleError(s, e)
    case SentEnd => if s.Open? || s.HalfClosedRemote? then SendClose(s) else s
    case Reset(reason, initiator) => Closed(Failed(ResetError(reason, initiator)))
    case Schedule(reason) => if s.Closed? then s else Closed(ScheduledReset(reason))
  }

  function Steps(s: State, ts: seq<Transition>): State
    decreases |ts|
  {
    if ts == [] then s else Steps(Step(s, ts[0]), ts[1..])
  }

  /**
   Whatever happens to a stream, a closed half stays closed: neither side can send again once its half has
   ended, and a closed stream is never reopened.
   */
  lemma {:induction false} HalvesStayClosed(s: State, ts: seq<Transition>)
    ensures s.Closed? ==> Steps(s, ts).Closed?
    ensures s.IsSendClosed() ==> !Steps(s, ts).IsSendStreaming()
    ensures s.Closed? || s.HalfClosedRemote? ==> !Steps(s, ts).IsRecvStreaming()
    ensures s.Closed? || s.HalfClosedRemote? ==> Steps(s, ts).Closed? || Steps(s, ts).HalfClosedRemote?
    ensures s.IsSendClosed() ==> Steps(s, ts).IsSendClosed()
    ensures !s.IsSendAwaiting() ==> !Steps(s, ts).IsSendAwaiting()
    decreases |ts|
  {
    if ts != [] {
      HalvesStayClosed(Step(s, ts[0]), ts[1..]);
    }
  }
}

/** How the scheduler feeds one stream with capacity and takes frames from it. */
module Scheduler {
  import opened Errors
  import opened StreamState
  import opened StreamStore
  import opened FlowControl

  /** The reset code of a stream whose handles were dropped. */
  const CANCEL := 8

  /** What is still queued of such a stream is thrown away. */
  predicate WillClear(s: State) {
    s.IsRemoteReset() || (s.IsScheduledReset() && s.cause.reason == CANCEL)
  }

  // ===== capacity =====

  /** How much of the connection window a stream that has `rem` octets left may be given. */
  function Share(flow: int, sendFlow: int, rem: nat): (r: nat)
    ensures r <= AsSize(flow) && r <= AsSize(sendFlow) && r <= rem
  {
    Min(Min(AsSize(flow), AsSize(sendFlow)), Wrap(rem))
  }

  /** The stream and the connection window after trying to assign capacity. */
  function TryAssign(s: Stream, flow: int): (Stream, int) {
    if AsSize(s.sendFlow) == 0 then (s, flow)
    else if AsSize(flow) == 0 then (s.(queued := s.queued + {Capacity}), flow)
    else if s.remaining.None? then (s, flow)
    else
      var n := Share(flow, s.sendFlow, s.remaining.value);
      (s.(queued := s.queued + {Send}, connWindow := Wrap(s.connWindow + n)), flow - n)
  }

  // ===== taking a frame =====

  /** The frame to send, if any, and what is left of the stream and of the connection window. */
  datatype Popped = Popped(frame: Option<Frame>, stream: Stream, flow: int)

  /** The stream's send half can be ended. */
  predicate CanSendClose(s: State) {
    s.Open? || s.HalfClosedRemote?
  }

  /** After the last of the body: END_STREAM if nothing follows, otherwise the trailers will carry it. */
  function EndBody(s: Stream, payload: Bytes, eos: bool, flow: int): (p: Popped)
    requires CanSendClose(s.state)
    ensures p.frame.Some? && Length(p.frame) == |payload|
    ensures p.stream.id == s.id && p.stream.queued == s.queued && p.stream.isCounted == s.isCounted
    ensures p.stream.state == s.state || p.stream.state == SendClose(s.state)
  {
    if s.frames == [] then Popped(Some(Data(payload, true)), s.(state := SendClose(s.state)), flow)
    else Popped(Some(Data(payload, eos)), s.(isSendingTrailer := true), flow)
  }

  /** Sends as much of the DATA frame just taken off the stream as the three limits allow. */
  function PopData(s: Stream, flow: int, maxFrame: nat, payload: Bytes, eos: bool): Popped
    requires CanSendClose(s.state)
    requires s.remaining.Some? ==> s.remaining.value == |payload|
  {
    if s.remaining.None? then Popped(None, s, flow)
    else if payload == [] then EndBody(s.(remaining := None), payload, eos, flow)
    else if AsSize(s.sendFlow) == 0 then Popped(None, s.(frames := [Data(payload, eos)] + s.frames), flow)
    else
      var n := if s.connWindow == 0 then Share(flow, s.sendFlow, |payload|) else 0;
      if s.connWindow == 0 && n == 0 then
        Popped(None, s.(frames := [Data(payload, eos)] + s.frames, queued := s.queued + {Capacity}), flow)
      else SendData(s.(connWindow := s.connWindow + n), flow - n, maxFrame, payload, eos)
  }

  /** The number of octets the next DATA frame carries. */
  function DataLength(s: Stream, maxFrame: nat, rem: nat): (r: nat)
    ensures r <= rem && r <= maxFrame && r <= AsSize(s.sendFlow) && r <= s.connWindow
  {
    Min(Min(Wrap(Min(rem, maxFrame)), AsSize(s.sendFlow)), s.connWindow)
  }

  function SendData(s: Stream, flow: int, maxFrame: nat, payload: Bytes, eos: bool): (p: Popped)
    requires CanSendClose(s.state)
    ensures p.frame.Some?
    ensures p.stream.id == s.id && p.stream.queued == s.queued && p.stream.isCounted == s.isCounted
    ensures p.stream.state == s.state || p.stream.state == SendClose(s.state)
  {
    var len := DataLength(s, maxFrame, |payload|);
    var s' := s.(sendFlow := s.sendFlow - len, connWindow := s.connWindow - len);
    if len == |payload| then EndBody(s'.(remaining := None), payload, false, flow)
    else
      Popped(Some(Data(payload[..len], false)),
             s'.(remaining := Some(|payload| - len), frames := [Data(payload[len..], eos)] + s.frames), flow)
  }

  /** What is thrown away first. */
  function Cleared(s: Stream): Stream {
    if WillClear(s.state) then s.(frames := [], remaining := None) else s
  }

  /** Takes the first frame of a stream. */
  function PopHead(s: Stream, flow: int, maxFrame: nat): Popped
    requires BodyOk(s)
  {
    var s := Cleared(s);
    if s.frames == [] then
      if s.state.IsScheduledReset() then
        Popped(Some(RstStream(s.state.cause.reason)),
               s.(state := Closed(Failed(ResetError(s.state.cause.reason, Library)))), flow)
      else Popped(None, s, flow)
    else
      var rest := s.(frames := s.frames[1..]);
      match s.frames[0]
      case Data(payload, eos) =>
        BodyFirst(s);
        PopData(rest, flow, maxFrame, payload, eos)
      case Headers(eos) =>
        var (t, flow') := if s.remaining.Some? then TryAssign(rest, flow) else (rest, flow);
        Popped(Some(Headers(eos)), if s.isSendingTrailer then t.(state := SendClose(t.state)) else t, flow')
      case RstStream(reason) => Popped(Some(RstStream(reason)), rest, flow)
  }

  // ===== what a stream may look like =====

  /** Where the body is: at the front, or behind the headers. */
  function BodyAt(frames: seq<Frame>): nat {
    if frames != [] && frames[0].Data? then 0 else 1
  }

  /** One DATA frame, whose length is on record, with at most the headers before it and the trailers after it. */
  ghost predicate Shaped(frames: seq<Frame>, remaining: Option<nat>) {
    match remaining
    case None => forall i :: 0 <= i < |frames| ==> !frames[i].Data?
    case Some(rem) =>
      var p := BodyAt(frames);
      && p < |frames| <= p + 2 && frames[p].Data? && |frames[p].payload| == rem
      && forall i :: 0 <= i < |frames| && i != p ==> !frames[i].Data?
  }

  /**
   Nothing is queued before the send half is opened; the body has its shape; and while there is something to send
   after which the send half will be ended, it can be ended, unless it will be thrown away.
   */
  ghost predicate BodyOk(s: Stream) {
    && (s.state.IsSendAwaiting() ==> s.frames == [] && s.remaining.None? && !s.isSendingTrailer)
    && Shaped(s.frames, s.remaining)
    && (s.isSendingTrailer ==> |s.frames| <= 1)
    && (s.remaining.Some? || (s.isSendingTrailer && s.frames != [] && s.frames[0].Headers?) ==>
          s.state.IsSendStreaming() || WillClear(s.state))
  }

  lemma BodyFirst(s: Stream)
    requires BodyOk(s) && !WillClear(s.state) && s.frames != [] && s.frames[0].Data?
    ensures s.state.IsSendStreaming() && s.remaining == Some(|s.frames[0].payload|)
  {
  }

  /** A stream whose DATA frame has just been taken off. */
  ghost predicate Taken(s: Stream, rem: nat) {
    && s.state.IsSendStreaming() && s.remaining == Some(rem)
    && |s.frames| <= 1 && (s.frames != [] ==> !s.frames[0].Data?) && (s.isSendingTrailer ==> s.frames == [])
  }

  lemma TakeBody(s: Stream)
    requires BodyOk(s) && !WillClear(s.state) && s.frames != [] && s.frames[0].Data?
    ensures Taken(s.(frames := s.frames[1..]), |s.frames[0].payload|)
  {
  }

  lemma EndBodyKeeps(s: Stream, payload: Bytes, eos: bool, flow: int)
    requires Taken(s, |payload|)
    ensures BodyOk(EndBody(s.(remaining := None), payload, eos, flow).stream)
  {
  }

  lemma RestKeeps(s: Stream, rem: nat, payload: Bytes, eos: bool)
    requires Taken(s, rem)
    ensures BodyOk(s.(remaining := Some(|payload|), frames := [Data(payload, eos)] + s.frames))
  {
  }

  lemma TakenFlows(s: Stream, rem: nat, sendFlow: int, connWindow: nat)
    requires Taken(s, rem)
    ensures Taken(s.(sendFlow := sendFlow, connWindow := connWindow), rem)
  {
  }

  lemma SendDataKeeps(s: Stream, flow: int, maxFrame: nat, payload: Bytes, eos: bool)
    requires Taken(s, |payload|)
    ensures CanSendClose(s.state) && BodyOk(SendData(s, flow, maxFrame, payload, eos).stream)
  {
    hide BodyOk, EndBody, DataLength, Taken;
    var len := DataLength(s, maxFrame, |payload|);
    TakenCloses(s, |payload|);
    TakenFlows(s, |payload|, s.sendFlow - len, s.connWindow - len);
    var s' := s.(sendFlow := s.sendFlow - len, connWindow := s.connWindow - len);
    EndBodyKeeps(s', payload, false, flow);
    RestKeeps(s', |payload|, payload[len..], eos);
  }

  lemma TakenCloses(s: Stream, rem: nat)
    requires Taken(s, rem)
    ensures CanSendClose(s.state) && s.remaining == Some(rem)
  {
  }

  lemma PopDataKeeps(s: Stream, flow: int, maxFrame: nat, payload: Bytes, eos: bool)
    requires Taken(s, |payload|)
    ensures CanSendClose(s.state) && s.remaining == Some(|payload|)
    ensures BodyOk(PopData(s, flow, maxFrame, payload, eos).stream)
  {
    hide BodyOk, EndBody, SendData, Taken, Share;
    TakenCloses(s, |payload|);
    EndBodyKeeps(s, payload, eos, flow);
    RestKeeps(s, |payload|, payload, eos);
    BodyQueued(s.(frames := [Data(payload, eos)] + s.frames), s.queued + {Capacity}, s.connWindow);
    var n := if s.connWindow == 0 then Share(flow, s.sendFlow, |payload|) else 0;
    TakenFlows(s, |payload|, s.sendFlow, s.connWindow + n);
    SendDataKeeps(s.(connWindow := s.connWindow + n), flow - n, maxFrame, payload, eos);
  }

  lemma BodyQueued(s: Stream, queued: set<Which>, connWindow: nat)
    ensures BodyOk(s.(queued := queued)) == BodyOk(s)
    ensures BodyOk(s.(queued := queued, connWindow := connWindow)) == BodyOk(s)
  {
  }

  /** Taking a frame keeps the stream in order. */
  lemma PopKeepsBody(s: Stream, flow: int, maxFrame: nat)
    requires BodyOk(s)
    ensures BodyOk(PopHead(s, flow, maxFrame).stream)
  {
    hide PopData, TryAssign, WillClear, Shaped;
    ClearedKeeps(s);
    var c := Cleared(s);
    if c.frames == [] {
      ResetKeeps(c);
    } else {
      match c.frames[0]
      case Data(payload, eos) =>
        TakeBody(c);
        PopDataKeeps(c.(frames := c.frames[1..]), flow, maxFrame, payload, eos);
      case Headers(_) => HeadersKeep(c, flow);
      case RstStream(_) => HeadersKeep(c, flow);
    }
  }

  lemma ClearedKeeps(s: Stream)
    requires BodyOk(s)
    ensures BodyOk(Cleared(s)) && (Cleared(s).frames != [] ==> !WillClear(Cleared(s).state))
  {
  }

  lemma ResetKeeps(s: Stream)
    requires BodyOk(s) && s.frames == []
    ensures s.state.IsScheduledReset() ==>
              BodyOk(s.(state := Closed(Failed(ResetError(s.state.cause.reason, Library)))))
  {
  }

  /** Taking the headers, the trailers or a reset. */
  lemma HeadersKeep(s: Stream, flow: int)
    requires BodyOk(s) && !WillClear(s.state) && s.frames != [] && !s.frames[0].Data?
    ensures var rest := s.(frames := s.frames[1..]);
            var t := if s.remaining.Some? then TryAssign(rest, flow).0 else rest;
            && BodyOk(rest) && BodyOk(t)
            && (s.frames[0].Headers? && s.isSendingTrailer ==>
               CanSendClose(t.state) && BodyOk(t.(state := SendClose(t.state))))
  {
    var rest := s.(frames := s.frames[1..]);
    BodyQueued(rest, TryAssign(rest, flow).0.queued, TryAssign(rest, flow).0.connWindow);
  }

  // ===== a whole message =====

  /** The octets of the DATA frames. */
  function DataOf(frames: seq<Frame>): Bytes {
    if frames == [] then []
    else (if frames[0].Data? then frames[0].payload else []) + DataOf(frames[1..])
  }

  /** The frame carries END_STREAM. */
  predicate EndsStream(f: Frame) {
    !f.RstStream? && f.eos
  }

  /** END_STREAM is on the last frame and on no other. */
  ghost predicate EndsLast(frames: seq<Frame>) {
    forall i :: 0 <= i < |frames| ==> (EndsStream(frames[i]) <==> i == |frames| - 1)
  }

  /** The frames of a message: headers, perhaps a body, perhaps trailers. */
  function Message(body: Option<Bytes>, trailers: bool): (r: seq<Frame>)
    ensures EndsLast(r)
  {
    [Headers(body.None? && !trailers)]
    + (if body.Some? then [Data(body.value, !trailers)] else [])
    + (if trailers then [Headers(true)] else [])
  }

  /** The stream is open for sending, or has nothing left to send. */
  ghost predicate Sending(s: Stream) {
    BodyOk(s) && EndsLast(s.frames) && !WillClear(s.state) && !s.state.IsScheduledReset()
  }

  lemma DataCons(f: Frame, frames: seq<Frame>)
    ensures DataOf([f] + frames) == (if f.Data? then f.payload else []) + DataOf(frames)
  {
    assert ([f] + frames)[1..] == frames;
  }

  lemma TailEnds(frames: seq<Frame>)
    requires EndsLast(frames) && frames != []
    ensures EndsLast(frames[1..]) && (EndsStream(frames[0]) <==> |frames| == 1)
  {
    assert forall i :: 0 <= i < |frames| - 1 ==> frames[1..][i] == frames[i + 1];
  }

  /** No octet of the body is lost or repeated by one step, and only the last frame of the message ends the stream. */
  lemma PopSends(s: Stream, flow: int, maxFrame: nat)
    requires Sending(s)
    ensures BodyOk(s)
    ensures var p := PopHead(s, flow, maxFrame);
            && Sending(p.stream)
            && match p.frame
               case None => p.stream.frames == s.frames
               case Some(f) =>
                 && s.frames != [] && (EndsStream(f) <==> p.stream.frames == [])
                 && DataOf([f] + p.stream.frames) == DataOf(s.frames)
  {
    hide PopData, TryAssign, WillClear, Shaped, SendClose, DataOf;
    PopKeepsBody(s, flow, maxFrame);
    PopStays(s, flow, maxFrame);
    if s.frames != [] {
      var f, rest := s.frames[0], s.frames[1..];
      assert s.frames == [f] + rest;
      TailEnds(s.frames);
      if f.Data? {
        DataCons(f, rest);
        BodyFirst(s);
        PopDataSends(s.(frames := rest), flow, maxFrame, f.payload, f.eos);
      } else {
        AssignFrames(s.(frames := rest), flow);
      }
    }
  }

  lemma AssignFrames(s: Stream, flow: int)
    ensures TryAssign(s, flow).0.frames == s.frames && TryAssign(s, flow).0.state == s.state
  {
  }

  /** A stream that is not being reset is not reset by sending. */
  lemma PopStays(s: Stream, flow: int, maxFrame: nat)
    requires BodyOk(s) && !WillClear(s.state) && !s.state.IsScheduledReset()
    ensures var t := PopHead(s, flow, maxFrame).stream.state; !WillClear(t) && !t.IsScheduledReset()
  {
    hide Shaped, TryAssign, Share, DataLength;
    AssignFrames(s.(frames := if s.frames == [] then [] else s.frames[1..]), flow);
  }

  /** What sending from a taken DATA frame and the frames behind it comes to. */
  ghost predicate Sends(p: Popped, payload: Bytes, eos: bool, frames: seq<Frame>) {
    && EndsLast(p.stream.frames)
    && match p.frame
       case None => p.stream.frames == [Data(payload, eos)] + frames
       case Some(f) =>
         && (EndsStream(f) <==> p.stream.frames == [])
         && DataOf([f] + p.stream.frames) == payload + DataOf(frames)
  }

  lemma EndBodySends(s: Stream, payload: Bytes, eos: bool, last: bool, flow: int)
    requires CanSendClose(s.state) && EndsLast([Data(payload, eos)] + s.frames) && (s.frames != [] ==> last == false)
    ensures Sends(EndBody(s, payload, last, flow), payload, eos, s.frames)
  {
    var all := [Data(payload, eos)] + s.frames;
    TailEnds(all);
    assert all[1..] == s.frames;
    DataCons(EndBody(s, payload, last, flow).frame.value, s.frames);
  }

  lemma SendDataSends(s: Stream, flow: int, maxFrame: nat, payload: Bytes, eos: bool)
    requires CanSendClose(s.state) && EndsLast([Data(payload, eos)] + s.frames)
    ensures Sends(SendData(s, flow, maxFrame, payload, eos), payload, eos, s.frames)
  {
    hide EndBody, DataLength, DataOf;
    var len := DataLength(s, maxFrame, |payload|);
    var all := [Data(payload, eos)] + s.frames;
    var s' := s.(sendFlow := s.sendFlow - len, connWindow := s.connWindow - len);
    if len == |payload| {
      EndBodySends(s'.(remaining := None), payload, eos, false, flow);
    } else {
      var part, rest := Data(payload[..len], false), [Data(payload[len..], eos)] + s.frames;
      DataCons(part, rest);
      DataCons(Data(payload[len..], eos), s.frames);
      assert payload[..len] + payload[len..] == payload;
      assert forall i :: 1 <= i < |all| ==> rest[i] == all[i];
      assert EndsStream(all[0]) == EndsStream(rest[0]);
    }
  }

  lemma PopDataSends(s: Stream, flow: int, maxFrame: nat, payload: Bytes, eos: bool)
    requires CanSendClose(s.state) && s.remaining == Some(|payload|)
    requires EndsLast([Data(payload, eos)] + s.frames)
    ensures Sends(PopData(s, flow, maxFrame, payload, eos), payload, eos, s.frames)
  {
    hide EndBody, SendData, Share, DataOf;
    var all := [Data(payload, eos)] + s.frames;
    TailEnds(all);
    EndBodySends(s.(remaining := None), payload, eos, eos, flow);
    var n := if s.connWindow == 0 then Share(flow, s.sendFlow, |payload|) else 0;
    SendDataSends(s.(connWindow := s.connWindow + n), flow - n, maxFrame, payload, eos);
  }

  /** The octets a frame takes from the windows. */
  function Length(frame: Option<Frame>): nat {
    if frame.Some? && frame.value.Data? then |frame.value.payload| else 0
  }

  /** What is sent comes off the stream window and off what the stream and the connection hold between them. */
  ghost predicate Spends(s: Stream, flow: int, p: Popped) {
    var len := Length(p.frame);
    && len <= AsSize(s.sendFlow) && p.stream.sendFlow == s.sendFlow - len
    && p.flow + p.stream.connWindow + len == flow + s.connWindow
    && p.flow <= flow && (p.flow == flow || p.flow >= 0)
    && (p.stream.connWindow <= s.connWindow || p.stream.connWindow <= AsSize(flow))
  }

  lemma SendDataSpends(s: Stream, flow: int, maxFrame: nat, payload: Bytes, eos: bool)
    requires CanSendClose(s.state)
    ensures var p := SendData(s, flow, maxFrame, payload, eos); Spends(s, flow, p) && Length(p.frame) <= maxFrame
  {
    hide Min, SendClose;
  }

  lemma PopDataSpends(s: Stream, flow: int, maxFrame: nat, payload: Bytes, eos: bool)
    requires CanSendClose(s.state) && (s.remaining.Some? ==> s.remaining.value == |payload|)
    ensures var p := PopData(s, flow, maxFrame, payload, eos); Spends(s, flow, p) && Length(p.frame) <= maxFrame
  {
    hide SendData, Share, SendClose;
    var n := if s.connWindow == 0 then Share(flow, s.sendFlow, |payload|) else 0;
    SendDataSpends(s.(connWindow := s.connWindow + n), flow - n, maxFrame, payload, eos);
  }

  /** A DATA frame fits the frame limit and the stream window, and is paid for with the connection window. */
  lemma DataLimits(s: Stream, flow: int, maxFrame: nat)
    requires BodyOk(s)
    ensures var p := PopHead(s, flow, maxFrame);
            && Length(p.frame) <= maxFrame
            && (p.frame.Some? && p.frame.value.Data? ==> Spends(s, flow, p))
            && (p.frame.None? ==> Spends(s, flow, p))
  {
    hide PopData, TryAssign, SendClose, Shaped;
    var c := Cleared(s);
    if c.frames != [] && c.frames[0].Data? {
      BodyFirst(c);
      PopDataSpends(c.(frames := c.frames[1..]), flow, maxFrame, c.frames[0].payload, c.frames[0].eos);
    }
  }

  /**
   A stream with body left stays put exactly when its own window is used up, or it holds no share of the connection
   window and can get none; otherwise at least one octet goes out. A share cannot be had of an empty connection
   window, nor for a body whose rest is a multiple of 2^32 octets, as that length reads as zero in 32 bits.
   */
  lemma Progress(s: Stream, flow: int, maxFrame: nat)
    requires Sending(s) && s.frames != [] && s.frames[0].Data? && s.remaining.value > 0
    requires 0 < maxFrame < U32
    ensures var p := PopHead(s, flow, maxFrame);
            && (p.frame.None? <==>
                s.sendFlow <= 0 || (s.connWindow == 0 && (flow <= 0 || s.remaining.value % U32 == 0)))
            && (p.frame.Some? ==> p.frame.value.Data? && |p.frame.value.payload| >= 1)
  {
    BodyFirst(s);
  }

  /** Anything that can happen between two frames of a stream that is not reset, and the taking of a frame. */
  datatype SendStep =
    | Adjust(sendFlow: int, connWindow: nat, flow: int, queued: set<Which>)
    | Receive(state: State)
    | Pop(maxFrame: nat)

  /** The receive half moved on. */
  predicate Received(s: State, t: State) {
    || t == s
    || (s.Open? && t == HalfClosedRemote(s.local))
    || (s.Open? && t.Open? && t.local == s.local)
    || (s.HalfClosedLocal? && (t.HalfClosedLocal? || t == Closed(EndStream)))
  }

  lemma StaysSending(s: Stream, sendFlow: int, connWindow: nat, queued: set<Which>, t: State)
    requires Sending(s)
    ensures Sending(s.(sendFlow := sendFlow, connWindow := connWindow, queued := queued))
    ensures Received(s.state, t) ==> Sending(s.(state := t))
  {
  }

  /** The stream, the connection window and the frames sent after a run. */
  function SendRun(s: Stream, flow: int, steps: seq<SendStep>): (Stream, seq<Frame>)
    requires Sending(s)
    decreases |steps|
  {
    if steps == [] then (s, [])
    else
      match steps[0]
      case Adjust(sendFlow, connWindow, flow', queued) =>
        SendRun(s.(sendFlow := sendFlow, connWindow := connWindow, queued := queued), flow', steps[1..])
      case Receive(t) =>
        if Received(s.state, t) then SendRun(s.(state := t), flow, steps[1..]) else SendRun(s, flow, steps[1..])
      case Pop(maxFrame) =>
        PopSends(s, flow, maxFrame);
        var p := PopHead(s, flow, maxFrame);
        var (t, sent) := SendRun(p.stream, p.flow, steps[1..]);
        (t, if p.frame.Some? then [p.frame.value] + sent else sent)
  }

  /**
   Whatever the windows do in between, the DATA frames of a stream concatenate to the body that was queued, as far
   as it has been sent; and END_STREAM is on the last frame of the message and on no other.
   */
  lemma {:induction false} BodyTransmission(s: Stream, flow: int, steps: seq<SendStep>)
    requires Sending(s) && s.frames != []
    ensures var (t, sent) := SendRun(s, flow, steps);
            && DataOf(sent) + DataOf(t.frames) == DataOf(s.frames)
            && (t.frames == [] ==> DataOf(sent) == DataOf(s.frames) && sent != [] && EndsLast(sent))
            && (t.frames != [] ==> forall i :: 0 <= i < |sent| ==> !EndsStream(sent[i]))
    decreases |steps|
  {
    hide Sending, PopHead, EndsStream;
    if steps != [] {
      match steps[0]
      case Adjust(sendFlow, connWindow, flow', queued) =>
        StaysSending(s, sendFlow, connWindow, queued, s.state);
        BodyTransmission(s.(sendFlow := sendFlow, connWindow := connWindow, queued := queued), flow', steps[1..]);
      case Receive(t) =>
        StaysSending(s, s.sendFlow, s.connWindow, s.queued, t);
        BodyTransmission(if Received(s.state, t) then s.(state := t) else s, flow, steps[1..]);
      case Pop(maxFrame) =>
        PopSends(s, flow, maxFrame);
        var p := PopHead(s, flow, maxFrame);
        if p.stream.frames != [] {
          BodyTransmission(p.stream, p.flow, steps[1..]);
        } else {
          NothingLeft(p.stream, p.flow, steps[1..]);
        }
        var (t, sent) := SendRun(p.stream, p.flow, steps[1..]);
        if p.frame.Some? {
          DataCons(p.frame.value, sent);
          DataCons(p.frame.value, p.stream.frames);
        }
    }
  }

  /** A stream with nothing left sends nothing more. */
  lemma {:induction false} NothingLeft(s: Stream, flow: int, steps: seq<SendStep>)
    requires Sending(s) && s.frames == []
    ensures SendRun(s, flow, steps).1 == [] && SendRun(s, flow, steps).0.frames == []
    decreases |steps|
  {
    hide Sending, PopHead;
    if steps != [] {
      match steps[0]
      case Adjust(sendFlow, connWindow, flow', queued) =>
        StaysSending(s, sendFlow, connWindow, queued, s.state);
        NothingLeft(s.(sendFlow := sendFlow, connWindow := connWindow, queued := queued), flow', steps[1..]);
      case Receive(t) =>
        StaysSending(s, s.sendFlow, s.connWindow, s.queued, t);
        NothingLeft(if Received(s.state, t) then s.(state := t) else s, flow, steps[1..]);
      case Pop(maxFrame) =>
        PopSends(s, flow, maxFrame);
        var p := PopHead(s, flow, maxFrame);
        NothingLeft(p.stream, p.flow, steps[1..]);
    }
  }

  // ===== how a message ends =====

  /** The last frame will end the send half, or it has ended. */
  ghost predicate WillEnd(s: Stream) {
    s.state.IsSendClosed() || s.remaining.Some? || (s.isSendingTrailer && s.frames != [])
  }

  /** Nothing that is still queued will end the send half. */
  ghost predicate NeverEnds(s: Stream) {
    s.state.IsSendStreaming() && s.remaining.None? && !s.isSendingTrailer
  }

  lemma PopEnds(s: Stream, flow: int, maxFrame: nat)
    requires Sending(s)
    ensures BodyOk(s)
    ensures WillEnd(s) ==> WillEnd(PopHead(s, flow, maxFrame).stream)
    ensures NeverEnds(s) ==> NeverEnds(PopHead(s, flow, maxFrame).stream)
  {
    hide Share, DataLength, WillClear;
    assert Cleared(s) == s;
    if s.frames != [] {
      var rest := s.(frames := s.frames[1..]);
      AssignFrames(rest, flow);
      AssignKeeps(rest, flow);
      if s.frames[0].Data? {
        BodyFirst(s);
      }
    }
  }

  lemma AssignKeeps(s: Stream, flow: int)
    ensures var t := TryAssign(s, flow).0; t.remaining == s.remaining && t.isSendingTrailer == s.isSendingTrailer
  {
  }

  lemma {:induction false} RunEnds(s: Stream, flow: int, steps: seq<SendStep>)
    requires Sending(s)
    ensures WillEnd(s) ==> WillEnd(SendRun(s, flow, steps).0)
    ensures NeverEnds(s) ==> NeverEnds(SendRun(s, flow, steps).0)
    ensures Sending(SendRun(s, flow, steps).0)
    decreases |steps|
  {
    hide Sending, PopHead;
    if steps != [] {
      match steps[0]
      case Adjust(sendFlow, connWindow, flow', queued) =>
        StaysSending(s, sendFlow, connWindow, queued, s.state);
        RunEnds(s.(sendFlow := sendFlow, connWindow := connWindow, queued := queued), flow', steps[1..]);
      case Receive(t) =>
        StaysSending(s, s.sendFlow, s.connWindow, s.queued, t);
        RunEnds(if Received(s.state, t) then s.(state := t) else s, flow, steps[1..]);
      case Pop(maxFrame) =>
        PopSends(s, flow, maxFrame);
        PopEnds(s, flow, maxFrame);
        var p := PopHead(s, flow, maxFrame);
        RunEnds(p.stream, p.flow, steps[1..]);
    }
  }

  /**
   Once the frame with END_STREAM is out, the send half is closed exactly if the message has a body or has no
   trailers: trailers close it only after a body.
   */
  lemma MessageEnds(s: Stream, flow: int, steps: seq<SendStep>, before: State, body: Option<Bytes>, trailers: bool)
    requires Sending(s) && s.frames == Message(body, trailers) && !s.isSendingTrailer
    requires s.remaining == if body.Some? then Some(|body.value|) else None
    requires SendOpen(before, body.None? && !trailers) == Some(s.state)
    ensures var t := SendRun(s, flow, steps).0;
            t.frames == [] ==>
              && (t.state.IsSendClosed() <==> body.Some? || !trailers)
              && (t.state.IsSendStreaming() <==> body.None? && trailers)
  {
    hide SendRun;
    RunEnds(s, flow, steps);
    ClosedNotOpen(SendRun(s, flow, steps).0.state);
    assert WillEnd(s) <==> body.Some? || !trailers;
    assert NeverEnds(s) <==> body.None? && trailers;
  }

  lemma ClosedNotOpen(s: State)
    ensures !(s.IsSendClosed() && s.IsSendStreaming())
  {
  }
}

/** From Send on the client to the frame callback on the receiving side. */
module EndToEnd {
  import opened Bytes
  import opened Wire
  import opened ParserLoops
  import opened SendPipeline
  import opened SendRuns
  import HeaderRuns

  /** Every Send call carries one packed message that fits the buffers. */
  ghost predicate CarriesMessages(cap: nat, little: bool, s: State, messages: map<nat, Frame>) {
    forall id <- s.senders ::
      && id in messages && s.senders[id].data == Pack(little, messages[id])
      && WellFormed(cap, messages[id])
  }

  function Packed(little: bool, frames: seq<Frame>): seq<byte> {
    if frames == [] then [] else Packed(little, frames[..|frames| - 1]) + Pack(little, frames[|frames| - 1])
  }

  /** The messages of the accepted pieces, in acceptance order. */
  ghost function AcceptedFrames(messages: map<nat, Frame>, accepted: seq<Piece>): (frames: seq<Frame>)
    requires forall p <- accepted :: p.id in messages
    ensures |frames| == |accepted|
    ensures forall i :: 0 <= i < |accepted| ==> frames[i] == messages[accepted[i].id]
  {
    seq(|accepted|, i requires 0 <= i < |accepted| => messages[accepted[i].id])
  }

  lemma FramesOfFront(messages: map<nat, Frame>, accepted: seq<Piece>)
    requires accepted != [] && (forall p <- accepted :: p.id in messages)
    ensures var k := |accepted| - 1;
      && (forall p <- accepted[..k] :: p.id in messages) && accepted[k].id in messages
      && AcceptedFrames(messages, accepted) == AcceptedFrames(messages, accepted[..k]) + [messages[accepted[k].id]]
  {
    var front := accepted[..|accepted| - 1];
    assert forall p <- front :: p in accepted;
    assert accepted[|front|] in accepted;
  }

  lemma {:induction false} WholePieces(little: bool, messages: map<nat, Frame>, accepted: seq<Piece>)
    requires forall p <- accepted :: p.id in messages && p.bytes == Pack(little, messages[p.id])
    ensures Stream(accepted) == Packed(little, AcceptedFrames(messages, accepted))
  {
    hide Pack, AcceptedFrames;
    if accepted != [] {
      var front, last := accepted[..|accepted| - 1], accepted[|accepted| - 1];
      assert forall p <- front :: p in accepted;
      assert last in accepted;
      WholePieces(little, messages, front);
      FramesOfFront(messages, accepted);
    }
  }

  /** Each accepted piece is one whole message, and no message is accepted twice. */
  lemma PiecesAreMessages(cap: nat, little: bool, s: State, messages: map<nat, Frame>)
    requires Reachable(cap, s) && CarriesMessages(cap, little, s, messages)
    ensures forall p <- s.accepted :: p.id in messages && p.bytes == Pack(little, messages[p.id])
    ensures forall i, j :: 0 <= i < j < |s.accepted| ==> s.accepted[i].id != s.accepted[j].id
  {
    forall i | 0 <= i < |s.accepted|
      ensures s.accepted[i].id in s.senders && s.accepted[i].bytes == s.senders[s.accepted[i].id].data
      ensures forall j :: 0 <= j < |s.accepted| && j != i ==> s.accepted[j].id != s.accepted[i].id
    {
      OneWholePiece(cap, little, s, messages, i);
    }
  }

  lemma OneWholePiece(cap: nat, little: bool, s: State, messages: map<nat, Frame>, i: nat)
    requires Reachable(cap, s) && CarriesMessages(cap, little, s, messages) && i < |s.accepted|
    ensures var p := s.accepted[i];
      && p.id in s.senders && p.bytes == s.senders[p.id].data
      && forall j :: 0 <= j < |s.accepted| && j != i ==> s.accepted[j].id != p.id
  {
    hide Reachable, Inv;
    var p := s.accepted[i];
    KnownSender(cap, s, p);
    MessageAtomicity(cap, s, p.id);
    var before: seq<Piece>, after: seq<Piece> :|
      s.accepted == before + [Piece(p.id, s.senders[p.id].data)] + after && forall q <- before + after :: q.id != p.id;
    Position(before, Piece(p.id, s.senders[p.id].data), after, i);
  }

  lemma KnownSender(cap: nat, s: State, p: Piece)
    requires Reachable(cap, s) && p in s.accepted
    ensures p.id in s.senders
  {
    ReachableInv(cap, s);
  }

  lemma Position(before: seq<Piece>, p: Piece, after: seq<Piece>, i: nat)
    requires i < |before + [p] + after| && (before + [p] + after)[i].id == p.id
    requires forall q <- before + after :: q.id != p.id
    ensures (before + [p] + after)[i] == p
    ensures forall j :: 0 <= j < |before + [p] + after| && j != i ==> (before + [p] + after)[j].id != p.id
  {
    var all := before + [p] + after;
    forall j | 0 <= j < |all| && j != |before|
      ensures all[j].id != p.id
    {
      assert all[j] in before + after by {
        assert all[j] == (before + after)[if j < |before| then j else j - 1];
      }
    }
  }

  lemma {:induction false} SegmentsConcat(little: bool, frames: seq<Frame>, segments: seq<seq<seq<byte>>>)
    requires HeaderRuns.Segmented(little, frames, segments)
    ensures Concat(HeaderRuns.Flatten(segments)) == Packed(little, frames)
  {
    if frames != [] {
      var k := |frames| - 1;
      SegmentsConcat(little, frames[..k], segments[..k]);
      ConcatAppend(HeaderRuns.Flatten(segments[..k]), segments[k]);
    }
  }

  /** Any number of callers each send one message, interleaving freely with the loop thread. Once
      everything accepted has been drained, and if no uv_write has refused its chunk, the bytes on
      the wire are the packed messages in acceptance order, none of them twice; and a receiver that
      gets them in receives that do not run across a message's end delivers exactly those messages,
      once each and in that order, if and only if no receive behind an empty message is shorter than
      a header. */
  lemma Delivery(cap: nat, little: bool, steps: seq<Step>, s: State, messages: map<nat, Frame>, mem: Memory,
        segments: seq<seq<seq<byte>>>)
    requires Host(cap, little).Valid() && Legal(Initial(cap), steps) && s == Exec(Initial(cap), steps)
    requires CarriesMessages(cap, little, s, messages)
    requires s.queue.bytes == [] && s.pending == None && forall ok <- Answers(steps) :: ok
    requires |mem| == cap + HEADER_LEN && (forall p <- s.accepted :: p.id in messages)
    requires HeaderRuns.Segmented(little, AcceptedFrames(messages, s.accepted), segments)
    ensures SentBytes(Initial(cap), steps) == Concat(HeaderRuns.Flatten(segments))
    ensures var frames := AcceptedFrames(messages, s.accepted);
      HeaderRuns.Delivered(HeaderRuns.Session(Host(cap, little), mem, HeaderRuns.Flatten(segments)), frames)
      <==> HeaderRuns.Spaced(frames, segments)
    ensures forall i, j :: 0 <= i < j < |s.accepted| ==> s.accepted[i].id != s.accepted[j].id
  {
    InitialReachable(cap);
    ReachableRun(cap, Initial(cap), steps);
    hide Reachable, Legal, Exec, SentBytes, Concat, Stream, AcceptedFrames, OnTheWire, Pack, WellFormed;
    var frames := AcceptedFrames(messages, s.accepted);
    RefusedWrites(cap, steps);
    PiecesAreMessages(cap, little, s, messages);
    WholePieces(little, messages, s.accepted);
    SegmentsConcat(little, frames, segments);
    FramesFit(cap, little, s, messages);
    assert forall i :: 0 <= i < |frames| ==> frames[i] in frames;
    HeaderRuns.FramesDelivered(cap, little, mem, frames, segments);
  }

  /** Whose messages these are: those of the callers that got anything in, and if every Send of an
      open client has returned, everybody's. */
  lemma EveryMessageAccepted(cap: nat, little: bool, s: State, messages: map<nat, Frame>)
    requires Reachable(cap, s) && CarriesMessages(cap, little, s, messages)
    ensures forall id <- s.senders :: (exists p <- s.accepted :: p.id == id) <==> s.senders[id].iret > 0
    ensures !s.closing && (forall id <- s.senders :: s.senders[id].pc == Returned) ==>
      forall id <- s.senders :: exists p <- s.accepted :: p.id == id
  {
    hide Reachable;
    forall id <- s.senders
      ensures (exists p <- s.accepted :: p.id == id) <==> s.senders[id].iret > 0
      ensures !s.closing && s.senders[id].pc == Returned ==> s.senders[id].iret > 0
    {
      AcceptedIffProgress(cap, s, id);
      if s.senders[id].pc == Returned {
        ReturnValue(cap, s, id);
      }
    }
  }

  lemma FramesFit(cap: nat, little: bool, s: State, messages: map<nat, Frame>)
    requires Reachable(cap, s) && CarriesMessages(cap, little, s, messages)
    requires forall p <- s.accepted :: p.id in messages
    ensures forall f <- AcceptedFrames(messages, s.accepted) :: WellFormed(cap, f)
  {
    ReachableInv(cap, s);
    assert forall i :: 0 <= i < |s.accepted| ==> s.accepted[i] in s.accepted;
  }

  lemma AcceptedIffProgress(cap: nat, s: State, id: nat)
    requires Reachable(cap, s) && id in s.senders && 0 < |s.senders[id].data| <= cap
    ensures (exists p <- s.accepted :: p.id == id) <==> s.senders[id].iret > 0
  {
    MessageAtomicity(cap, s, id);
    if s.senders[id].iret > 0 {
      var before: seq<Piece>, after: seq<Piece> :| s.accepted == before + [Piece(id, s.senders[id].data)] + after;
      assert s.accepted[|before|] in s.accepted;
    }
  }
}

/** Header framing over whole connections: streams of packed messages cut into receives. */
module HeaderRuns {
  import opened Bytes
  import opened Wire
  import opened ParserLoops
  import opened HeaderMode
  import opened HeaderExact

  /** A connection's receives, from an empty parser, for as long as it waits for more. */
  function Session(cfg: Config, mem: Memory, chunks: seq<seq<byte>>): (r: HeaderResult)
    requires cfg.Valid() && |mem| == cfg.cap + HEADER_LEN
    ensures |r.mem| == |mem| && -HEADER_LEN < r.used <= cfg.cap && ModeOk(cfg, r.mode)
  {
    if chunks == [] then HeaderResult([], Waiting, None, mem, 0)
    else
      var before := Session(cfg, mem, chunks[..|chunks| - 1]);
      if before.status != Waiting then before
      else
        var r := HeaderReceive(cfg, before.mem, before.used, before.mode, chunks[|chunks| - 1]);
        HeaderResult(before.frames + r.frames, r.status, r.mode, r.mem, r.used)
  }

  /** Aligned, or behind an empty body: that body is delivered at once and the cursor is still at the
      buffer's start, so what was received is read like the first bytes of a connection. */
  ghost predicate Safe(cfg: Config, mode: Mode, data: seq<byte>)
    requires cfg.Valid() && ModeOk(cfg, mode)
  {
    || Aligned(cfg, mode, data)
    || (mode.Some? && mode.value.datalen == 0 && |data| >= HEADER_LEN && Aligned(cfg, None, data))
  }

  /** Every receive is non-empty, fits behind what the stream so far leaves over, and is safe. */
  ghost predicate AlignedRun(cfg: Config, chunks: seq<seq<byte>>)
    requires cfg.Valid()
  {
    chunks != [] ==>
      var front, last := chunks[..|chunks| - 1], chunks[|chunks| - 1];
      var p := Parse(cfg, None, Concat(front));
      && AlignedRun(cfg, front) && p.status == Waiting && last != []
      && |p.rest| + |last| <= cfg.cap && Safe(cfg, p.mode, p.rest + last)
  }

  lemma ParseBehindEmpty(cfg: Config, h: Header, data: seq<byte>)
    requires cfg.Valid() && ModeOk(cfg, Some(h)) && h.datalen == 0 && data != []
    ensures var p := Parse(cfg, None, data);
      Parse(cfg, Some(h), data) == ParseResult([(h, [])] + p.frames, p.status, p.mode, p.rest)
  {
    assert data[0..] == data && data[..0] == [];
  }

  lemma LoopBehindEmpty(cfg: Config, h: Header, mem: Memory, used: nat)
    requires cfg.Valid() && |mem| == cfg.cap + HEADER_LEN && ModeOk(cfg, Some(h)) && h.datalen == 0
    requires 0 < used <= cfg.cap
    ensures var r := HeaderLoop(cfg, mem, 0, used, None);
      HeaderLoop(cfg, mem, 0, used, Some(h)) == r.(frames := [(h, [])] + r.frames)
  {
    hide HeaderLoop;
    BodyStep(cfg, mem, 0, used, h);
    assert Reset(mem, 0, used) == mem && mem[..0] == [];
  }

  lemma SafeMatches(cfg: Config, mode: Mode, data: seq<byte>, mem: Memory)
    requires cfg.Valid() && |mem| == cfg.cap + HEADER_LEN && ModeOk(cfg, mode)
    requires 0 < |data| <= cfg.cap && mem[..|data|] == data
    requires mode.None? ==> |data| >= HEADER_LEN
    requires Safe(cfg, mode, data)
    ensures Matches(HeaderLoop(cfg, mem, 0, |data|, mode), Parse(cfg, mode, data))
  {
    hide HeaderLoop, Parse, Matches, Aligned;
    if Aligned(cfg, mode, data) {
      AlignedMatches(cfg, mode, data, mem);
    } else {
      AlignedMatches(cfg, None, data, mem);
      LoopBehindEmpty(cfg, mode.value, mem, |data|);
      ParseBehindEmpty(cfg, mode.value, data);
      Prepend((mode.value, []), HeaderLoop(cfg, mem, 0, |data|, None), Parse(cfg, None, data));
    }
  }

  lemma ReceiveMatches(cfg: Config, mem: Memory, used: nat, mode: Mode, chunk: seq<byte>)
    requires cfg.Valid() && |mem| == cfg.cap + HEADER_LEN && ModeOk(cfg, mode)
    requires chunk != [] && used + |chunk| <= cfg.cap && Safe(cfg, mode, mem[..used] + chunk)
    ensures Matches(HeaderReceive(cfg, mem, used, mode, chunk), Parse(cfg, mode, mem[..used] + chunk))
  {
    hide HeaderLoop, Safe;
    var data := mem[..used] + chunk;
    if |data| >= HEADER_LEN || mode.Some? {
      hide Parse, Matches, Received;
      SafeMatches(cfg, mode, data, Received(mem, used, chunk));
    }
  }

  /** After every aligned run the parser has delivered the stream's frames, in order, each on the
      receive that completed it; the buffered length is never negative and never above capacity. */
  lemma {:induction false} SessionMatches(cfg: Config, mem: Memory, chunks: seq<seq<byte>>)
    requires cfg.Valid() && |mem| == cfg.cap + HEADER_LEN && AlignedRun(cfg, chunks)
    ensures Matches(Session(cfg, mem, chunks), Parse(cfg, None, Concat(chunks)))
    ensures 0 <= Session(cfg, mem, chunks).used <= cfg.cap
  {
    hide HeaderReceive, Parse, Safe;
    if chunks != [] {
      var front, last := chunks[..|chunks| - 1], chunks[|chunks| - 1];
      SessionMatches(cfg, mem, front);
      ParseAppend(cfg, None, Concat(front), last);
      var before := Session(cfg, mem, front);
      ReceiveMatches(cfg, before.mem, before.used, before.mode, last);
    } else {
      EmptyStream(cfg);
    }
  }

  lemma EmptyStream(cfg: Config)
    requires cfg.Valid()
    ensures AlignedRun(cfg, []) && Concat([]) == []
    ensures Parse(cfg, None, []) == ParseResult([], Waiting, None, [])
  {
  }

  // -------------------------------------------------------------- packed messages

  /** What the reference makes of the first n bytes of a packed message. */
  function Prefix(f: Frame, packed: seq<byte>, n: nat): ParseResult
    requires n <= |packed|
  {
    if n < HEADER_LEN then ParseResult([], Waiting, None, packed[..n])
    else if n < |packed| || f.1 == [] then ParseResult([], Waiting, Some(f.0), packed[HEADER_LEN..n])
    else ParseResult([f], Waiting, None, [])
  }

  lemma ParsePrefix(cap: nat, little: bool, f: Frame, n: nat)
    requires Host(cap, little).Valid() && WellFormed(cap, f) && n <= |Pack(little, f)|
    ensures Parse(Host(cap, little), None, Pack(little, f)[..n]) == Prefix(f, Pack(little, f), n)
  {
    var cfg, packed, data := Host(cap, little), Pack(little, f), Pack(little, f)[..n];
    if n >= HEADER_LEN {
      HeaderRoundTrip(little, f.0);
      assert data[..HEADER_LEN] == HeaderToChar(little, f.0);
      var body := data[HEADER_LEN..];
      hide MemHeader, HeaderToChar;
      assert Parse(cfg, None, data) == Parse(cfg, Some(f.0), body);
      if n == |packed| && f.1 != [] {
        assert body == f.1 && body[..|f.1|] == f.1 && body[|f.1|..] == [];
        EmptyStream(cfg);
      }
    }
  }

  lemma PrefixAligned(cap: nat, little: bool, f: Frame, n: nat, m: nat)
    requires Host(cap, little).Valid() && WellFormed(cap, f) && n < m <= |Pack(little, f)|
    requires n < |Pack(little, f)|
    ensures var cfg, packed := Host(cap, little), Pack(little, f);
      var p := Prefix(f, packed, n);
      ModeOk(cfg, p.mode) && Aligned(cfg, p.mode, p.rest + packed[n..m])
      && |p.rest| + (m - n) <= cap
  {
    var cfg, packed := Host(cap, little), Pack(little, f);
    var p := Prefix(f, packed, n);
    HeaderRoundTrip(little, f.0);
    hide MemHeader, HeaderToChar;
    if n < HEADER_LEN {
      assert p.rest + packed[n..m] == packed[..m];
      assert m >= HEADER_LEN ==> packed[..m][..HEADER_LEN] == HeaderToChar(little, f.0);
    }
  }

  ghost predicate NonEmpty(pieces: seq<seq<byte>>) {
    forall i :: 0 <= i < |pieces| ==> pieces[i] != []
  }

  /** Nothing is left over, except perhaps the header of an empty message. */
  ghost predicate BetweenMessages(p: ParseResult) {
    p.status == Waiting && p.rest == [] && (p.mode.Some? ==> p.mode.value.datalen == 0)
  }

  /** What the first n bytes of a packed message add to that. */
  function Continued(p: ParseResult, f: Frame, packed: seq<byte>, n: nat): ParseResult
    requires n <= |packed|
  {
    if n == 0 then p
    else
      var q := Prefix(f, packed, n);
      var pending := if p.mode.Some? then [(p.mode.value, [])] else [];
      ParseResult(p.frames + pending + q.frames, q.status, q.mode, q.rest)
  }

  lemma ParseContinued(cap: nat, little: bool, before: seq<seq<byte>>, f: Frame, n: nat)
    requires Host(cap, little).Valid() && WellFormed(cap, f) && n <= |Pack(little, f)|
    requires BetweenMessages(Parse(Host(cap, little), None, Concat(before)))
    ensures var cfg, packed := Host(cap, little), Pack(little, f);
      Parse(cfg, None, Concat(before) + packed[..n]) == Continued(Parse(cfg, None, Concat(before)), f, packed, n)
  {
    hide Parse, Prefix, Pack;
    var cfg, more := Host(cap, little), Pack(little, f)[..n];
    var p := Parse(cfg, None, Concat(before));
    ParseAppend(cfg, None, Concat(before), more);
    ParsePrefix(cap, little, f, n);
    assert [] + more == more;
    if n == 0 {
      assert Concat(before) + more == Concat(before);
    } else if p.mode.Some? {
      ParseBehindEmpty(cfg, p.mode.value, more);
      assert p.frames + ([(p.mode.value, [])] + Prefix(f, Pack(little, f), n).frames)
          == p.frames + [(p.mode.value, [])] + Prefix(f, Pack(little, f), n).frames;
    } else {
      assert p.frames + [] == p.frames;
    }
  }

  /** The next receive of a message, once n bytes of it are in, is safe, except that a first one
      behind an empty message must hold a whole header. */
  lemma NextPieceSafe(cap: nat, little: bool, p: ParseResult, f: Frame, n: nat, m: nat)
    requires Host(cap, little).Valid() && WellFormed(cap, f) && n < m <= |Pack(little, f)|
    requires BetweenMessages(p) && ModeOk(Host(cap, little), p.mode)
    requires n == 0 && p.mode.Some? ==> m >= HEADER_LEN
    ensures var cfg, packed := Host(cap, little), Pack(little, f);
      var q := Continued(p, f, packed, n);
      && ModeOk(cfg, q.mode) && q.status == Waiting
      && Safe(cfg, q.mode, q.rest + packed[n..m]) && |q.rest| + (m - n) <= cap
  {
    hide Aligned, Pack;
    PrefixAligned(cap, little, f, n, m);
    PrefixWaits(f, Pack(little, f), n);
  }

  /** Cutting one message into non-empty pieces, behind a stream that ended with a message. */
  lemma {:induction false} PiecesAligned(cap: nat, little: bool, before: seq<seq<byte>>,
        f: Frame, pieces: seq<seq<byte>>)
    requires Host(cap, little).Valid() && WellFormed(cap, f) && AlignedRun(Host(cap, little), before)
    requires NonEmpty(pieces) && Concat(pieces) <= Pack(little, f)
    requires var p := Parse(Host(cap, little), None, Concat(before));
      BetweenMessages(p) && (p.mode.Some? && pieces != [] ==> |pieces[0]| >= HEADER_LEN)
    ensures AlignedRun(Host(cap, little), before + pieces)
    ensures var cfg, packed := Host(cap, little), Pack(little, f);
      Parse(cfg, None, Concat(before + pieces))
      == Continued(Parse(cfg, None, Concat(before)), f, packed, |Concat(pieces)|)
  {
    hide Parse, Safe, Prefix, Pack, Continued, BetweenMessages;
    var cfg, packed, all := Host(cap, little), Pack(little, f), Concat(pieces);
    assert packed[..|all|] == all;
    ParseContinued(cap, little, before, f, |all|);
    ConcatAppend(before, pieces);
    if pieces == [] {
      assert before + pieces == before;
    } else {
      var front, last := pieces[..|pieces| - 1], pieces[|pieces| - 1];
      var got := Concat(front);
      assert all == got + last && packed[|got|..|all|] == last && packed[..|got|] == got <= packed;
      assert (before + pieces)[..|before + pieces| - 1] == before + front;
      PiecesAligned(cap, little, before, f, front);
      NothingYet(front);
      NextPieceSafe(cap, little, Parse(cfg, None, Concat(before)), f, |got|, |all|);
    }
  }

  lemma NothingYet(pieces: seq<seq<byte>>)
    requires NonEmpty(pieces)
    ensures Concat(pieces) == [] <==> pieces == []
  {
  }

  lemma PrefixWaits(f: Frame, packed: seq<byte>, n: nat)
    requires n <= |packed| && |packed| == HEADER_LEN + |f.1|
    ensures Prefix(f, packed, n).status == Waiting
    ensures n == |packed| ==>
      Prefix(f, packed, n) ==
        if f.1 == [] then ParseResult([], Waiting, Some(f.0), []) else ParseResult([f], Waiting, None, [])
  {
  }

  /** segments[i] is the i-th message cut into non-empty receives. */
  ghost predicate Segmented(little: bool, frames: seq<Frame>, segments: seq<seq<seq<byte>>>) {
    && |segments| == |frames|
    && forall i :: 0 <= i < |frames| ==>
         Concat(segments[i]) == Pack(little, frames[i]) && NonEmpty(segments[i])
  }

  function Flatten(segments: seq<seq<seq<byte>>>): seq<seq<byte>> {
    if segments == [] then [] else Flatten(segments[..|segments| - 1]) + segments[|segments| - 1]
  }

  /** No receive that follows an empty message is shorter than a header. */
  ghost predicate Spaced(frames: seq<Frame>, segments: seq<seq<seq<byte>>>)
    requires |segments| == |frames|
  {
    forall i :: 0 < i < |frames| && frames[i - 1].1 == [] ==> segments[i] != [] && |segments[i][0]| >= HEADER_LEN
  }

  /** The reference on a stream of whole messages: an empty last one is still pending. */
  function Ended(frames: seq<Frame>): ParseResult {
    var k := |frames| - 1;
    if frames == [] || frames[k].1 != [] then ParseResult(frames, Waiting, None, [])
    else ParseResult(frames[..k], Waiting, Some(frames[k].0), [])
  }

  lemma EndedNext(cap: nat, frames: seq<Frame>, packed: seq<byte>)
    requires frames != [] && forall i :: 0 <= i < |frames| ==> WellFormed(cap, frames[i])
    requires var f := frames[|frames| - 1]; |packed| == HEADER_LEN + |f.1|
    ensures var k := |frames| - 1;
      && BetweenMessages(Ended(frames[..k]))
      && Continued(Ended(frames[..k]), frames[k], packed, |packed|) == Ended(frames)
  {
    var k := |frames| - 1;
    PrefixWaits(frames[k], packed, |packed|);
    assert frames == frames[..k] + [frames[k]];
    if k > 0 && frames[k - 1].1 == [] {
      assert frames[..k] == frames[..k - 1] + [(frames[k - 1].0, [])];
    }
  }

  lemma {:induction false} SegmentsAligned(cap: nat, little: bool, frames: seq<Frame>, segments: seq<seq<seq<byte>>>)
    requires Host(cap, little).Valid() && Segmented(little, frames, segments) && Spaced(frames, segments)
    requires forall i :: 0 <= i < |frames| ==> WellFormed(cap, frames[i])
    ensures AlignedRun(Host(cap, little), Flatten(segments))
    ensures Parse(Host(cap, little), None, Concat(Flatten(segments))) == Ended(frames)
  {
    hide Parse, Pack, AlignedRun, WellFormed, Prefix, Concat, Host, Config.Valid, BetweenMessages, Continued;
    EmptyStream(Host(cap, little));
    if frames != [] {
      var k := |frames| - 1;
      SegmentsAligned(cap, little, frames[..k], segments[..k]);
      EndedNext(cap, frames, Pack(little, frames[k]));
      assert frames[..k] != [] ==> frames[..k][k - 1] == frames[k - 1];
      PiecesAligned(cap, little, Flatten(segments[..k]), frames[k], segments[k]);
    }
  }

  /** The parser is done with these messages: every one was delivered once and in order, but for an
      empty last one, which is pending; no close callback fired, and nothing is buffered. */
  ghost predicate Delivered(r: HeaderResult, frames: seq<Frame>) {
    var e := Ended(frames);
    r.frames == e.frames && r.status == Waiting && r.mode == e.mode && r.used == 0
  }

  /** The parser has closed, or has lost count of what it holds. */
  ghost predicate Lost(r: HeaderResult) {
    r.status != Waiting || r.used < 0
  }

  lemma {:induction false} LostStays(cfg: Config, mem: Memory, chunks: seq<seq<byte>>, more: seq<seq<byte>>)
    requires cfg.Valid() && |mem| == cfg.cap + HEADER_LEN && Lost(Session(cfg, mem, chunks))
    ensures Lost(Session(cfg, mem, chunks + more))
    decreases |more|
  {
    if more == [] {
      assert chunks + more == chunks;
    } else {
      var front := more[..|more| - 1];
      assert (chunks + more)[..|chunks + more| - 1] == chunks + front;
      LostStays(cfg, mem, chunks, front);
    }
  }

  /** Behind an empty message, fewer bytes than a header are taken for one all the same. */
  lemma ShortReceiveLost(cfg: Config, mem: Memory, h: Header, chunk: seq<byte>)
    requires cfg.Valid() && |mem| == cfg.cap + HEADER_LEN && ModeOk(cfg, Some(h)) && h.datalen == 0
    requires 0 < |chunk| < HEADER_LEN
    ensures Lost(HeaderReceive(cfg, mem, 0, Some(h), chunk))
  {
    hide HeaderLoop, Received;
    LoopBehindEmpty(cfg, h, Received(mem, 0, chunk), |chunk|);
    PartialHeader(cfg, Received(mem, 0, chunk), 0, |chunk|);
  }

  lemma FirstPieceLost(cfg: Config, mem: Memory, before: seq<seq<byte>>, h: Header, pieces: seq<seq<byte>>)
    requires cfg.Valid() && |mem| == cfg.cap + HEADER_LEN && pieces != [] && 0 < |pieces[0]| < HEADER_LEN
    requires var r := Session(cfg, mem, before);
      r.status == Waiting && r.used == 0 && r.mode == Some(h) && h.datalen == 0
    ensures Lost(Session(cfg, mem, before + pieces))
  {
    hide HeaderReceive;
    ShortReceiveLost(cfg, Session(cfg, mem, before).mem, h, pieces[0]);
    assert (before + [pieces[0]])[..|before|] == before;
    LostStays(cfg, mem, before + [pieces[0]], pieces[1..]);
    assert before + pieces == before + [pieces[0]] + pieces[1..];
  }

  /** A stream that is right up to an empty message, and then a receive that is too short. */
  lemma ShortBehindEmpty(cap: nat, little: bool, mem: Memory, before: seq<seq<byte>>,
        frames: seq<Frame>, pieces: seq<seq<byte>>)
    requires Host(cap, little).Valid() && |mem| == cap + HEADER_LEN && AlignedRun(Host(cap, little), before)
    requires Parse(Host(cap, little), None, Concat(before)) == Ended(frames)
    requires frames != [] && frames[|frames| - 1].1 == [] && WellFormed(cap, frames[|frames| - 1])
    requires pieces != [] && 0 < |pieces[0]| < HEADER_LEN
    ensures Lost(Session(Host(cap, little), mem, before + pieces))
  {
    hide Session, Parse, AlignedRun, Lost;
    SessionMatches(Host(cap, little), mem, before);
    FirstPieceLost(Host(cap, little), mem, before, frames[|frames| - 1].0, pieces);
  }

  lemma {:induction false} UnspacedLost(cap: nat, little: bool, mem: Memory,
        frames: seq<Frame>, segments: seq<seq<seq<byte>>>)
    requires Host(cap, little).Valid() && |mem| == cap + HEADER_LEN && Segmented(little, frames, segments)
    requires forall i :: 0 <= i < |frames| ==> WellFormed(cap, frames[i])
    requires !Spaced(frames, segments)
    ensures Lost(Session(Host(cap, little), mem, Flatten(segments)))
  {
    hide Session, Parse, Pack, AlignedRun, Lost, Spaced, Ended, WellFormed, Config.Valid, Concat;
    var k := |frames| - 1;
    assert frames != [] by { NothingUnspaced(frames, segments); }
    if Spaced(frames[..k], segments[..k]) {
      LastUnspaced(frames, segments);
      SegmentsAligned(cap, little, frames[..k], segments[..k]);
      EmptyIsNoMessage(little, frames[k], segments[k]);
      ShortBehindEmpty(cap, little, mem, Flatten(segments[..k]), frames[..k], segments[k]);
    } else {
      UnspacedLost(cap, little, mem, frames[..k], segments[..k]);
      LostStays(Host(cap, little), mem, Flatten(segments[..k]), segments[k]);
    }
  }

  lemma NothingUnspaced(frames: seq<Frame>, segments: seq<seq<seq<byte>>>)
    requires |segments| == |frames| && !Spaced(frames, segments)
    ensures frames != []
  {
  }

  lemma LastUnspaced(frames: seq<Frame>, segments: seq<seq<seq<byte>>>)
    requires |segments| == |frames| && !Spaced(frames, segments)
    requires |frames| > 0 ==> Spaced(frames[..|frames| - 1], segments[..|frames| - 1])
    ensures var k := |frames| - 1;
      k > 0 && frames[k - 1].1 == [] && (segments[k] == [] || |segments[k][0]| < HEADER_LEN)
  {
    var i :| 0 < i < |frames| && frames[i - 1].1 == [] && (segments[i] == [] || |segments[i][0]| < HEADER_LEN);
    assert i == |frames| - 1;
  }

  lemma EmptyIsNoMessage(little: bool, f: Frame, pieces: seq<seq<byte>>)
    requires Concat(pieces) == Pack(little, f)
    ensures pieces != []
  {
  }

  /** A stream of whole messages, each cut into receives of its own: it comes out right if and only
      if no receive that follows an empty message is shorter than a header. */
  lemma FramesDelivered(cap: nat, little: bool, mem: Memory, frames: seq<Frame>, segments: seq<seq<seq<byte>>>)
    requires Host(cap, little).Valid() && |mem| == cap + HEADER_LEN && Segmented(little, frames, segments)
    requires forall i :: 0 <= i < |frames| ==> WellFormed(cap, frames[i])
    ensures Delivered(Session(Host(cap, little), mem, Flatten(segments)), frames) <==> Spaced(frames, segments)
  {
    hide Session, Parse, Pack, AlignedRun;
    if Spaced(frames, segments) {
      SegmentsAligned(cap, little, frames, segments);
      SessionMatches(Host(cap, little), mem, Flatten(segments));
    } else {
      UnspacedLost(cap, little, mem, frames, segments);
    }
  }

  /** One message, however it is cut: delivered exactly once if and only if its body is non-empty;
      an empty body stays pending. */
  lemma OneMessage(cap: nat, little: bool, mem: Memory, f: Frame, pieces: seq<seq<byte>>)
    requires Host(cap, little).Valid() && |mem| == cap + HEADER_LEN && WellFormed(cap, f)
    requires Concat(pieces) == Pack(little, f) && NonEmpty(pieces)
    ensures var r := Session(Host(cap, little), mem, pieces);
      && r.status == Waiting && r.used == 0
      && (f.1 != [] ==> r.frames == [f] && r.mode == None)
      && (f.1 == [] ==> r.frames == [] && r.mode == Some(f.0))
  {
    hide Parse, Prefix;
    EmptyStream(Host(cap, little));
    PiecesAligned(cap, little, [], f, pieces);
    PrefixWaits(f, Pack(little, f), |Pack(little, f)|);
    assert [] + pieces == pieces;
    SessionMatches(Host(cap, little), mem, pieces);
  }

  // ------------------------------------------------------------------ runs that close

  /** A receive that does not fit ends the connection: close is called, and what is delivered, pending
      and buffered stays as it was. */
  lemma RefusedReceive(cfg: Config, mem: Memory, chunks: seq<seq<byte>>, last: seq<byte>)
    requires cfg.Valid() && |mem| == cfg.cap + HEADER_LEN && AlignedRun(cfg, chunks)
    requires var p := Parse(cfg, None, Concat(chunks));
      p.status == Waiting && (last == [] || |p.rest| + |last| > cfg.cap)
    ensures var p, r := Parse(cfg, None, Concat(chunks)), Session(cfg, mem, chunks + [last]);
      && r.status == Closed && r.frames == p.frames && r.mode == p.mode
      && r.used == |p.rest| && r.mem[..r.used] == p.rest
  {
    hide Parse, HeaderReceive;
    SessionMatches(cfg, mem, chunks);
    assert (chunks + [last])[..|chunks|] == chunks;
    var before := Session(cfg, mem, chunks);
    HeaderReceiveIs(cfg, before.mem, before.used, before.mode, last);
    assert before.frames + [] == before.frames;
  }

  /** Exactly when the next receive of such a connection closes it: it does not fit, or the stream has
      come to a header that announces too much. */
  lemma NextReceiveCloses(cfg: Config, mem: Memory, chunks: seq<seq<byte>>, last: seq<byte>)
    requires cfg.Valid() && |mem| == cfg.cap + HEADER_LEN && AlignedRun(cfg, chunks)
    requires var p := Parse(cfg, None, Concat(chunks));
      p.status == Waiting && (last != [] && |p.rest| + |last| <= cfg.cap ==> Safe(cfg, p.mode, p.rest + last))
    ensures var p, q := Parse(cfg, None, Concat(chunks)), Parse(cfg, None, Concat(chunks) + last);
      Session(cfg, mem, chunks + [last]).status == Closed <==>
        || last == [] || |p.rest| + |last| > cfg.cap
        || (q.mode == None && |q.rest| >= HEADER_LEN && Oversized(cfg, cfg.header(q.rest[..HEADER_LEN])))
  {
    hide Parse, Safe, HeaderReceive;
    var p := Parse(cfg, None, Concat(chunks));
    if last == [] || |p.rest| + |last| > cfg.cap {
      RefusedReceive(cfg, mem, chunks, last);
    } else {
      assert (chunks + [last])[..|chunks|] == chunks;
      SessionMatches(cfg, mem, chunks + [last]);
      ParseCloses(cfg, None, Concat(chunks) + last);
    }
  }
}

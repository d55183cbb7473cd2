/** Header framing: no receive other than an aligned one is safe. */
module HeaderExact {
  import opened Bytes
  import opened Wire
  import opened ParserLoops
  import opened HeaderMode

  /** Fewer than HEADER_LEN bytes at a header position: the loop takes a header all the same. */
  lemma PartialHeader(cfg: Config, mem: Memory, cursor: nat, used: nat)
    requires cfg.Valid() && |mem| == cfg.cap + HEADER_LEN && cursor + used <= cfg.cap
    requires 0 < used < HEADER_LEN
    ensures var r := HeaderLoop(cfg, mem, cursor, used, None);
      r.frames == [] && (r.status == Closed || r.used == used - HEADER_LEN)
  {
    hide HeaderLoop, Reset;
    HeadStep(cfg, mem, cursor, used);
    var h := HeaderAt(cfg, mem, cursor);
    if !Oversized(cfg, h) {
      Idle(cfg, Reset(mem, cursor + HEADER_LEN, used - HEADER_LEN), cursor + HEADER_LEN, used - HEADER_LEN, Some(h));
    }
  }

  lemma PartialHeaderMisread(cfg: Config, mem: Memory, cursor: nat, data: seq<byte>)
    requires cfg.Valid() && |mem| == cfg.cap + HEADER_LEN && cursor + |data| <= cfg.cap
    requires 0 < |data| < HEADER_LEN
    ensures !Matches(HeaderLoop(cfg, mem, cursor, |data|, None), Parse(cfg, None, data))
  {
    hide HeaderLoop;
    PartialHeader(cfg, mem, cursor, |data|);
  }

  /** A header announcing one byte less than what follows it. */
  ghost predicate OneShort(cfg: Config, tail: seq<byte>)
    requires cfg.Valid()
  {
    && HEADER_LEN < |tail| <= cfg.cap
    && cfg.header(tail[..HEADER_LEN]).datalen as int == |tail| - HEADER_LEN - 1
  }

  lemma OneShortParse(cfg: Config, tail: seq<byte>)
    requires cfg.Valid() && OneShort(cfg, tail)
    ensures var p := Parse(cfg, None, tail);
      |p.frames| == 1 && p.frames[0].0 == cfg.header(tail[..HEADER_LEN])
      && p.status == Waiting && p.mode == None && |p.rest| == 1
  {
    var h := cfg.header(tail[..HEADER_LEN]);
    var body := tail[HEADER_LEN..];
    var last := body[h.datalen as int..];
    assert Parse(cfg, None, last) == ParseResult([], Waiting, None, last);
  }

  /** Whatever header the loop finds there, it does not end up where the reference does. */
  lemma OneShortMisread(cfg: Config, mem: Memory, cursor: nat, tail: seq<byte>)
    requires cfg.Valid() && |mem| == cfg.cap + HEADER_LEN && cursor + |tail| <= cfg.cap
    requires OneShort(cfg, tail)
    ensures !Matches(HeaderLoop(cfg, mem, cursor, |tail|, None), Parse(cfg, None, tail))
  {
    hide HeaderLoop, Parse, Reset;
    OneShortParse(cfg, tail);
    HeadStep(cfg, mem, cursor, |tail|);
    var h := HeaderAt(cfg, mem, cursor);
    if !Oversized(cfg, h) {
      var at, left := cursor + HEADER_LEN, |tail| - HEADER_LEN;
      var moved := Reset(mem, at, left);
      if left < h.datalen as int {
        Idle(cfg, moved, at, left, Some(h));
      } else {
        BodyStep(cfg, moved, at, left, h);
        if h == cfg.header(tail[..HEADER_LEN]) {
          PartialHeader(cfg, Reset(moved, at + left - 1, 1), at + left - 1, 1);
        }
      }
    }
  }

  /** The header of an empty message whose bytes differ at any distance of 1 to 7. */
  function BareHeader(): (next: seq<byte>)
    ensures |next| == HEADER_LEN
  {
    [0, 0, 0, 0, 255, 255, 255, 255]
  }

  lemma BareHeaderReads(little: bool)
    ensures MemHeader(little, BareHeader()).datalen == 0
  {
    assert BareHeader()[..4] == [0, 0, 0, 0];
  }

  lemma BareHeaderFits(cap: nat, little: bool)
    requires Host(cap, little).Valid()
    ensures !Oversized(Host(cap, little), Host(cap, little).header(BareHeader()))
  {
    hide MemHeader, BareHeader;
    BareHeaderReads(little);
  }

  lemma StaleHeader(d: nat, mem: Memory)
    requires 0 < d < HEADER_LEN && d + HEADER_LEN <= |mem|
    requires mem[d..d + HEADER_LEN] == BareHeader()
    ensures Reset(mem, d, HEADER_LEN)[d..d + HEADER_LEN] != BareHeader()
  {
    var t := if d < 4 then 4 - d else 0;
    assert mem[d + (d + t)] == mem[d..d + HEADER_LEN][d + t] == 255;
    assert Reset(mem, d, HEADER_LEN)[d..d + HEADER_LEN][t] == 255;
  }

  /** A pending body shorter than a header, then a header: the cursor reads bytes already moved. */
  lemma ShortBodyMisread(cfg: Config, d: nat, mem: Memory, next: seq<byte>)
    requires cfg.Valid() && d + HEADER_LEN <= cfg.cap && |mem| == cfg.cap + HEADER_LEN
    requires |next| == HEADER_LEN && !Oversized(cfg, cfg.header(next))
    requires cfg.header(Reset(mem, d, HEADER_LEN)[d..d + HEADER_LEN]) != cfg.header(next)
    ensures !Matches(HeaderLoop(cfg, Reset(mem, d, HEADER_LEN), d, HEADER_LEN, None), Parse(cfg, None, next))
  {
    hide HeaderLoop, Reset;
    var moved := Reset(mem, d, HEADER_LEN);
    assert next[..HEADER_LEN] == next;
    assert Parse(cfg, None, next) == ParseResult([], Waiting, Some(cfg.header(next)), []);
    HeadStep(cfg, moved, d, HEADER_LEN);
    var h := HeaderAt(cfg, moved, d);
    if !Oversized(cfg, h) {
      Idle(cfg, Reset(moved, d + HEADER_LEN, 0), d + HEADER_LEN, 0, Some(h));
    }
  }

  lemma BareHeaderMisread(cap: nat, little: bool, d: nat, mem: Memory)
    requires Host(cap, little).Valid() && 0 < d < HEADER_LEN && d + HEADER_LEN <= cap
    requires |mem| == cap + HEADER_LEN && mem[d..d + HEADER_LEN] == BareHeader()
    ensures !Matches(HeaderLoop(Host(cap, little), Reset(mem, d, HEADER_LEN), d, HEADER_LEN, None),
                     Parse(Host(cap, little), None, BareHeader()))
  {
    hide HeaderLoop, Parse, Matches, Reset;
    var cfg, seen := Host(cap, little), Reset(mem, d, HEADER_LEN)[d..d + HEADER_LEN];
    BareHeaderFits(cap, little);
    hide MemHeader;
    StaleHeader(d, mem);
    if cfg.header(seen) == cfg.header(BareHeader()) {
      MemHeaderInjective(little, seen, BareHeader());
    }
    ShortBodyMisread(cfg, d, mem, BareHeader());
  }

  /** The loop ends where the reference does, whatever else the memory holds. */
  ghost predicate Agrees(cfg: Config, mode: Mode, data: seq<byte>)
    requires cfg.Valid() && ModeOk(cfg, mode) && |data| <= cfg.cap
  {
    forall mem: Memory :: |mem| == cfg.cap + HEADER_LEN && mem[..|data|] == data ==>
      Matches(HeaderLoop(cfg, mem, 0, |data|, mode), Parse(cfg, mode, data))
  }

  /** Bytes to follow a first frame that make the loop go wrong. */
  function Trap(little: bool, e: nat): (tail: seq<byte>)
    requires e <= INT32_MAX
    ensures |tail| == e
  {
    if e < HEADER_LEN then seq(e, _ => 0)
    else if e == HEADER_LEN then BareHeader()
    else HeaderToChar(little, Header((e - HEADER_LEN - 1) as int32, 0)) + seq(e - HEADER_LEN, _ => 0)
  }

  /** The loop goes wrong on the trap at every cursor and for all memory, if the trap is neither
      empty nor a bare header. */
  lemma TrapMisread(cap: nat, little: bool, e: nat, cursor: nat, mem: Memory)
    requires Host(cap, little).Valid() && |mem| == cap + HEADER_LEN && cursor + e <= cap
    requires e !in {0, HEADER_LEN}
    ensures var cfg := Host(cap, little);
      !Matches(HeaderLoop(cfg, mem, cursor, e, None), Parse(cfg, None, Trap(little, e)))
  {
    hide HeaderLoop, Parse, Matches;
    var cfg, tail := Host(cap, little), Trap(little, e);
    if e < HEADER_LEN {
      PartialHeaderMisread(cfg, mem, cursor, tail);
    } else {
      var h := Header((e - HEADER_LEN - 1) as int32, 0);
      HeaderRoundTrip(little, h);
      assert tail[..HEADER_LEN] == HeaderToChar(little, h);
      OneShortMisread(cfg, mem, cursor, tail);
    }
  }

  lemma BodyThenTrap(cfg: Config, h: Header, data: seq<byte>, cursor: nat, mem: Memory)
    requires cfg.Valid() && |mem| == cfg.cap + HEADER_LEN && ModeOk(cfg, Some(h))
    requires cursor + |data| <= cfg.cap && mem[..|data|] == data && data != [] && |data| >= h.datalen as int
    requires var d := h.datalen as int;
      var at, e := cursor + d, |data| - d;
      !Matches(HeaderLoop(cfg, Reset(mem, at, e), at, e, None), Parse(cfg, None, data[d..]))
    ensures !Matches(HeaderLoop(cfg, mem, cursor, |data|, Some(h)), Parse(cfg, Some(h), data))
  {
    hide HeaderLoop, Matches, Reset;
    var d := h.datalen as int;
    BodyStep(cfg, mem, cursor, |data|, h);
    assert mem[..d] == data[..d];
    Prepend((h, data[..d]), HeaderLoop(cfg, Reset(mem, cursor + d, |data| - d), cursor + d, |data| - d, None),
            Parse(cfg, None, data[d..]));
  }

  lemma TailTrapped(cap: nat, little: bool, d: nat, e: nat, mem: Memory)
    requires Host(cap, little).Valid() && |mem| == cap + HEADER_LEN && d + e <= cap
    requires mem[d..d + e] == Trap(little, e)
    requires e != 0 && !(e == HEADER_LEN && (d == 0 || d >= HEADER_LEN))
    ensures var cfg := Host(cap, little);
      !Matches(HeaderLoop(cfg, Reset(mem, d, e), d, e, None), Parse(cfg, None, Trap(little, e)))
  {
    hide HeaderLoop, Parse, Matches, Reset;
    if e == HEADER_LEN {
      BareHeaderMisread(cap, little, d, mem);
    } else {
      TrapMisread(cap, little, e, d, Reset(mem, d, e));
    }
  }

  lemma PendingBodyTrapped(cap: nat, little: bool, h: Header, total: nat, data: seq<byte>, mem: Memory)
    requires var cfg := Host(cap, little); cfg.Valid() && ModeOk(cfg, Some(h))
    requires 0 < total <= cap && h.datalen as int <= total && |mem| == cap + HEADER_LEN
    requires var d := h.datalen as int;
      && data == seq(d, _ => 0) + Trap(little, total - d) && mem[..total] == data
      && total != d && !(total == d + HEADER_LEN && (d == 0 || d >= HEADER_LEN))
    ensures var cfg := Host(cap, little);
      !Matches(HeaderLoop(cfg, mem, 0, total, Some(h)), Parse(cfg, Some(h), data))
  {
    hide HeaderLoop, Parse, Matches, Trap, Reset, MemHeader;
    var cfg, d := Host(cap, little), h.datalen as int;
    var e := total - d;
    assert data[d..] == Trap(little, e) && mem[d..d + e] == mem[..total][d..];
    TailTrapped(cap, little, d, e, mem);
    BodyThenTrap(cfg, h, data, 0, mem);
  }

  /** Exactly when header_parse is right while a header is pending. */
  lemma ExactlyAlignedBody(cap: nat, little: bool, h: Header, total: nat)
    requires var cfg := Host(cap, little); cfg.Valid() && ModeOk(cfg, Some(h))
    requires 0 < total <= cap && h.datalen as int <= total
    ensures (forall data: seq<byte> :: |data| == total ==> Agrees(Host(cap, little), Some(h), data))
       <==> total == h.datalen as int
            || (total == h.datalen as int + HEADER_LEN && (h.datalen == 0 || h.datalen as int >= HEADER_LEN))
  {
    hide HeaderLoop, Parse, Matches;
    var cfg, d := Host(cap, little), h.datalen as int;
    if total == d || (total == d + HEADER_LEN && (d == 0 || d >= HEADER_LEN)) {
      forall data: seq<byte>, mem: Memory | |data| == total && |mem| == cap + HEADER_LEN && mem[..total] == data
        ensures Matches(HeaderLoop(cfg, mem, 0, total, Some(h)), Parse(cfg, Some(h), data))
      {
        AlignedMatches(cfg, Some(h), data, mem);
      }
    } else {
      var data := seq(d, _ => 0) + Trap(little, total - d);
      var mem: Memory := data + seq(cap + HEADER_LEN - total, _ => 0);
      assert mem[..total] == data;
      PendingBodyTrapped(cap, little, h, total, data, mem);
      assert !Agrees(cfg, Some(h), data);
    }
  }

  lemma FrameTrapped(cap: nat, little: bool, h: Header, total: nat, data: seq<byte>, mem: Memory)
    requires var cfg := Host(cap, little); cfg.Valid() && ModeOk(cfg, Some(h))
    requires HEADER_LEN + h.datalen as int <= total <= cap && |mem| == cap + HEADER_LEN
    requires var d := h.datalen as int;
      && data == HeaderToChar(little, h) + (seq(d, _ => 0) + Trap(little, total - HEADER_LEN - d))
      && mem[..total] == data && total - HEADER_LEN - d !in {0, HEADER_LEN}
    ensures var cfg := Host(cap, little);
      !Matches(HeaderLoop(cfg, mem, 0, total, None), Parse(cfg, None, data))
  {
    hide HeaderLoop, Parse, Matches, Reset, MemHeader, HeaderToChar, Trap;
    var cfg, d := Host(cap, little), h.datalen as int;
    HeaderRoundTrip(little, h);
    assert data[..HEADER_LEN] == HeaderToChar(little, h);
    var body, moved := data[HEADER_LEN..], Reset(mem, HEADER_LEN, total - HEADER_LEN);
    AfterHeader(data, mem, d);
    var e := total - HEADER_LEN - d;
    assert body[d..] == Trap(little, e) by {
      assert body == seq(d, _ => 0) + Trap(little, e);
    }
    TrapMisread(cap, little, e, HEADER_LEN + d, Reset(moved, HEADER_LEN + d, e));
    BodyThenTrap(cfg, h, body, HEADER_LEN, moved);
    HeaderThen(cfg, data, mem);
  }

  lemma HeaderThen(cfg: Config, data: seq<byte>, mem: Memory)
    requires cfg.Valid() && |mem| == cfg.cap + HEADER_LEN
    requires HEADER_LEN <= |data| <= cfg.cap && mem[..|data|] == data
    requires !Oversized(cfg, cfg.header(data[..HEADER_LEN]))
    ensures var h := cfg.header(data[..HEADER_LEN]);
      var n := |data| - HEADER_LEN;
      && HeaderLoop(cfg, mem, 0, |data|, None) == HeaderLoop(cfg, Reset(mem, HEADER_LEN, n), HEADER_LEN, n, Some(h))
      && Parse(cfg, None, data) == Parse(cfg, Some(h), data[HEADER_LEN..])
  {
    hide HeaderLoop, Reset;
    HeadStep(cfg, mem, 0, |data|);
    assert mem[0..HEADER_LEN] == data[..HEADER_LEN];
  }

  ghost predicate StartsWith(cfg: Config, h: Header, data: seq<byte>) {
    |data| >= HEADER_LEN && cfg.header(data[..HEADER_LEN]) == h
  }

  lemma FrameTrap(cap: nat, little: bool, h: Header, total: nat)
    requires var cfg := Host(cap, little); cfg.Valid() && ModeOk(cfg, Some(h))
    requires HEADER_LEN + h.datalen as int <= total <= cap
    requires total - HEADER_LEN - h.datalen as int !in {0, HEADER_LEN}
    ensures exists data: seq<byte> ::
      |data| == total && StartsWith(Host(cap, little), h, data) && !Agrees(Host(cap, little), None, data)
  {
    hide HeaderLoop, Parse, Matches, HeaderToChar, MemHeader, Trap;
    var cfg, d := Host(cap, little), h.datalen as int;
    var data := HeaderToChar(little, h) + (seq(d, _ => 0) + Trap(little, total - HEADER_LEN - d));
    var mem: Memory := data + seq(cap + HEADER_LEN - total, _ => 0);
    assert mem[..total] == data && data[..HEADER_LEN] == HeaderToChar(little, h);
    HeaderRoundTrip(little, h);
    FrameTrapped(cap, little, h, total, data, mem);
    assert StartsWith(cfg, h, data) && !Agrees(cfg, None, data);
  }

  /** Exactly when header_parse is right on a buffer that starts with a complete frame. */
  lemma ExactlyAlignedFrame(cap: nat, little: bool, h: Header, total: nat)
    requires var cfg := Host(cap, little); cfg.Valid() && ModeOk(cfg, Some(h))
    requires HEADER_LEN + h.datalen as int <= total <= cap
    ensures (forall data: seq<byte> ::
               |data| == total && StartsWith(Host(cap, little), h, data) ==> Agrees(Host(cap, little), None, data))
       <==> total - HEADER_LEN - h.datalen as int in {0, HEADER_LEN}
  {
    hide HeaderLoop, Parse, Matches, MemHeader;
    var cfg := Host(cap, little);
    if total - HEADER_LEN - h.datalen as int in {0, HEADER_LEN} {
      forall data: seq<byte>, mem: Memory
        | |data| == total && StartsWith(cfg, h, data) && |mem| == cap + HEADER_LEN && mem[..total] == data
        ensures Matches(HeaderLoop(cfg, mem, 0, total, None), Parse(cfg, None, data))
      {
        AlignedMatches(cfg, None, data, mem);
      }
    } else {
      FrameTrap(cap, little, h, total);
    }
  }
}

/** Header framing: what header_parse should deliver, and exactly when it does. */
module HeaderMode {
  import opened Bytes
  import opened Wire
  import opened ParserLoops

  datatype ParseResult = ParseResult(frames: seq<Frame>, status: Status, mode: Mode, rest: seq<byte>)

  /** The reference parser. Like the code, it cuts a body out only once a byte is buffered, so an
      empty body is delivered together with the byte that follows it. */
  function Parse(cfg: Config, mode: Mode, data: seq<byte>): (r: ParseResult)
    requires cfg.Valid() && ModeOk(cfg, mode)
    ensures ModeOk(cfg, r.mode) && |r.rest| <= |data| && r.status in {Waiting, Closed}
    decreases |data|, if mode.Some? then 1 else 0
  {
    match mode
    case None =>
      if |data| < HEADER_LEN then ParseResult([], Waiting, None, data)
      else
        var h := cfg.header(data[..HEADER_LEN]);
        if Oversized(cfg, h) then ParseResult([], Closed, None, data)
        else Parse(cfg, Some(h), data[HEADER_LEN..])
    case Some(h) =>
      var d := h.datalen as int;
      if data == [] || |data| < d then ParseResult([], Waiting, mode, data)
      else
        var r := Parse(cfg, None, data[d..]);
        ParseResult([(h, data[..d])] + r.frames, r.status, r.mode, r.rest)
  }

  /** Same frames, same verdict, same pending header, and the unconsumed bytes at the buffer's start. */
  ghost predicate Matches(r: HeaderResult, p: ParseResult) {
    && r.frames == p.frames && r.status == p.status && r.mode == p.mode
    && r.used == |p.rest| <= |r.mem| && r.mem[..r.used] == p.rest
  }

  /** The header check compares as unsigned, so it also rejects every negative length. */
  lemma NegativeLengthRejected(cfg: Config, h: Header)
    requires cfg.Valid()
    ensures Oversized(cfg, h) <==> h.datalen < 0 || HEADER_LEN + h.datalen as int > cfg.cap
  {
  }

  // ------------------------------------------------------- the reference parser

  lemma {:induction false} ParseAppend(cfg: Config, mode: Mode, a: seq<byte>, b: seq<byte>)
    requires cfg.Valid() && ModeOk(cfg, mode) && Parse(cfg, mode, a).status == Waiting
    ensures var first := Parse(cfg, mode, a);
      var next := Parse(cfg, first.mode, first.rest + b);
      Parse(cfg, mode, a + b) == ParseResult(first.frames + next.frames, next.status, next.mode, next.rest)
    decreases |a|, if mode.Some? then 1 else 0
  {
    if mode.None? && |a| >= HEADER_LEN {
      assert (a + b)[..HEADER_LEN] == a[..HEADER_LEN];
      assert (a + b)[HEADER_LEN..] == a[HEADER_LEN..] + b;
      ParseAppend(cfg, Some(cfg.header(a[..HEADER_LEN])), a[HEADER_LEN..], b);
    } else if mode.Some? && a != [] && |a| >= mode.value.datalen as int {
      var d := mode.value.datalen as int;
      BodyAppend(cfg, mode.value, a, b);
      ParseAppend(cfg, None, a[d..], b);
      var tail := Parse(cfg, None, a[d..]);
      var next := Parse(cfg, tail.mode, tail.rest + b);
      assert [(mode.value, a[..d])] + (tail.frames + next.frames) == [(mode.value, a[..d])] + tail.frames + next.frames;
    } else {
      var next := Parse(cfg, mode, a + b);
      assert [] + next.frames == next.frames;
    }
  }

  /** The reference refuses exactly the stream that comes to a header announcing too much. */
  lemma {:induction false} ParseCloses(cfg: Config, mode: Mode, data: seq<byte>)
    requires cfg.Valid() && ModeOk(cfg, mode)
    ensures var p := Parse(cfg, mode, data);
      p.status == Closed <==>
        p.mode == None && |p.rest| >= HEADER_LEN && Oversized(cfg, cfg.header(p.rest[..HEADER_LEN]))
    decreases |data|, if mode.Some? then 1 else 0
  {
    if mode.None? && |data| >= HEADER_LEN && !Oversized(cfg, cfg.header(data[..HEADER_LEN])) {
      ParseCloses(cfg, Some(cfg.header(data[..HEADER_LEN])), data[HEADER_LEN..]);
    } else if mode.Some? && data != [] && |data| >= mode.value.datalen as int {
      ParseCloses(cfg, None, data[mode.value.datalen as int..]);
    }
  }

  lemma BodyAppend(cfg: Config, h: Header, a: seq<byte>, b: seq<byte>)
    requires cfg.Valid() && ModeOk(cfg, Some(h)) && a != [] && |a| >= h.datalen as int
    ensures var d := h.datalen as int;
      var r := Parse(cfg, None, a[d..] + b);
      Parse(cfg, Some(h), a + b) == ParseResult([(h, a[..d])] + r.frames, r.status, r.mode, r.rest)
  {
    var d := h.datalen as int;
    assert (a + b)[d..] == a[d..] + b && (a + b)[..d] == a[..d];
  }

  /** A common first frame neither helps nor hurts. */
  lemma Prepend(f: Frame, r: HeaderResult, p: ParseResult)
    ensures Matches(r.(frames := [f] + r.frames), p.(frames := [f] + p.frames)) <==> Matches(r, p)
  {
    if [f] + r.frames == [f] + p.frames {
      assert ([f] + r.frames)[1..] == r.frames && ([f] + p.frames)[1..] == p.frames;
    }
  }

  // --------------------------------------------- receives that end in the right place

  /** From a pending header: nothing, or exactly the next header, follows the body, and the bytes
      that follow are intact both in sequence and where the cursor will look for them. */
  lemma BodyMatches(cfg: Config, h: Header, data: seq<byte>, cursor: nat, mem: Memory)
    requires cfg.Valid() && |mem| == cfg.cap + HEADER_LEN && ModeOk(cfg, Some(h))
    requires cursor + |data| <= cfg.cap && mem[..|data|] == data
    requires var d := h.datalen as int;
      |data| >= d && data != [] ==>
        && (|data| - d == 0 || |data| - d == HEADER_LEN)
        && mem[cursor + d..cursor + |data|] == data[d..]
        && (|data| - d == HEADER_LEN ==> cursor + d >= HEADER_LEN || cursor + d == 0)
    ensures Matches(HeaderLoop(cfg, mem, cursor, |data|, Some(h)), Parse(cfg, Some(h), data))
  {
    hide HeaderLoop, Reset;
    if data == [] || |data| < h.datalen as int {
      Idle(cfg, mem, cursor, |data|, Some(h));
    } else {
      WholeBodyMatches(cfg, h, data, cursor, mem);
    }
  }

  lemma WholeBodyMatches(cfg: Config, h: Header, data: seq<byte>, cursor: nat, mem: Memory)
    requires cfg.Valid() && |mem| == cfg.cap + HEADER_LEN && ModeOk(cfg, Some(h))
    requires cursor + |data| <= cfg.cap && mem[..|data|] == data && data != []
    requires var d := h.datalen as int;
      && (|data| - d == 0 || |data| - d == HEADER_LEN)
      && mem[cursor + d..cursor + |data|] == data[d..]
      && (|data| - d == HEADER_LEN ==> cursor + d >= HEADER_LEN || cursor + d == 0)
    ensures Matches(HeaderLoop(cfg, mem, cursor, |data|, Some(h)), Parse(cfg, Some(h), data))
  {
    hide HeaderLoop, Matches, Reset;
    var d := h.datalen as int;
    var e, tail := |data| - d, data[d..];
    BodyStep(cfg, mem, cursor, |data|, h);
    var moved := Reset(mem, cursor + d, e);
    ResetCopies(mem, cursor + d, e);
    TailMatches(cfg, tail, cursor + d, moved);
    assert mem[..d] == data[..d];
    Prepend((h, data[..d]), HeaderLoop(cfg, moved, cursor + d, e, None), Parse(cfg, None, tail));
  }

  lemma TailMatches(cfg: Config, tail: seq<byte>, cursor: nat, mem: Memory)
    requires cfg.Valid() && |mem| == cfg.cap + HEADER_LEN
    requires cursor + |tail| <= cfg.cap && (|tail| == 0 || |tail| == HEADER_LEN) && mem[..|tail|] == tail
    requires |tail| == HEADER_LEN ==> mem[cursor..cursor + HEADER_LEN] == tail
    ensures Matches(HeaderLoop(cfg, mem, cursor, |tail|, None), Parse(cfg, None, tail))
  {
    hide HeaderLoop;
    if tail == [] {
      Idle(cfg, mem, cursor, 0, None);
    } else {
      HeadStep(cfg, mem, cursor, HEADER_LEN);
      assert tail[..HEADER_LEN] == tail;
      var h := cfg.header(tail);
      if !Oversized(cfg, h) {
        var moved := Reset(mem, cursor + HEADER_LEN, 0);
        Idle(cfg, moved, cursor + HEADER_LEN, 0, Some(h));
      }
    }
  }

  /** Where the first frame ends in the buffer, once that is known. */
  function FirstEnd(cfg: Config, mode: Mode, data: seq<byte>): (r: Option<nat>)
    requires cfg.Valid() && ModeOk(cfg, mode)
  {
    match mode
    case Some(h) => Some(h.datalen as int)
    case None =>
      if |data| < HEADER_LEN || Oversized(cfg, cfg.header(data[..HEADER_LEN])) then None
      else Some(HEADER_LEN + cfg.header(data[..HEADER_LEN]).datalen as int)
  }

  /** Bytes buffered behind the end of the first frame; 0 while it is incomplete or refused. */
  function Excess(cfg: Config, mode: Mode, data: seq<byte>): nat
    requires cfg.Valid() && ModeOk(cfg, mode)
  {
    match FirstEnd(cfg, mode, data)
    case Some(end) => if |data| < end then 0 else |data| - end
    case None => 0
  }

  /** The receive completes no frame, or ends with the frame it completes, or one header later
      (and then not behind a pending body of 1 to HEADER_LEN - 1 bytes). */
  predicate Aligned(cfg: Config, mode: Mode, data: seq<byte>)
    requires cfg.Valid() && ModeOk(cfg, mode)
  {
    var e := Excess(cfg, mode, data);
    e == 0 || (e == HEADER_LEN && (mode.None? || mode.value.datalen == 0 || mode.value.datalen as int >= HEADER_LEN))
  }

  lemma TailOf(mem: Memory, data: seq<byte>, d: nat)
    requires d <= |data| <= |mem| && mem[..|data|] == data
    ensures mem[d..|data|] == data[d..]
  {
  }

  lemma AlignedBody(cfg: Config, h: Header, data: seq<byte>, mem: Memory)
    requires cfg.Valid() && |mem| == cfg.cap + HEADER_LEN && ModeOk(cfg, Some(h))
    requires |data| <= cfg.cap && mem[..|data|] == data && Aligned(cfg, Some(h), data)
    ensures Matches(HeaderLoop(cfg, mem, 0, |data|, Some(h)), Parse(cfg, Some(h), data))
  {
    hide HeaderLoop, Parse, Matches, Aligned, Oversized;
    AlignedLength(cfg, h, data);
    if |data| >= h.datalen as int {
      TailOf(mem, data, h.datalen as int);
    }
    BodyMatches(cfg, h, data, 0, mem);
  }

  lemma AlignedLength(cfg: Config, h: Header, data: seq<byte>)
    requires cfg.Valid() && ModeOk(cfg, Some(h)) && Aligned(cfg, Some(h), data)
    ensures var d, n := h.datalen as int, |data|;
      0 <= d && (n < d || n == d || (n == d + HEADER_LEN && (d == 0 || d >= HEADER_LEN)))
  {
  }

  /** One turn at a whole header, for the loop and for the reference. */
  lemma HeaderTurn(cfg: Config, data: seq<byte>, mem: Memory)
    requires cfg.Valid() && |mem| == cfg.cap + HEADER_LEN && HEADER_LEN <= |data| <= cfg.cap
    requires mem[..|data|] == data
    ensures var h, n := cfg.header(data[..HEADER_LEN]), |data| - HEADER_LEN;
      if Oversized(cfg, h) then
        && HeaderLoop(cfg, mem, 0, |data|, None) == HeaderResult([], Closed, None, mem, |data|)
        && Parse(cfg, None, data) == ParseResult([], Closed, None, data)
      else
        && HeaderLoop(cfg, mem, 0, |data|, None) == HeaderLoop(cfg, Reset(mem, HEADER_LEN, n), HEADER_LEN, n, Some(h))
        && Parse(cfg, None, data) == Parse(cfg, Some(h), data[HEADER_LEN..])
  {
    hide HeaderLoop, Reset;
    HeadStep(cfg, mem, 0, |data|);
    assert mem[0..HEADER_LEN] == data[..HEADER_LEN];
  }

  lemma AlignedExcess(cfg: Config, data: seq<byte>)
    requires cfg.Valid() && |data| >= HEADER_LEN && !Oversized(cfg, cfg.header(data[..HEADER_LEN]))
    requires Aligned(cfg, None, data)
    ensures var d, n := cfg.header(data[..HEADER_LEN]).datalen as int, |data| - HEADER_LEN;
      0 <= d && (n < d || n == d || n == d + HEADER_LEN)
  {
  }

  lemma AfterHeader(data: seq<byte>, mem: Memory, d: nat)
    requires HEADER_LEN <= |data| <= |mem| && mem[..|data|] == data
    ensures var body := data[HEADER_LEN..];
      var moved := Reset(mem, HEADER_LEN, |body|);
      && moved[..|body|] == body
      && (d <= |body| <= d + HEADER_LEN ==> moved[HEADER_LEN + d..HEADER_LEN + |body|] == body[d..])
  {
    ResetCopies(mem, HEADER_LEN, |data| - HEADER_LEN);
  }

  lemma BehindHeader(cfg: Config, h: Header, data: seq<byte>, mem: Memory)
    requires cfg.Valid() && |mem| == cfg.cap + HEADER_LEN && HEADER_LEN <= |data| <= cfg.cap
    requires mem[..|data|] == data && ModeOk(cfg, Some(h))
    requires var d, n := h.datalen as int, |data| - HEADER_LEN;
      0 <= d && (n < d || n == d || n == d + HEADER_LEN)
    ensures var n := |data| - HEADER_LEN;
      Matches(HeaderLoop(cfg, Reset(mem, HEADER_LEN, n), HEADER_LEN, n, Some(h)),
              Parse(cfg, Some(h), data[HEADER_LEN..]))
  {
    hide HeaderLoop, Parse, Matches, Reset, Oversized;
    AfterHeader(data, mem, h.datalen as int);
    BodyMatches(cfg, h, data[HEADER_LEN..], HEADER_LEN, Reset(mem, HEADER_LEN, |data| - HEADER_LEN));
  }

  lemma AlignedHeader(cfg: Config, data: seq<byte>, mem: Memory)
    requires cfg.Valid() && |mem| == cfg.cap + HEADER_LEN && HEADER_LEN <= |data| <= cfg.cap
    requires mem[..|data|] == data && Aligned(cfg, None, data)
    ensures Matches(HeaderLoop(cfg, mem, 0, |data|, None), Parse(cfg, None, data))
  {
    hide HeaderLoop, Parse, Reset, Oversized, Aligned, Matches, Config.Valid;
    HeaderTurn(cfg, data, mem);
    if Oversized(cfg, cfg.header(data[..HEADER_LEN])) {
      UntouchedMatches(mem, data);
    } else {
      AlignedExcess(cfg, data);
      BehindHeader(cfg, cfg.header(data[..HEADER_LEN]), data, mem);
    }
  }

  lemma UntouchedMatches(mem: Memory, data: seq<byte>)
    requires |data| <= |mem| && mem[..|data|] == data
    ensures Matches(HeaderResult([], Closed, None, mem, |data|), ParseResult([], Closed, None, data))
  {
  }

  lemma AlignedMatches(cfg: Config, mode: Mode, data: seq<byte>, mem: Memory)
    requires cfg.Valid() && |mem| == cfg.cap + HEADER_LEN && ModeOk(cfg, mode)
    requires |data| <= cfg.cap && mem[..|data|] == data
    requires mode.None? ==> |data| >= HEADER_LEN
    requires Aligned(cfg, mode, data)
    ensures Matches(HeaderLoop(cfg, mem, 0, |data|, mode), Parse(cfg, mode, data))
  {
    hide HeaderLoop, Parse, Matches, Aligned;
    match mode
    case Some(h) => AlignedBody(cfg, h, data, mem);
    case None => AlignedHeader(cfg, data, mem);
  }
}

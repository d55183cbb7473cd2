/** MessageParse: the receive buffer that cuts frames out in place with a moving read cursor. */
module ParserLoops {
  import opened Bytes
  import opened Wire

  /** The buffer capacity, and how the host reads an int and a header from memory. */
  datatype Config = Config(cap: nat, word: seq<byte> -> int32, header: seq<byte> -> Header) {
    ghost predicate Valid() {
      HEADER_LEN < cap <= INT32_MAX
    }
  }

  /** A host of the given endianness. */
  function Host(cap: nat, little: bool): Config {
    Config(cap,
           c => if |c| == LENGTH_HEADLEN then MemInt32(little, c) else 0,
           c => if |c| == HEADER_LEN then MemHeader(little, c) else Header(0, 0))
  }

  /** Waiting: returned for more data. Closed: the close callback was called.
      Spinning: an iteration left the parser exactly as it found it, so the loop never exits.
      Overrun: the buffered length was negative, so the C++ code copies what it received to a place
      in front of its buffer; what it does then is undefined. */
  datatype Status = Waiting | Closed | Spinning | Overrun

  /** The buffer followed by HEADER_LEN bytes of foreign memory: the header copy may read up to
      HEADER_LEN - 1 bytes past the buffer, and nothing in the parser writes there. */
  type Memory = seq<byte>

  /** resetdata(base, base + src, n): an overlapping move to the start of the buffer. */
  function Reset(mem: Memory, src: nat, n: int): (r: Memory)
    requires n > 0 ==> src + n <= |mem|
    ensures |r| == |mem|
    ensures forall i {:trigger r[i]} :: 0 <= i < n ==> r[i] == mem[src + i]
    ensures forall i {:trigger r[i]} :: 0 <= i < |mem| && i >= n ==> r[i] == mem[i]
  {
    seq(|mem|, i requires 0 <= i < |mem| => if i < n then mem[src + i] else mem[i])
  }

  /** What a move leaves at the base, and at the place it moved from if the two do not overlap. */
  lemma ResetCopies(mem: Memory, src: nat, n: nat)
    requires src + n <= |mem|
    ensures var moved := Reset(mem, src, n);
      moved[..n] == mem[src..src + n] && (src >= n || src == 0 ==> moved[src..src + n] == mem[src..src + n])
  {
  }

  /** memcpy(base + used, chunk): the received bytes behind the buffered ones. */
  function Received(mem: Memory, used: nat, chunk: seq<byte>): (r: Memory)
    requires used + |chunk| <= |mem|
    ensures |r| == |mem|
    ensures r[..used + |chunk|] == mem[..used] + chunk && r[used + |chunk|..] == mem[used + |chunk|..]
  {
    mem[..used] + chunk + mem[used + |chunk|..]
  }

  // ---------------------------------------------------------------- length mode

  function LengthWord(cfg: Config, mem: Memory, at: nat): int
    requires at + LENGTH_HEADLEN <= |mem|
  {
    cfg.word(mem[at..at + LENGTH_HEADLEN]) as int
  }

  datatype LengthResult = LengthResult(frames: seq<seq<byte>>, status: Status, mem: Memory, used: int)

  /** The number of leading bytes that a repeated move from `cursor` may still change: from there
      on, every byte of mem[..k] equals the one `cursor` places on. */
  ghost function Unsettled(mem: Memory, cursor: nat, k: nat): (r: nat)
    requires cursor + k <= |mem|
    ensures r <= k
  {
    if k == 0 then 0
    else if mem[k - 1] != mem[k - 1 + cursor] then k
    else Unsettled(mem, cursor, k - 1)
  }

  lemma {:induction false} UnsettledMeans(mem: Memory, cursor: nat, k: nat)
    requires cursor + k <= |mem|
    ensures var r := Unsettled(mem, cursor, k);
      && (forall i :: r <= i < k ==> mem[i] == mem[i + cursor])
      && (r > 0 ==> mem[r - 1] != mem[r - 1 + cursor])
  {
    if k > 0 && mem[k - 1] == mem[k - 1 + cursor] {
      UnsettledMeans(mem, cursor, k - 1);
    }
  }

  /** A move that changes anything leaves fewer bytes for the next one to change. */
  lemma MoveSettles(mem: Memory, cursor: nat, used: nat, moved: Memory)
    requires cursor + used <= |mem| == |moved|
    ensures moved == Reset(mem, cursor, used) != mem ==>
      Unsettled(moved, cursor, used) < Unsettled(mem, cursor, used)
  {
    UnsettledMeans(mem, cursor, used);
    UnsettledMeans(moved, cursor, used);
  }

  /** The length an iteration goes by. */
  function TotalLength(cfg: Config, needparse: bool, mem: Memory, cursor: nat, used: nat): int
    requires cursor + used <= |mem| && (needparse ==> used >= LENGTH_HEADLEN)
  {
    if needparse then LengthWord(cfg, mem, cursor) else used
  }

  /** What one iteration of length_parse's loop decides: to leave, or to cut a frame out. */
  datatype Turn = Leave(status: Status) | Cut(total: nat)

  function LengthTurn(cfg: Config, needparse: bool, mem: Memory, cursor: nat, used: nat): (t: Turn)
    requires cursor + used <= |mem|
    ensures t.Cut? ==> t.total <= used && !(t.total == 0 && Reset(mem, cursor, used) == mem)
  {
    if used == 0 || (needparse && used < LENGTH_HEADLEN) then Leave(Waiting)
    else
      var total := TotalLength(cfg, needparse, mem, cursor, used);
      if total < 0 || total > cfg.cap then Leave(Closed)
      else if total > used then Leave(Waiting)
      else if total == 0 && Reset(mem, cursor, used) == mem then Leave(Spinning)
      else Cut(total)
  }

  /** The loop of length_parse from a read cursor with `used` bytes from the cursor on. */
  function LengthLoop(cfg: Config, needparse: bool, mem: Memory, cursor: nat, used: nat): (r: LengthResult)
    requires cfg.Valid() && cursor + used <= cfg.cap <= |mem|
    ensures |r.mem| == |mem| && 0 <= r.used <= used && r.status != Overrun
    decreases used, Unsettled(mem, cursor, used)
  {
    match LengthTurn(cfg, needparse, mem, cursor, used)
    case Leave(status) => LengthResult([], status, mem, used)
    case Cut(total) =>
      var mem' := Reset(mem, cursor + total, used - total);
      MoveSettles(mem, cursor, used, mem');
      var r := LengthLoop(cfg, needparse, mem', cursor + total, used - total);
      LengthResult([mem[..total]] + r.frames, r.status, r.mem, r.used)
  }

  lemma LengthCovered(cfg: Config, needparse: bool, mem: Memory, cursor: nat, used: nat, total: nat)
    requires cfg.Valid() && cursor + used <= cfg.cap <= |mem| && used > 0 && (needparse ==> used >= LENGTH_HEADLEN)
    requires total == TotalLength(cfg, needparse, mem, cursor, used) <= used
    ensures LengthTurn(cfg, needparse, mem, cursor, used)
         == if total == 0 && Reset(mem, cursor, used) == mem then Leave(Spinning) else Cut(total)
  {
    hide Reset;
  }

  lemma LengthLeaves(cfg: Config, needparse: bool, mem: Memory, cursor: nat, used: nat)
    requires cfg.Valid() && cursor + used <= cfg.cap <= |mem|
    requires LengthTurn(cfg, needparse, mem, cursor, used).Leave?
    ensures LengthLoop(cfg, needparse, mem, cursor, used)
         == LengthResult([], LengthTurn(cfg, needparse, mem, cursor, used).status, mem, used)
  {
    hide Reset, LengthTurn;
  }

  lemma LengthStep(cfg: Config, needparse: bool, mem: Memory, cursor: nat, used: nat, total: nat)
    requires cfg.Valid() && cursor + used <= cfg.cap <= |mem|
    requires LengthTurn(cfg, needparse, mem, cursor, used) == Cut(total)
    ensures var r := LengthLoop(cfg, needparse, Reset(mem, cursor + total, used - total), cursor + total, used - total);
      LengthLoop(cfg, needparse, mem, cursor, used) == LengthResult([mem[..total]] + r.frames, r.status, r.mem, r.used)
  {
    hide Reset, LengthTurn;
  }

  /** A turn that covers `total` bytes, by what the move made of the memory. */
  lemma TurnEffect(cfg: Config, needparse: bool, mem: Memory, cursor: nat, used: nat, total: nat, mem': Memory)
    requires cfg.Valid() && cursor + used <= cfg.cap <= |mem| && used > 0 && (needparse ==> used >= LENGTH_HEADLEN)
    requires total == TotalLength(cfg, needparse, mem, cursor, used) <= used
    requires mem' == Reset(mem, cursor + total, used - total)
    ensures var r := LengthLoop(cfg, needparse, mem, cursor, used);
      if total == 0 && mem' == mem then r == LengthResult([], Spinning, mem', used)
      else
        var r' := LengthLoop(cfg, needparse, mem', cursor + total, used - total);
        && r == LengthResult([mem[..total]] + r'.frames, r'.status, r'.mem, r'.used)
        && (total == 0 ==> Unsettled(mem', cursor, used) < Unsettled(mem, cursor, used))
  {
    hide LengthLoop, Reset, Unsettled, LengthTurn, TotalLength;
    LengthCovered(cfg, needparse, mem, cursor, used, total);
    if total == 0 && mem' == mem {
      LengthLeaves(cfg, needparse, mem, cursor, used);
    } else {
      LengthStep(cfg, needparse, mem, cursor, used, total);
      MoveSettles(mem, cursor, used, mem');
    }
  }

  /** One call of length_parse. */
  function LengthReceive(cfg: Config, needparse: bool, mem: Memory, used: int, chunk: seq<byte>): (r: LengthResult)
    requires cfg.Valid() && used <= cfg.cap <= |mem|
    ensures |r.mem| == |mem| && r.used <= cfg.cap && (used >= 0 ==> r.used >= 0) && (r.used < 0 ==> r.used == used)
  {
    if chunk == [] || used + |chunk| > cfg.cap then LengthResult([], Closed, mem, used)
    else if used < 0 then LengthResult([], Overrun, mem, used)
    else LengthLoop(cfg, needparse, Received(mem, used, chunk), 0, used + |chunk|)
  }

  /** Exactly when the loop calls close: at a length word that is negative or above the capacity. */
  lemma {:induction false} LengthLoopCloses(cfg: Config, mem: Memory, cursor: nat, used: nat)
    requires cfg.Valid() && cursor + used <= cfg.cap <= |mem|
    ensures var r := LengthLoop(cfg, true, mem, cursor, used);
      r.status == Closed <==>
        r.used >= LENGTH_HEADLEN
        && !(0 <= LengthWord(cfg, r.mem, cursor + used - r.used) <= cfg.cap)
    decreases used, Unsettled(mem, cursor, used)
  {
    hide LengthLoop, Reset, Unsettled;
    match LengthTurn(cfg, true, mem, cursor, used)
    case Leave(_) =>
      LengthLeaves(cfg, true, mem, cursor, used);
    case Cut(total) =>
      LengthStep(cfg, true, mem, cursor, used, total);
      MoveSettles(mem, cursor, used, Reset(mem, cursor + total, used - total));
      LengthLoopCloses(cfg, Reset(mem, cursor + total, used - total), cursor + total, used - total);
  }

  /** Without parsing, what is buffered is one frame. */
  lemma RawFrame(cfg: Config, mem: Memory, used: nat)
    requires cfg.Valid() && 0 < used <= cfg.cap <= |mem|
    ensures LengthLoop(cfg, false, mem, 0, used) == LengthResult([mem[..used]], Waiting, mem, 0)
  {
    assert Reset(mem, used, 0) == mem;
    assert LengthTurn(cfg, false, mem, 0, used) == Cut(used);
    LengthStep(cfg, false, mem, 0, used, used);
    LengthLeaves(cfg, false, mem, used, 0);
  }

  /** What one call does with what it is given, by cases: a receive that is empty or does not fit is
      refused and calls close; one that fits is put behind the buffered bytes and parsed from there. */
  lemma LengthReceiveIs(cfg: Config, needparse: bool, mem: Memory, used: nat, chunk: seq<byte>)
    requires cfg.Valid() && used <= cfg.cap <= |mem|
    ensures var r := LengthReceive(cfg, needparse, mem, used, chunk);
      if chunk == [] || used + |chunk| > cfg.cap then r == LengthResult([], Closed, mem, used)
      else
        var all := mem[..used] + chunk;
        r == LengthLoop(cfg, needparse, all + mem[|all|..], 0, |all|)
  {
    hide LengthLoop;
  }

  lemma RawReceive(cfg: Config, mem: Memory, used: nat, chunk: seq<byte>)
    requires cfg.Valid() && cfg.cap <= |mem| && chunk != [] && used + |chunk| <= cfg.cap
    ensures var all := mem[..used] + chunk;
      LengthReceive(cfg, false, mem, used, chunk) == LengthResult([all], Waiting, all + mem[|all|..], 0)
  {
    hide LengthLoop;
    RawFrame(cfg, Received(mem, used, chunk), used + |chunk|);
  }

  /** One call of length_parse calls close exactly if it refuses the receive or meets a bad word. */
  lemma LengthReceiveCloses(cfg: Config, mem: Memory, used: nat, chunk: seq<byte>)
    requires cfg.Valid() && used <= cfg.cap <= |mem|
    ensures var r := LengthReceive(cfg, true, mem, used, chunk);
      r.status == Closed <==>
        || chunk == [] || used + |chunk| > cfg.cap
        || (r.used >= LENGTH_HEADLEN && !(0 <= LengthWord(cfg, r.mem, used + |chunk| - r.used) <= cfg.cap))
  {
    hide LengthLoop;
    if chunk != [] && used + |chunk| <= cfg.cap {
      LengthLoopCloses(cfg, Received(mem, used, chunk), 0, used + |chunk|);
    }
  }

  // ---------------------------------------------------------------- header mode

  /** A negative int converted to size_t is larger than any buffer. */
  function ToSizeT(x: int32): int {
    if x >= 0 then x as int else x as int + 0x1_0000_0000_0000_0000
  }

  predicate Oversized(cfg: Config, h: Header) {
    ToSizeT(h.datalen) > cfg.cap - HEADER_LEN
  }

  /** PARSE_NOTHING is None; PARSE_HEAD with theHeader is Some(theHeader). */
  type Mode = Option<Header>

  ghost predicate ModeOk(cfg: Config, mode: Mode) {
    mode.Some? ==> !Oversized(cfg, mode.value)
  }

  function HeaderAt(cfg: Config, mem: Memory, at: nat): Header
    requires at + HEADER_LEN <= |mem|
  {
    cfg.header(mem[at..at + HEADER_LEN])
  }

  /** `used` is negative when a header was cut out of fewer than HEADER_LEN buffered bytes. */
  datatype HeaderResult = HeaderResult(frames: seq<Frame>, status: Status, mode: Mode, mem: Memory, used: int)

  /** The loop of header_parse. The header is read at the cursor, the body at the buffer's start. */
  function HeaderLoop(cfg: Config, mem: Memory, cursor: nat, used: int, mode: Mode): (r: HeaderResult)
    requires cfg.Valid() && |mem| == cfg.cap + HEADER_LEN && ModeOk(cfg, mode)
    requires used <= cfg.cap && cursor + used <= cfg.cap
    ensures |r.mem| == |mem| && r.used <= used && ModeOk(cfg, r.mode)
    ensures r.status in {Waiting, Closed}
    ensures r.used < 0 && used >= 0 ==> r.status == Waiting && r.mode.Some? && r.used > -HEADER_LEN
    decreases if used < 0 then 0 else used, if mode.Some? then 1 else 0
  {
    if used <= 0 then HeaderResult([], Waiting, mode, mem, used)
    else
      match mode
      case None =>
        var h := HeaderAt(cfg, mem, cursor);
        if Oversized(cfg, h) then HeaderResult([], Closed, None, mem, used)
        else HeaderLoop(cfg, Reset(mem, cursor + HEADER_LEN, used - HEADER_LEN),
                        cursor + HEADER_LEN, used - HEADER_LEN, Some(h))
      case Some(h) =>
        var d := h.datalen as int;
        if used < d then HeaderResult([], Waiting, mode, mem, used)
        else
          var r := HeaderLoop(cfg, Reset(mem, cursor + d, used - d), cursor + d, used - d, None);
          r.(frames := [(h, mem[..d])] + r.frames)
  }

  lemma Idle(cfg: Config, mem: Memory, cursor: nat, used: int, mode: Mode)
    requires cfg.Valid() && |mem| == cfg.cap + HEADER_LEN && ModeOk(cfg, mode)
    requires used <= cfg.cap && cursor + used <= cfg.cap
    requires used <= 0 || (mode.Some? && used < mode.value.datalen as int)
    ensures HeaderLoop(cfg, mem, cursor, used, mode) == HeaderResult([], Waiting, mode, mem, used)
  {
  }

  lemma HeadStep(cfg: Config, mem: Memory, cursor: nat, used: int)
    requires cfg.Valid() && |mem| == cfg.cap + HEADER_LEN && 0 < used && cursor + used <= cfg.cap
    ensures var h := HeaderAt(cfg, mem, cursor);
      HeaderLoop(cfg, mem, cursor, used, None) ==
        if Oversized(cfg, h) then HeaderResult([], Closed, None, mem, used)
        else HeaderLoop(cfg, Reset(mem, cursor + HEADER_LEN, used - HEADER_LEN),
                        cursor + HEADER_LEN, used - HEADER_LEN, Some(h))
  {
    hide Reset;
  }

  lemma BodyStep(cfg: Config, mem: Memory, cursor: nat, used: int, h: Header)
    requires cfg.Valid() && |mem| == cfg.cap + HEADER_LEN && 0 < used && cursor + used <= cfg.cap
    requires ModeOk(cfg, Some(h)) && h.datalen as int <= used
    ensures var d := h.datalen as int;
      var r := HeaderLoop(cfg, Reset(mem, cursor + d, used - d), cursor + d, used - d, None);
      HeaderLoop(cfg, mem, cursor, used, Some(h)) == r.(frames := [(h, mem[..d])] + r.frames)
  {
    hide Reset;
  }

  /** Exactly when the loop calls close: at a header that announces too much. */
  lemma {:induction false} HeaderLoopCloses(cfg: Config, mem: Memory, cursor: nat, used: int, mode: Mode)
    requires cfg.Valid() && |mem| == cfg.cap + HEADER_LEN && ModeOk(cfg, mode)
    requires used <= cfg.cap && cursor + used <= cfg.cap
    ensures var r := HeaderLoop(cfg, mem, cursor, used, mode);
      && (r.status == Closed <==> r.used > 0 && r.mode == None)
      && (r.status == Closed ==> Oversized(cfg, HeaderAt(cfg, r.mem, cursor + used - r.used)))
    decreases if used < 0 then 0 else used, if mode.Some? then 1 else 0
  {
    hide HeaderLoop, Reset;
    if used <= 0 || (mode.Some? && used < mode.value.datalen as int) {
      Idle(cfg, mem, cursor, used, mode);
    } else if mode.None? {
      HeadStep(cfg, mem, cursor, used);
      var h := HeaderAt(cfg, mem, cursor);
      if !Oversized(cfg, h) {
        HeaderLoopCloses(cfg, Reset(mem, cursor + HEADER_LEN, used - HEADER_LEN),
                         cursor + HEADER_LEN, used - HEADER_LEN, Some(h));
      }
    } else {
      var d := mode.value.datalen as int;
      BodyStep(cfg, mem, cursor, used, mode.value);
      HeaderLoopCloses(cfg, Reset(mem, cursor + d, used - d), cursor + d, used - d, None);
    }
  }

  /** One call of header_parse. */
  function HeaderReceive(cfg: Config, mem: Memory, used: int, mode: Mode, chunk: seq<byte>): (r: HeaderResult)
    requires cfg.Valid() && |mem| == cfg.cap + HEADER_LEN && ModeOk(cfg, mode) && -HEADER_LEN < used <= cfg.cap
    ensures |r.mem| == |mem| && -HEADER_LEN < r.used <= cfg.cap && ModeOk(cfg, r.mode)
  {
    if chunk == [] || used + |chunk| > cfg.cap then HeaderResult([], Closed, mode, mem, used)
    else if used < 0 then HeaderResult([], Overrun, mode, mem, used)
    else
      var mem', used' := Received(mem, used, chunk), used + |chunk|;
      if used' < HEADER_LEN && mode.None? then HeaderResult([], Waiting, mode, mem', used')
      else HeaderLoop(cfg, mem', 0, used', mode)
  }

  lemma HeaderReceiveIs(cfg: Config, mem: Memory, used: nat, mode: Mode, chunk: seq<byte>)
    requires cfg.Valid() && |mem| == cfg.cap + HEADER_LEN && ModeOk(cfg, mode) && used <= cfg.cap
    ensures var r := HeaderReceive(cfg, mem, used, mode, chunk);
      if chunk == [] || used + |chunk| > cfg.cap then r == HeaderResult([], Closed, mode, mem, used)
      else
        var all := mem[..used] + chunk;
        r == if |all| < HEADER_LEN && mode == None then HeaderResult([], Waiting, None, all + mem[|all|..], |all|)
             else HeaderLoop(cfg, all + mem[|all|..], 0, |all|, mode)
  {
    hide HeaderLoop;
  }

  /** One call of header_parse calls close exactly if it refuses the receive or its loop stops at a
      header that announces too much. */
  lemma HeaderReceiveCloses(cfg: Config, mem: Memory, used: nat, mode: Mode, chunk: seq<byte>)
    requires cfg.Valid() && |mem| == cfg.cap + HEADER_LEN && ModeOk(cfg, mode) && used <= cfg.cap
    ensures var r := HeaderReceive(cfg, mem, used, mode, chunk);
      r.status == Closed <==>
        || chunk == [] || used + |chunk| > cfg.cap
        || (r.used > 0 && r.mode == None && (mode.Some? || used + |chunk| >= HEADER_LEN)
            && Oversized(cfg, HeaderAt(cfg, r.mem, used + |chunk| - r.used)))
  {
    hide HeaderLoop;
    if chunk != [] && used + |chunk| <= cfg.cap {
      HeaderLoopCloses(cfg, Received(mem, used, chunk), 0, used + |chunk|, mode);
    }
  }
}

/** The class of msg_parse.h. Its methods perform the loops on a real buffer. */
module MessageParse {
  import opened Bytes
  import opened Wire
  import opened ParserLoops

  /** `done` of `all` has been delivered, `rest` is still to come. */
  ghost predicate Remaining<T>(all: seq<T>, done: seq<T>, rest: seq<T>) {
    all == done + rest
  }

  lemma RemainingAll<T>(done: seq<T>, rest: seq<T>)
    ensures Remaining(done + rest, done, rest)
  {
  }

  lemma RemainingNext<T>(all: seq<T>, done: seq<T>, next: T, rest: seq<T>)
    requires Remaining(all, done, [next] + rest)
    ensures Remaining(all, done + [next], rest)
  {
    assert done + ([next] + rest) == (done + [next]) + rest;
  }

  lemma RemainingNone<T>(all: seq<T>, done: seq<T>)
    ensures Remaining(all, done, []) <==> all == done
  {
    assert done + [] == done;
  }

  datatype ParseType = PARSE_HEAD | PARSE_NOTHING

  class MessageParse {
    const cfg: Config
    const readData: array<byte>
    const realData: array<byte>
    var usedLen: int
    var parseType: ParseType
    var theHeader: Header
    var useHeader: bool
    var needParse: bool

    /** What the user's callbacks have been given so far. */
    var frames: seq<Frame>
    var datas: seq<seq<byte>>
    var closeCalls: nat

    ghost predicate Valid()
      reads this
    {
      && cfg.Valid() && readData.Length == cfg.cap + HEADER_LEN
      && realData.Length == cfg.cap && readData != realData
      && -HEADER_LEN < usedLen <= cfg.cap && ModeOk(cfg, PendingMode())
    }

    function PendingMode(): Mode
      reads this
    {
      if parseType == PARSE_NOTHING then None else Some(theHeader)
    }

    constructor (cfg: Config)
      requires cfg.Valid()
      ensures Valid() && fresh(readData) && fresh(realData) && this.cfg == cfg
      ensures usedLen == 0 && PendingMode() == None && useHeader && needParse
      ensures frames == [] && datas == [] && closeCalls == 0
    {
      this.cfg := cfg;
      readData := new byte[cfg.cap + HEADER_LEN];
      realData := new byte[cfg.cap];
      usedLen := 0;
      parseType := PARSE_NOTHING;
      theHeader := Header(0, 0);
      useHeader, needParse := true, true;
      frames, datas, closeCalls := [], [], 0;
    }

    /** The receive buffer as libuv hands it over: no bytes if it is null or len is not positive. */
    static function Chunk(data: array?<byte>, len: int): (chunk: seq<byte>)
      requires data != null ==> len <= data.Length
      reads data
    {
      if data == null || len <= 0 then [] else data[..len]
    }

    method ResetData(src: nat, len: int)
      requires len > 0 ==> src + len <= readData.Length
      modifies readData
      ensures readData[..] == Reset(old(readData[..]), src, len)
    {
      if src != 0 && len > 0 {
        forall i | 0 <= i < len {
          readData[i] := readData[src + i];
        }
      }
    }

    method Append(data: array<byte>, len: nat)
      requires Valid() && len <= data.Length && data != readData
      requires 0 <= usedLen && usedLen + len <= cfg.cap
      modifies readData
      ensures readData[..] == Received(old(readData[..]), usedLen, data[..len])
    {
      forall i | 0 <= i < len {
        readData[usedLen + i] := data[i];
      }
    }

    /** memcpy of a frame out of the buffer's start. No frame is longer than the capacity, so the C++
        code's realloc of the destination is never reached and has no counterpart here. */
    method CopyFrame(len: nat)
      requires Valid() && len <= cfg.cap
      modifies realData
      ensures realData[..len] == readData[..len]
    {
      forall i | 0 <= i < len {
        realData[i] := readData[i];
      }
    }

    method LengthParse(data: array?<byte>, len: int) returns (status: Status)
      requires Valid() && data != readData && data != realData
      requires data != null ==> len <= data.Length
      modifies this`usedLen, this`datas, this`closeCalls, readData, realData
      ensures Valid()
      ensures var r := LengthReceive(cfg, needParse, old(readData[..]), old(usedLen), old(Chunk(data, len)));
        && status == r.status && usedLen == r.used && readData[..] == r.mem && datas == old(datas) + r.frames
        && closeCalls == old(closeCalls) + if r.status == Closed then 1 else 0
      ensures data == null || len <= 0 || old(usedLen) + len > cfg.cap ==>
        && status == Closed && closeCalls == old(closeCalls) + 1
        && datas == old(datas) && usedLen == old(usedLen) && readData[..] == old(readData[..])
      ensures data != null && len > 0 && old(usedLen) < 0 && old(usedLen) + len <= cfg.cap ==>
        && status == Overrun && closeCalls == old(closeCalls)
        && datas == old(datas) && usedLen == old(usedLen) && readData[..] == old(readData[..])
      ensures !needParse && data != null && len > 0 && old(usedLen) >= 0 && old(usedLen) + len <= cfg.cap ==>
        && status == Waiting && closeCalls == old(closeCalls) && usedLen == 0
        && datas == old(datas) + [old(readData[..])[..old(usedLen)] + old(data[..len])]
    {
      hide LengthLoop, Received;
      if data == null || len <= 0 || usedLen + len > cfg.cap {
        closeCalls := closeCalls + 1;
        return Closed;
      }
      if usedLen < 0 {
        return Overrun;
      }
      if !needParse {
        RawReceive(cfg, readData[..], usedLen, data[..len]);
      }
      Append(data, len);
      usedLen := usedLen + len;
      status := LengthFrames();
    }

    /** The while loop of length_parse. */
    method LengthFrames() returns (status: Status)
      requires Valid() && 0 <= usedLen
      modifies this`usedLen, this`datas, this`closeCalls, readData, realData
      ensures Valid()
      ensures var r := LengthLoop(cfg, needParse, old(readData[..]), 0, old(usedLen));
        && status == r.status && usedLen == r.used && readData[..] == r.mem && datas == old(datas) + r.frames
        && closeCalls == old(closeCalls) + if r.status == Closed then 1 else 0
    {
      hide LengthLoop, Reset, Unsettled, Remaining;
      var pReadData := 0;
      ghost var goal := LengthLoop(cfg, needParse, readData[..], 0, usedLen);
      ghost var all := datas + goal.frames;
      RemainingAll(datas, goal.frames);
      while usedLen > 0
        invariant Valid() && closeCalls == old(closeCalls)
        invariant 0 <= pReadData && 0 <= usedLen && pReadData + usedLen <= cfg.cap
        invariant var r := LengthLoop(cfg, needParse, readData[..], pReadData, usedLen);
          Remaining(all, datas, r.frames) && goal.status == r.status && goal.mem == r.mem && goal.used == r.used
        decreases usedLen, Unsettled(readData[..], pReadData, usedLen)
      {
        label turn:
        ghost var mem := readData[..];
        RemainingNone(all, datas);
        if LengthTurn(cfg, needParse, mem, pReadData, usedLen).Leave? {
          LengthLeaves(cfg, needParse, mem, pReadData, usedLen);
        }
        var totLength := usedLen;
        if needParse {
          if totLength < LENGTH_HEADLEN {
            return Waiting;
          }
          totLength := cfg.word(readData[pReadData..pReadData + LENGTH_HEADLEN]) as int;
        }
        if totLength < 0 || totLength > cfg.cap {
          closeCalls := closeCalls + 1;
          return Closed;
        } else if totLength <= usedLen {
          var moved := DeliverLength(pReadData, totLength);
          if totLength == 0 && !moved {
            // From here the C++ code repeats this iteration, and its callback, for ever.
            return Spinning;
          }
          pReadData := pReadData + totLength;
          RemainingNext(all, old@turn(datas), mem[..totLength],
                        LengthLoop(cfg, needParse, readData[..], pReadData, usedLen).frames);
        } else {
          return Waiting;
        }
      }
      LengthLeaves(cfg, needParse, readData[..], pReadData, 0);
      RemainingNone(all, datas);
      return Waiting;
    }

    /** Cut a frame of `total` bytes out and hand it to the callback, unless that changes nothing. */
    method DeliverLength(at: nat, total: nat) returns (moved: bool)
      requires Valid() && 0 < usedLen && at + usedLen <= cfg.cap && (needParse ==> usedLen >= LENGTH_HEADLEN)
      requires total == TotalLength(cfg, needParse, readData[..], at, usedLen) <= usedLen
      modifies this`usedLen, this`datas, readData, realData
      ensures Valid() && usedLen == old(usedLen) - total
      ensures var r := LengthLoop(cfg, needParse, old(readData[..]), at, old(usedLen));
        if total == 0 && !moved then
          r == LengthResult([], Spinning, readData[..], usedLen) && datas == old(datas)
        else
          var r' := LengthLoop(cfg, needParse, readData[..], at + total, usedLen);
          var f := old(readData[..])[..total];
          && r == LengthResult([f] + r'.frames, r'.status, r'.mem, r'.used) && datas == old(datas) + [f]
          && (total == 0 ==> Unsettled(readData[..], at, usedLen) < old(Unsettled(readData[..], at, usedLen)))
    {
      hide LengthLoop, Reset, Unsettled, TotalLength;
      ghost var mem, left := readData[..], usedLen;
      moved := CutFrame(at + total, total);
      TurnEffect(cfg, needParse, mem, at, left, total, readData[..]);
      if total != 0 || moved {
        datas := datas + [realData[..total]];
      }
    }

    /** Copy the frame out, advance past it, and move what is left to the buffer's start. */
    method CutFrame(next: nat, len: nat) returns (moved: bool)
      requires Valid() && len <= usedLen && next + usedLen - len <= cfg.cap
      modifies this`usedLen, readData, realData
      ensures Valid() && usedLen == old(usedLen) - len
      ensures realData[..len] == old(readData[..])[..len]
      ensures readData[..] == Reset(old(readData[..]), next, usedLen)
      ensures moved <==> readData[..] != old(readData[..])
    {
      hide Reset;
      var before := readData[..];
      CopyFrame(len);
      usedLen := usedLen - len;
      ResetData(next, usedLen);
      moved := readData[..] != before;
    }

    method HeaderParse(data: array?<byte>, len: int) returns (status: Status)
      requires Valid() && data != readData && data != realData
      requires data != null ==> len <= data.Length
      modifies this`usedLen, this`frames, this`closeCalls, this`parseType, this`theHeader, readData, realData
      ensures Valid()
      ensures var r := HeaderReceive(cfg, old(readData[..]), old(usedLen), old(PendingMode()), old(Chunk(data, len)));
        && status == r.status && usedLen == r.used && readData[..] == r.mem && PendingMode() == r.mode
        && frames == old(frames) + r.frames
        && closeCalls == old(closeCalls) + if r.status == Closed then 1 else 0
      ensures data == null || len <= 0 || old(usedLen) + len > cfg.cap ==>
        && status == Closed && closeCalls == old(closeCalls) + 1 && frames == old(frames)
        && usedLen == old(usedLen) && readData[..] == old(readData[..]) && PendingMode() == old(PendingMode())
      ensures data != null && len > 0 && old(usedLen) < 0 && old(usedLen) + len <= cfg.cap ==>
        && status == Overrun && closeCalls == old(closeCalls) && frames == old(frames)
        && usedLen == old(usedLen) && readData[..] == old(readData[..]) && PendingMode() == old(PendingMode())
    {
      hide HeaderLoop, Received;
      if data == null || len <= 0 || usedLen + len > cfg.cap {
        closeCalls := closeCalls + 1;
        return Closed;
      }
      if usedLen < 0 {
        return Overrun;
      }
      Append(data, len);
      usedLen := usedLen + len;
      if usedLen < HEADER_LEN && parseType == PARSE_NOTHING {
        return Waiting;
      }
      status := HeaderFrames();
    }

    /** The while loop of header_parse. */
    method HeaderFrames() returns (status: Status)
      requires Valid()
      modifies this`usedLen, this`frames, this`closeCalls, this`parseType, this`theHeader, readData, realData
      ensures Valid()
      ensures var r := HeaderLoop(cfg, old(readData[..]), 0, old(usedLen), old(PendingMode()));
        && status == r.status && usedLen == r.used && readData[..] == r.mem && PendingMode() == r.mode
        && frames == old(frames) + r.frames
        && closeCalls == old(closeCalls) + if r.status == Closed then 1 else 0
    {
      hide HeaderLoop, Reset, Remaining;
      var pReadData := 0;
      ghost var goal := HeaderLoop(cfg, readData[..], 0, usedLen, PendingMode());
      ghost var all := frames + goal.frames;
      RemainingAll(frames, goal.frames);
      while usedLen > 0
        invariant Valid() && closeCalls == old(closeCalls)
        invariant 0 <= pReadData && pReadData + usedLen <= cfg.cap
        invariant var r := HeaderLoop(cfg, readData[..], pReadData, usedLen, PendingMode());
          && Remaining(all, frames, r.frames)
          && goal.status == r.status && goal.mem == r.mem && goal.used == r.used && goal.mode == r.mode
        decreases if usedLen < 0 then 0 else usedLen, if parseType == PARSE_HEAD then 1 else 0
      {
        label turn:
        RemainingNone(all, frames);
        ghost var mem := readData[..];
        if parseType == PARSE_NOTHING {
          var accepted := CutHeader(pReadData);
          if !accepted {
            closeCalls := closeCalls + 1;
            return Closed;
          }
          pReadData := pReadData + HEADER_LEN;
        } else if usedLen >= theHeader.datalen as int {
          CutBody(pReadData);
          pReadData := pReadData + theHeader.datalen as int;
          RemainingNext(all, old@turn(frames), (theHeader, mem[..theHeader.datalen as int]),
                        HeaderLoop(cfg, readData[..], pReadData, usedLen, None).frames);
        } else {
          Idle(cfg, mem, pReadData, usedLen, PendingMode());
          return Waiting;
        }
      }
      Idle(cfg, readData[..], pReadData, usedLen, PendingMode());
      RemainingNone(all, frames);
      return Waiting;
    }

    /** Copy a header from the cursor and move what is left behind it to the buffer's start. */
    method CutHeader(at: nat) returns (accepted: bool)
      requires Valid() && parseType == PARSE_NOTHING && usedLen > 0 && at + usedLen <= cfg.cap
      modifies this`usedLen, this`parseType, this`theHeader, readData
      ensures Valid()
      ensures var h := HeaderAt(cfg, old(readData[..]), at);
        var r := HeaderLoop(cfg, old(readData[..]), at, old(usedLen), None);
        && (!accepted ==> usedLen == old(usedLen) && PendingMode() == None && readData[..] == old(readData[..])
                          && r == HeaderResult([], Closed, None, readData[..], usedLen))
        && (accepted ==> usedLen == old(usedLen) - HEADER_LEN && PendingMode() == Some(h)
                         && r == HeaderLoop(cfg, readData[..], at + HEADER_LEN, usedLen, Some(h)))
    {
      hide Reset, HeaderLoop;
      HeadStep(cfg, readData[..], at, usedLen);
      theHeader := cfg.header(readData[at..at + HEADER_LEN]);
      if Oversized(cfg, theHeader) {
        return false;
      }
      usedLen := usedLen - HEADER_LEN;
      parseType := PARSE_HEAD;
      ResetData(at + HEADER_LEN, usedLen);
      return true;
    }

    /** Cut the body of the pending header out, and hand the frame to the callback. */
    method CutBody(at: nat)
      requires Valid() && parseType == PARSE_HEAD && 0 < usedLen
      requires theHeader.datalen as int <= usedLen && at + usedLen <= cfg.cap
      modifies this`usedLen, this`frames, this`parseType, readData, realData
      ensures Valid() && PendingMode() == None && usedLen == old(usedLen) - theHeader.datalen as int
      ensures var d := theHeader.datalen as int;
        var r := HeaderLoop(cfg, readData[..], at + d, usedLen, None);
        var f := (theHeader, old(readData[..])[..d]);
        && frames == old(frames) + [f]
        && HeaderLoop(cfg, old(readData[..]), at, old(usedLen), Some(theHeader)) == r.(frames := [f] + r.frames)
    {
      hide Reset, HeaderLoop;
      BodyStep(cfg, readData[..], at, usedLen, theHeader);
      var len := theHeader.datalen as int;
      var _ := CutFrame(at + len, len);
      frames := frames + [(theHeader, realData[..len])];
      parseType := PARSE_NOTHING;
    }

    /** Dispatch on the mode chosen by SetMsgCB or SetDataCB. */
    method RecvData(data: array?<byte>, len: int) returns (status: Status)
      requires Valid() && data != readData && data != realData
      requires data != null ==> len <= data.Length
      modifies this`usedLen, this`frames, this`datas, this`closeCalls, this`parseType, this`theHeader
      modifies readData, realData
      ensures Valid()
      ensures useHeader ==>
        var r := HeaderReceive(cfg, old(readData[..]), old(usedLen), old(PendingMode()), old(Chunk(data, len)));
        && status == r.status && usedLen == r.used && readData[..] == r.mem && PendingMode() == r.mode
        && frames == old(frames) + r.frames && datas == old(datas)
      ensures !useHeader ==>
        var r := LengthReceive(cfg, needParse, old(readData[..]), old(usedLen), old(Chunk(data, len)));
        && status == r.status && usedLen == r.used && readData[..] == r.mem && PendingMode() == old(PendingMode())
        && datas == old(datas) + r.frames && frames == old(frames)
      ensures closeCalls == old(closeCalls) + if status == Closed then 1 else 0
      ensures data == null || len <= 0 || old(usedLen) + len > cfg.cap ==>
        && status == Closed && frames == old(frames) && datas == old(datas)
        && usedLen == old(usedLen) && readData[..] == old(readData[..]) && PendingMode() == old(PendingMode())
    {
      hide HeaderReceive, LengthReceive, HeaderLoop, LengthLoop;
      if useHeader {
        status := HeaderParse(data, len);
      } else {
        status := LengthParse(data, len);
      }
    }
  }
}

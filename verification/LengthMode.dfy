/** Length-prefixed framing: what length_parse should deliver, and exactly when it does. */
module LengthMode {
  import opened Bytes
  import opened Wire
  import opened ParserLoops

  datatype CutResult = CutResult(frames: seq<seq<byte>>, status: Status, rest: seq<byte>)

  function Word(cfg: Config, data: seq<byte>): int
    requires |data| >= LENGTH_HEADLEN
  {
    cfg.word(data[..LENGTH_HEADLEN]) as int
  }

  /** The reference parser: no buffer, no cursor, just the stream. */
  function Cut(cfg: Config, data: seq<byte>): CutResult
    decreases |data|
  {
    if |data| < LENGTH_HEADLEN then CutResult([], Waiting, data)
    else
      var w := Word(cfg, data);
      if w < 0 || w > cfg.cap then CutResult([], Closed, data)
      else if w == 0 then CutResult([], Spinning, data)
      else if w > |data| then CutResult([], Waiting, data)
      else
        var r := Cut(cfg, data[w..]);
        r.(frames := [data[..w]] + r.frames)
  }

  predicate FrameReady(cfg: Config, left: seq<byte>) {
    |left| >= LENGTH_HEADLEN && 0 < Word(cfg, left) <= |left|
  }

  lemma CutReady(cfg: Config, data: seq<byte>)
    requires FrameReady(cfg, data) && Word(cfg, data) <= cfg.cap
    ensures var w := Word(cfg, data);
      var r := Cut(cfg, data[w..]);
      Cut(cfg, data) == CutResult([data[..w]] + r.frames, r.status, r.rest)
  {
  }

  lemma CutIdle(cfg: Config, data: seq<byte>)
    requires FrameReady(cfg, data) ==> Word(cfg, data) > cfg.cap
    ensures Cut(cfg, data).frames == [] && Cut(cfg, data).rest == data
  {
  }

  /** The in-place loop delivered the reference's frames and left its unconsumed suffix at the base. */
  ghost predicate Matches(r: LengthResult, c: CutResult) {
    && r.frames == c.frames && r.status == c.status
    && r.used == |c.rest| <= |r.mem| && r.mem[..r.used] == c.rest
  }

  // ------------------------------------------------------- the reference parser

  lemma {:induction false} CutConserves(cfg: Config, data: seq<byte>)
    ensures var c := Cut(cfg, data); Concat(c.frames) + c.rest == data
    decreases |data|
  {
    hide Cut;
    if FrameReady(cfg, data) && Word(cfg, data) <= cfg.cap {
      var w := Word(cfg, data);
      CutReady(cfg, data);
      CutConserves(cfg, data[w..]);
      ConcatCons(data[..w], Cut(cfg, data[w..]).frames);
    } else {
      CutIdle(cfg, data);
    }
  }

  /** Parsing is incremental: more input continues from the rest. */
  lemma {:induction false} CutAppend(cfg: Config, a: seq<byte>, b: seq<byte>)
    requires Cut(cfg, a).status == Waiting
    ensures var first := Cut(cfg, a);
      var next := Cut(cfg, first.rest + b);
      Cut(cfg, a + b) == CutResult(first.frames + next.frames, next.status, next.rest)
    decreases |a|
  {
    hide Cut;
    if FrameReady(cfg, a) && Word(cfg, a) <= cfg.cap {
      var w := Word(cfg, a);
      assert (a + b)[..LENGTH_HEADLEN] == a[..LENGTH_HEADLEN];
      assert (a + b)[w..] == a[w..] + b && (a + b)[..w] == a[..w];
      CutReady(cfg, a);
      CutReady(cfg, a + b);
      CutAppend(cfg, a[w..], b);
      var tail := Cut(cfg, a[w..]);
      var next := Cut(cfg, tail.rest + b);
      assert [a[..w]] + (tail.frames + next.frames) == [a[..w]] + tail.frames + next.frames;
    } else {
      CutIdle(cfg, a);
      assert [] + Cut(cfg, a + b).frames == Cut(cfg, a + b).frames;
    }
  }

  // -------------------------------------------- the loop and the stale read cursor

  /** The unconsumed bytes sit both at the base, where frames are copied from, and at the cursor,
      where length words are read, and the two copies do not overlap. */
  ghost predicate TwoCopies(left: seq<byte>, cursor: nat, mem: Memory) {
    && |left| <= cursor && cursor + |left| <= |mem|
    && mem[..|left|] == left && mem[cursor..cursor + |left|] == left
  }

  lemma TwoCopiesKept(left: seq<byte>, cursor: nat, mem: Memory, n: nat)
    requires TwoCopies(left, cursor, mem) && n <= |left|
    ensures mem[..n] == left[..n] && mem[cursor..cursor + n] == left[..n]
    ensures TwoCopies(left[n..], cursor + n, Reset(mem, cursor + n, |left| - n))
  {
    var moved := Reset(mem, cursor + n, |left| - n);
    assert forall i :: 0 <= i < |left| ==> mem[i] == left[i];
    assert forall i :: 0 <= i < |left| ==> mem[cursor + i] == mem[cursor..cursor + |left|][i] == left[i];
    assert moved[..|left| - n] == left[n..];
    forall i | 0 <= i < |left| - n
      ensures moved[cursor + n..cursor + |left|][i] == left[n..][i]
    {
      assert moved[cursor + n + i] == mem[cursor + n + i] == mem[cursor..cursor + |left|][n + i];
    }
    assert moved[cursor + n..cursor + |left|] == left[n..];
  }

  lemma LoopStep(cfg: Config, mem: Memory, cursor: nat, used: nat, w: nat)
    requires cfg.Valid() && cursor + used <= cfg.cap <= |mem|
    requires LENGTH_HEADLEN <= used && 0 < w <= used && LengthWord(cfg, mem, cursor) == w
    ensures var r := LengthLoop(cfg, true, Reset(mem, cursor + w, used - w), cursor + w, used - w);
      LengthLoop(cfg, true, mem, cursor, used) == r.(frames := [mem[..w]] + r.frames)
  {
    hide LengthLoop, Reset, Unsettled;
    LengthStep(cfg, true, mem, cursor, used, w);
  }

  /** A common first frame neither helps nor hurts. */
  lemma Prepend(f: seq<byte>, r: LengthResult, c: CutResult)
    requires Matches(r, c)
    ensures Matches(r.(frames := [f] + r.frames), CutResult([f] + c.frames, c.status, c.rest))
  {
  }

  lemma SliceOfSlice(s: seq<byte>, lo: nat, n: nat, k: nat)
    requires k <= n && lo + n <= |s|
    ensures s[lo..lo + n][..k] == s[lo..lo + k]
  {
  }

  lemma NoFrame(cfg: Config, left: seq<byte>, cursor: nat, mem: Memory)
    requires cfg.Valid() && cursor + |left| <= cfg.cap <= |mem|
    requires mem[..|left|] == left && mem[cursor..cursor + |left|] == left
    requires !FrameReady(cfg, left)
    ensures Matches(LengthLoop(cfg, true, mem, cursor, |left|), Cut(cfg, left))
  {
    hide LengthLoop, Reset;
    if |left| >= LENGTH_HEADLEN {
      SliceOfSlice(mem, cursor, |left|, LENGTH_HEADLEN);
      SameMove(mem, cursor, |left|);
    }
    LengthLeaves(cfg, true, mem, cursor, |left|);
  }

  lemma SameMove(mem: Memory, cursor: nat, n: nat)
    requires cursor + n <= |mem| && mem[..n] == mem[cursor..cursor + n]
    ensures Reset(mem, cursor, n) == mem
  {
    forall i | 0 <= i < n
      ensures mem[cursor + i] == mem[i]
    {
      assert mem[..n][i] == mem[cursor..cursor + n][i];
    }
  }

  lemma OneFrame(cfg: Config, left: seq<byte>, cursor: nat, mem: Memory)
    requires cfg.Valid() && cursor + |left| <= cfg.cap <= |mem|
    requires mem[..|left|] == left && mem[cursor..cursor + |left|] == left
    requires FrameReady(cfg, left)
    requires var w := Word(cfg, left);
      Matches(LengthLoop(cfg, true, Reset(mem, cursor + w, |left| - w), cursor + w, |left| - w), Cut(cfg, left[w..]))
    ensures Matches(LengthLoop(cfg, true, mem, cursor, |left|), Cut(cfg, left))
  {
    hide LengthLoop, Reset, Cut, Matches;
    SliceOfSlice(mem, cursor, |left|, LENGTH_HEADLEN);
    var w := Word(cfg, left);
    LoopStep(cfg, mem, cursor, |left|, w);
    CutReady(cfg, left);
    SliceOfSlice(mem, 0, |left|, w);
    assert mem[..w] == left[..w];
    Prepend(left[..w], LengthLoop(cfg, true, Reset(mem, cursor + w, |left| - w), cursor + w, |left| - w),
            Cut(cfg, left[w..]));
  }

  lemma {:induction false} TwoCopiesLoop(cfg: Config, left: seq<byte>, cursor: nat, mem: Memory)
    requires cfg.Valid() && cursor + |left| <= cfg.cap <= |mem|
    requires TwoCopies(left, cursor, mem)
    ensures Matches(LengthLoop(cfg, true, mem, cursor, |left|), Cut(cfg, left))
    decreases |left|
  {
    hide LengthLoop, Cut, Reset, Matches;
    if FrameReady(cfg, left) {
      var w := Word(cfg, left);
      TwoCopiesKept(left, cursor, mem, w);
      TwoCopiesLoop(cfg, left[w..], cursor + w, Reset(mem, cursor + w, |left| - w));
      OneFrame(cfg, left, cursor, mem);
    } else {
      NoFrame(cfg, left, cursor, mem);
    }
  }

  /** A receive is clear when no first frame is complete, or the first frame is at least as long as
      everything buffered behind it. */
  predicate Clear(cfg: Config, data: seq<byte>) {
    FrameReady(cfg, data) ==> |data| <= 2 * Word(cfg, data)
  }

  lemma FirstMove(data: seq<byte>, mem: Memory, w: nat)
    requires w <= |data| <= |mem| && mem[..|data|] == data && |data| <= 2 * w
    ensures TwoCopies(data[w..], w, Reset(mem, w, |data| - w))
  {
    var moved := Reset(mem, w, |data| - w);
    assert moved[..|data| - w] == data[w..];
    assert moved[w..|data|] == data[w..];
  }

  /** Behind a first frame of w bytes, at least as long as what follows it, two copies are left. */
  lemma BehindFirst(cfg: Config, data: seq<byte>, mem: Memory, w: nat)
    requires cfg.Valid() && w <= |data| <= cfg.cap <= |mem| && mem[..|data|] == data && |data| <= 2 * w
    ensures Matches(LengthLoop(cfg, true, Reset(mem, w, |data| - w), w, |data| - w), Cut(cfg, data[w..]))
  {
    hide LengthLoop, Cut, Reset, Matches, TwoCopies;
    FirstMove(data, mem, w);
    TwoCopiesLoop(cfg, data[w..], w, Reset(mem, w, |data| - w));
  }

  lemma FirstFrame(cfg: Config, data: seq<byte>, mem: Memory)
    requires cfg.Valid() && |data| <= cfg.cap <= |mem| && mem[..|data|] == data && FrameReady(cfg, data)
    requires var w := Word(cfg, data);
      Matches(LengthLoop(cfg, true, Reset(mem, w, |data| - w), w, |data| - w), Cut(cfg, data[w..]))
    ensures Matches(LengthLoop(cfg, true, mem, 0, |data|), Cut(cfg, data))
  {
    hide LengthLoop, Cut, Reset, Matches, FrameReady, Word, Config.Valid;
    assert mem[0..|data|] == data;
    OneFrame(cfg, data, 0, mem);
  }

  lemma ClearMatches(cfg: Config, data: seq<byte>, mem: Memory)
    requires cfg.Valid() && |data| <= cfg.cap <= |mem| && mem[..|data|] == data
    requires Clear(cfg, data)
    ensures Matches(LengthLoop(cfg, true, mem, 0, |data|), Cut(cfg, data))
  {
    hide LengthLoop, Cut, Matches, Reset;
    if FrameReady(cfg, data) {
      BehindFirst(cfg, data, mem, Word(cfg, data));
      FirstFrame(cfg, data, mem);
    } else {
      assert mem[0..|data|] == data;
      NoFrame(cfg, data, 0, mem);
    }
  }

  /** The verdict Spinning is right: the loop's cursor stands before a zero length word, and taking
      that frame of no bytes changes neither the memory, nor the cursor, nor the buffered length. So
      the loop exits unless it meets a zero word. */
  lemma {:induction false} SpinningRepeats(cfg: Config, mem: Memory, cursor: nat, used: nat)
    requires cfg.Valid() && cursor + used <= cfg.cap <= |mem|
    requires LengthLoop(cfg, true, mem, cursor, used).status == Spinning
    ensures var r := LengthLoop(cfg, true, mem, cursor, used);
      var at := cursor + used - r.used;
      && r.used >= LENGTH_HEADLEN
      && LengthWord(cfg, r.mem, at) == 0 && Reset(r.mem, at, r.used) == r.mem
    decreases used, Unsettled(mem, cursor, used)
  {
    hide LengthLoop, Reset, Unsettled;
    match LengthTurn(cfg, true, mem, cursor, used)
    case Leave(_) =>
      LengthLeaves(cfg, true, mem, cursor, used);
    case Cut(total) =>
      LengthStep(cfg, true, mem, cursor, used, total);
      MoveSettles(mem, cursor, used, Reset(mem, cursor + total, used - total));
      SpinningRepeats(cfg, Reset(mem, cursor + total, used - total), cursor + total, used - total);
  }

  // ------------------------------------------------- where the stale cursor misreads

  lemma FirstFrameHasWordLength(cfg: Config, mem: Memory, cursor: nat, used: nat)
    requires cfg.Valid() && cursor + used <= cfg.cap <= |mem|
    ensures var r := LengthLoop(cfg, true, mem, cursor, used);
      r.frames != [] ==> used >= LENGTH_HEADLEN && |r.frames[0]| == LengthWord(cfg, mem, cursor)
  {
    hide LengthLoop;
    match LengthTurn(cfg, true, mem, cursor, used)
    case Leave(_) => LengthLeaves(cfg, true, mem, cursor, used);
    case Cut(total) => LengthStep(cfg, true, mem, cursor, used, total);
  }

  lemma SecondFrameHasWordLength(cfg: Config, mem: Memory, used: nat, first: nat)
    requires cfg.Valid() && used <= cfg.cap <= |mem|
    requires LENGTH_HEADLEN <= first <= used && LengthWord(cfg, mem, 0) == first
    ensures var r := LengthLoop(cfg, true, mem, 0, used);
      |r.frames| >= 2 ==>
        used - first >= LENGTH_HEADLEN
        && |r.frames[1]| == LengthWord(cfg, Reset(mem, first, used - first), first)
  {
    hide LengthLoop;
    LoopStep(cfg, mem, 0, used, first);
    FirstFrameHasWordLength(cfg, Reset(mem, first, used - first), first, used - first);
  }

  /** Two well-formed frames, the second longer and with a body of one repeated byte that its own
      length word does not start with. */
  function Bait(little: bool, first: nat, second: nat): (data: seq<byte>)
    requires LENGTH_HEADLEN <= first < second <= INT32_MAX
    ensures |data| == first + second
  {
    var word := Int32ToChar(little, second as int32);
    var z: byte := if word[0] == 0 then 1 else 0;
    Int32ToChar(little, first as int32) + seq(first - LENGTH_HEADLEN, _ => z)
    + word + seq(second - LENGTH_HEADLEN, _ => z)
  }

  lemma BaitWords(cap: nat, little: bool, first: nat, second: nat)
    requires LENGTH_HEADLEN <= first < second && first + second <= cap <= INT32_MAX
    ensures var data, cfg := Bait(little, first, second), Host(cap, little);
      Word(cfg, data) == first && Word(cfg, data[first..]) == second && data[2 * first] != data[first]
  {
    var data := Bait(little, first, second);
    Int32RoundTrip(little, first as int32);
    Int32RoundTrip(little, second as int32);
    assert data[..LENGTH_HEADLEN] == Int32ToChar(little, first as int32);
    assert data[first..][..LENGTH_HEADLEN] == Int32ToChar(little, second as int32);
    assert data[first] == data[first..][..LENGTH_HEADLEN][0];
  }

  lemma BaitFrames(cap: nat, little: bool, first: nat, second: nat)
    requires LENGTH_HEADLEN <= first < second && first + second <= cap <= INT32_MAX
    ensures var data := Bait(little, first, second);
      Cut(Host(cap, little), data) == CutResult([data[..first], data[first..]], Waiting, [])
  {
    hide Bait;
    BaitWords(cap, little, first, second);
    var data, cfg := Bait(little, first, second), Host(cap, little);
    assert data[first..][..second] == data[first..] && data[first..][second..] == [];
    assert Cut(cfg, data[first..]) == CutResult([data[first..]], Waiting, []);
  }

  lemma FramesDiffer(r: LengthResult, c: CutResult, n: nat)
    requires |c.frames| == 2 && |c.frames[1]| == n
    requires |r.frames| >= 2 ==> |r.frames[1]| != n
    ensures !Matches(r, c)
  {
  }

  lemma Misread(cfg: Config, data: seq<byte>, mem: Memory, first: nat)
    requires cfg.Valid() && LENGTH_HEADLEN <= first <= |data| <= cfg.cap <= |mem| && mem[..|data|] == data
    requires Word(cfg, data) == first && |Cut(cfg, data).frames| == 2
    requires |data| - first >= LENGTH_HEADLEN
    requires LengthWord(cfg, Reset(mem, first, |data| - first), first) != |Cut(cfg, data).frames[1]|
    ensures !Matches(LengthLoop(cfg, true, mem, 0, |data|), Cut(cfg, data))
  {
    hide LengthLoop, Cut, Reset, Matches;
    SliceOfSlice(mem, 0, |data|, LENGTH_HEADLEN);
    SecondFrameHasWordLength(cfg, mem, |data|, first);
    FramesDiffer(LengthLoop(cfg, true, mem, 0, |data|), Cut(cfg, data), |Cut(cfg, data).frames[1]|);
  }

  lemma BaitWord(cap: nat, little: bool, first: nat, second: nat, mem: Memory)
    requires LENGTH_HEADLEN <= first < second && first + second <= cap <= INT32_MAX
    requires HEADER_LEN < cap <= |mem|
    requires mem[..first + second] == Bait(little, first, second)
    ensures LengthWord(Host(cap, little), Reset(mem, first, second), first) != second
  {
    hide Bait;
    var data, cfg := Bait(little, first, second), Host(cap, little);
    BaitWords(cap, little, first, second);
    var seen, word := Reset(mem, first, second)[first..first + LENGTH_HEADLEN], data[first..][..LENGTH_HEADLEN];
    assert seen[0] == mem[2 * first] == data[2 * first];
    assert word[0] == data[first];
    if cfg.word(seen) == cfg.word(word) {
      MemInt32Injective(little, seen, word);
    }
  }

  /** The loop delivers what the reference delivers, whatever else the memory holds. */
  ghost predicate Agrees(cfg: Config, data: seq<byte>)
    requires cfg.Valid() && |data| <= cfg.cap
  {
    forall mem: Memory :: |mem| == cfg.cap + HEADER_LEN && mem[..|data|] == data ==>
      Matches(LengthLoop(cfg, true, mem, 0, |data|), Cut(cfg, data))
  }

  /** Exactly when length_parse is right for a first frame of a given length at the head of a given
      number of buffered bytes, whatever those bytes are. */
  lemma ExactlyWhenClear(cap: nat, little: bool, first: nat, total: nat)
    requires Host(cap, little).Valid() && LENGTH_HEADLEN <= first <= total <= cap
    ensures (forall data: seq<byte> ::
               |data| == total && Word(Host(cap, little), data) == first ==> Agrees(Host(cap, little), data))
       <==> total <= 2 * first
  {
    hide LengthLoop, Cut, Bait, Matches, Reset, MemInt32;
    var cfg := Host(cap, little);
    if total <= 2 * first {
      forall data: seq<byte>, mem: Memory
        | |data| == total && Word(cfg, data) == first && |mem| == cap + HEADER_LEN && mem[..total] == data
        ensures Matches(LengthLoop(cfg, true, mem, 0, total), Cut(cfg, data))
      {
        ClearMatches(cfg, data, mem);
      }
    } else {
      var data := Bait(little, first, total - first);
      var mem: Memory := data + seq(cap + HEADER_LEN - total, _ => 0);
      assert mem[..total] == data;
      BaitWords(cap, little, first, total - first);
      BaitFrames(cap, little, first, total - first);
      BaitWord(cap, little, first, total - first, mem);
      Misread(cfg, data, mem, first);
      assert !Agrees(cfg, data);
    }
  }

  /** Where the k-th of four blocks of n bytes starts. */
  function Start(n: nat, k: nat): (r: nat)
    requires k <= 4
    ensures r <= 4 * n && (k < 4 ==> r + n <= 4 * n)
  {
    match k
    case 0 => 0
    case 1 => n
    case 2 => 2 * n
    case 3 => 3 * n
    case _ => 4 * n
  }

  function Block(mem: Memory, n: nat, k: nat): (f: seq<byte>)
    requires 4 * n <= |mem| && k < 4
    ensures |f| == n
  {
    mem[Start(n, k)..Start(n, k) + n]
  }

  function MoveFrom(mem: Memory, n: nat, k: nat): (r: Memory)
    requires 4 * n <= |mem| && k <= 4
    ensures |r| == |mem|
  {
    Reset(mem, Start(n, k), 4 * n - Start(n, k))
  }

  function DeliverFrom(cfg: Config, mem: Memory, n: nat, k: nat): seq<seq<byte>>
    requires cfg.Valid() && 4 * n <= cfg.cap <= |mem| && k <= 4
  {
    LengthLoop(cfg, true, mem, Start(n, k), 4 * n - Start(n, k)).frames
  }

  lemma BurstStep(cfg: Config, mem: Memory, n: nat, k: nat)
    requires cfg.Valid() && LENGTH_HEADLEN <= n && 4 * n <= cfg.cap <= |mem| && k < 4
    requires Word(cfg, Block(mem, n, k)) == n
    ensures DeliverFrom(cfg, mem, n, k) == [Block(mem, n, 0)] + DeliverFrom(cfg, MoveFrom(mem, n, k + 1), n, k + 1)
  {
    hide LengthLoop, Reset;
    SliceOfSlice(mem, Start(n, k), n, LENGTH_HEADLEN);
    LoopStep(cfg, mem, Start(n, k), 4 * n - Start(n, k), n);
    assert mem[..n] == mem[0..n];
  }

  lemma MovedBlock(mem: Memory, n: nat, s: nat, k: nat)
    requires 4 * n <= |mem| && s < 4 && k < 4
    ensures Block(MoveFrom(mem, n, s), n, k) == Block(mem, n, if s + k < 4 then s + k else k)
  {
    StartsAdd(n, s, k);
    MovedSlice(mem, Start(n, s), 4 * n - Start(n, s), Start(n, k), n);
  }

  lemma StartsAdd(n: nat, s: nat, k: nat)
    requires s < 4 && k < 4
    ensures if s + k < 4 then Start(n, s) + Start(n, k) == Start(n, s + k) else Start(n, s) + Start(n, k) >= 4 * n
  {
  }

  lemma MovedSlice(mem: Memory, src: nat, n: nat, lo: nat, len: nat)
    requires src + n <= |mem| && lo + len <= |mem|
    ensures lo + len <= n ==> Reset(mem, src, n)[lo..lo + len] == mem[src + lo..src + lo + len]
    ensures n <= lo ==> Reset(mem, src, n)[lo..lo + len] == mem[lo..lo + len]
  {
    var moved := Reset(mem, src, n);
    forall i | lo <= i < lo + len
      ensures lo + len <= n ==> moved[i] == mem[src + i]
      ensures n <= lo ==> moved[i] == mem[i]
    {
    }
  }

  /** Four frames of one length received together: the third callback gets the fourth frame. */
  lemma BurstOfFour(cfg: Config, n: nat, mem: Memory)
    requires cfg.Valid() && LENGTH_HEADLEN <= n && 4 * n <= cfg.cap <= |mem|
    requires forall k :: 0 <= k < 4 ==> Word(cfg, Block(mem, n, k)) == n
    ensures LengthLoop(cfg, true, mem, 0, 4 * n).frames
         == [Block(mem, n, 0), Block(mem, n, 1), Block(mem, n, 3), Block(mem, n, 3)]
  {
    hide LengthLoop;
    assert LengthLoop(cfg, true, mem, 0, 4 * n).frames == DeliverFrom(cfg, mem, n, 0);
    hide Reset, Block, MoveFrom, DeliverFrom;
    var m1 := MoveFrom(mem, n, 1);
    var m2 := MoveFrom(m1, n, 2);
    var m3 := MoveFrom(m2, n, 3);
    MovedBlock(mem, n, 1, 0); MovedBlock(mem, n, 1, 1); MovedBlock(mem, n, 1, 2); MovedBlock(mem, n, 1, 3);
    MovedBlock(m1, n, 2, 0); MovedBlock(m1, n, 2, 2); MovedBlock(m1, n, 2, 3);
    MovedBlock(m2, n, 3, 0); MovedBlock(m2, n, 3, 3);
    BurstStep(cfg, mem, n, 0);
    BurstStep(cfg, m1, n, 1);
    BurstStep(cfg, m2, n, 2);
    BurstStep(cfg, m3, n, 3);
    BurstEnds(cfg, MoveFrom(m3, n, 4), n);
  }

  lemma CutBlock(cfg: Config, mem: Memory, n: nat, k: nat)
    requires cfg.Valid() && LENGTH_HEADLEN <= n && 4 * n <= cfg.cap <= |mem| && k < 4
    requires Word(cfg, Block(mem, n, k)) == n
    ensures Cut(cfg, mem[Start(n, k)..4 * n]).frames
         == [Block(mem, n, k)] + Cut(cfg, mem[Start(n, k + 1)..4 * n]).frames
  {
    hide Cut;
    var data := mem[Start(n, k)..4 * n];
    assert data[..n] == Block(mem, n, k) && data[n..] == mem[Start(n, k + 1)..4 * n];
    assert data[..LENGTH_HEADLEN] == Block(mem, n, k)[..LENGTH_HEADLEN];
    CutReady(cfg, data);
  }

  /** So such a burst comes out right exactly if its third and fourth frames are the same bytes. */
  lemma BurstExactly(cfg: Config, n: nat, mem: Memory)
    requires cfg.Valid() && LENGTH_HEADLEN <= n && 4 * n <= cfg.cap <= |mem|
    requires forall k :: 0 <= k < 4 ==> Word(cfg, Block(mem, n, k)) == n
    ensures LengthLoop(cfg, true, mem, 0, 4 * n).frames == Cut(cfg, mem[..4 * n]).frames
       <==> Block(mem, n, 2) == Block(mem, n, 3)
  {
    hide LengthLoop, Cut, Block;
    BurstOfFour(cfg, n, mem);
    CutBlock(cfg, mem, n, 0);
    CutBlock(cfg, mem, n, 1);
    CutBlock(cfg, mem, n, 2);
    CutBlock(cfg, mem, n, 3);
    CutIdle(cfg, mem[4 * n..4 * n]);
    assert mem[0..4 * n] == mem[..4 * n];
    var cut := Cut(cfg, mem[..4 * n]).frames;
    assert cut == [Block(mem, n, 0), Block(mem, n, 1), Block(mem, n, 2), Block(mem, n, 3)];
    assert cut[2] == Block(mem, n, 2);
  }

  lemma BurstEnds(cfg: Config, mem: Memory, n: nat)
    requires cfg.Valid() && 4 * n <= cfg.cap <= |mem|
    ensures DeliverFrom(cfg, mem, n, 4) == []
  {
  }

  // -------------------------------------------------------------- whole runs

  /** A connection's receives, from an empty parser, until a close. */
  function Session(cfg: Config, mem: Memory, chunks: seq<seq<byte>>): (r: LengthResult)
    requires cfg.Valid() && cfg.cap <= |mem|
    ensures |r.mem| == |mem| && 0 <= r.used <= cfg.cap
  {
    if chunks == [] then LengthResult([], Waiting, mem, 0)
    else
      var before := Session(cfg, mem, chunks[..|chunks| - 1]);
      if before.status != Waiting then before
      else
        var r := LengthReceive(cfg, true, before.mem, before.used, chunks[|chunks| - 1]);
        r.(frames := before.frames + r.frames)
  }

  /** Every receive is non-empty, fits behind what the stream so far leaves over, and is clear. */
  ghost predicate ClearRun(cfg: Config, chunks: seq<seq<byte>>) {
    chunks != [] ==>
      var front, last := chunks[..|chunks| - 1], chunks[|chunks| - 1];
      var c := Cut(cfg, Concat(front));
      && ClearRun(cfg, front) && c.status == Waiting && last != []
      && |c.rest| + |last| <= cfg.cap && Clear(cfg, c.rest + last)
  }

  lemma NothingWaits(cfg: Config)
    ensures Cut(cfg, []).status == Waiting
  {
  }

  lemma ReceiveMatches(cfg: Config, mem: Memory, used: nat, chunk: seq<byte>)
    requires cfg.Valid() && used + |chunk| <= cfg.cap <= |mem| && chunk != [] && Clear(cfg, mem[..used] + chunk)
    ensures Matches(LengthReceive(cfg, true, mem, used, chunk), Cut(cfg, mem[..used] + chunk))
  {
    hide LengthLoop, Cut, Matches, Received, Clear;
    ClearMatches(cfg, mem[..used] + chunk, Received(mem, used, chunk));
  }

  /** What a clear run delivers depends only on the concatenated input. */
  lemma {:induction false} SessionMatches(cfg: Config, mem: Memory, chunks: seq<seq<byte>>)
    requires cfg.Valid() && cfg.cap <= |mem| && ClearRun(cfg, chunks)
    ensures Matches(Session(cfg, mem, chunks), Cut(cfg, Concat(chunks)))
  {
    hide LengthReceive, Cut, Clear;
    if chunks == [] {
      CutIdle(cfg, []);
      assert Cut(cfg, []).status == Waiting by { NothingWaits(cfg); }
    } else {
      var front, last := chunks[..|chunks| - 1], chunks[|chunks| - 1];
      SessionMatches(cfg, mem, front);
      CutAppend(cfg, Concat(front), last);
      var before := Session(cfg, mem, front);
      ReceiveMatches(cfg, before.mem, before.used, last);
    }
  }

  /** Nothing is lost, duplicated or reordered, and the chunking does not matter. */
  lemma ClearRunsConserve(cfg: Config, mem: Memory, chunks: seq<seq<byte>>, mem': Memory, chunks': seq<seq<byte>>)
    requires cfg.Valid() && cfg.cap <= |mem| && cfg.cap <= |mem'|
    requires ClearRun(cfg, chunks) && ClearRun(cfg, chunks') && Concat(chunks) == Concat(chunks')
    ensures var r, r' := Session(cfg, mem, chunks), Session(cfg, mem', chunks');
      && Concat(r.frames) + r.mem[..r.used] == Concat(chunks)
      && r.frames == r'.frames && r.status == r'.status
      && r.mem[..r.used] == r'.mem[..r'.used]
  {
    SessionMatches(cfg, mem, chunks);
    SessionMatches(cfg, mem', chunks');
    CutConserves(cfg, Concat(chunks));
  }

  /** A receive that does not fit ends the connection: close is called, and what is delivered and
      buffered stays as it was. */
  lemma RefusedReceive(cfg: Config, mem: Memory, chunks: seq<seq<byte>>, last: seq<byte>)
    requires cfg.Valid() && cfg.cap <= |mem| && ClearRun(cfg, chunks)
    requires var c := Cut(cfg, Concat(chunks));
      c.status == Waiting && (last == [] || |c.rest| + |last| > cfg.cap)
    ensures var c, r := Cut(cfg, Concat(chunks)), Session(cfg, mem, chunks + [last]);
      && r.status == Closed && r.frames == c.frames && r.used == |c.rest| && r.mem[..r.used] == c.rest
  {
    hide Cut, LengthReceive;
    SessionMatches(cfg, mem, chunks);
    assert (chunks + [last])[..|chunks|] == chunks;
    var before := Session(cfg, mem, chunks);
    LengthReceiveIs(cfg, true, before.mem, before.used, last);
    assert before.frames + [] == before.frames;
  }
}

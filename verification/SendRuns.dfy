/** The send path over whole runs: any interleaving of callers, loop thread and close. */
module SendRuns {
  import opened Bytes
  import opened Ring
  import opened RequestPool
  import opened SendPipeline

  ghost predicate Legal(s: State, steps: seq<Step>)
    decreases |steps|
  {
    Typed(s) && (steps != [] ==> Enabled(s, steps[0]) && Legal(Next(s, steps[0]), steps[1..]))
  }

  ghost function Exec(s: State, steps: seq<Step>): State
    requires Legal(s, steps)
    decreases |steps|
  {
    if steps == [] then s else Exec(Next(s, steps[0]), steps[1..])
  }

  /** A state some run from an empty client leads to. */
  ghost predicate Reachable(cap: nat, s: State) {
    0 < cap <= INT32_MAX && exists steps :: Legal(Initial(cap), steps) && Exec(Initial(cap), steps) == s
  }

  lemma {:induction false} ExecKeeps(s: State, steps: seq<Step>)
    requires Inv(s) && Legal(s, steps)
    ensures Inv(Exec(s, steps)) && Exec(s, steps).queue.cap == s.queue.cap
    decreases |steps|
  {
    hide Inv, Next;
    if steps != [] {
      StepKeeps(s, steps[0]);
      CapKept(s, steps[0]);
      ExecKeeps(Next(s, steps[0]), steps[1..]);
    }
  }

  lemma CapKept(s: State, step: Step)
    requires Typed(s) && Enabled(s, step)
    ensures Next(s, step).queue.cap == s.queue.cap
  {
  }

  lemma {:induction false} LegalThen(s: State, first: seq<Step>, rest: seq<Step>)
    requires Legal(s, first) && Legal(Exec(s, first), rest)
    ensures Legal(s, first + rest) && Exec(s, first + rest) == Exec(Exec(s, first), rest)
    decreases |first|
  {
    hide Next, Typed;
    if first == [] {
      assert first + rest == rest;
    } else {
      assert (first + rest)[1..] == first[1..] + rest;
      LegalThen(Next(s, first[0]), first[1..], rest);
    }
  }

  lemma OneStep(s: State, step: Step)
    requires Typed(s) && Enabled(s, step) && Typed(Next(s, step))
    ensures Legal(s, [step]) && Exec(s, [step]) == Next(s, step)
  {
    hide Next, Typed;
    assert [step][1..] == [];
  }

  lemma InitialReachable(cap: nat)
    requires 0 < cap <= INT32_MAX
    ensures Reachable(cap, Initial(cap))
  {
    assert Legal(Initial(cap), []) && Exec(Initial(cap), []) == Initial(cap);
  }

  lemma ReachableRun(cap: nat, s: State, steps: seq<Step>)
    requires Reachable(cap, s) && Legal(s, steps)
    ensures Reachable(cap, Exec(s, steps))
  {
    var run :| Legal(Initial(cap), run) && Exec(Initial(cap), run) == s;
    LegalThen(Initial(cap), run, steps);
  }

  lemma ReachableStep(cap: nat, s: State, step: Step)
    requires Reachable(cap, s) && Enabled(s, step) && Typed(s)
    ensures Inv(Next(s, step)) && Reachable(cap, Next(s, step)) && Next(s, step).queue.cap == cap
  {
    hide Reachable, Inv, Next;
    ReachableInv(cap, s);
    StepKeeps(s, step);
    InvTyped(Next(s, step));
    CapKept(s, step);
    OneStep(s, step);
    ReachableRun(cap, s, [step]);
  }

  lemma InvTyped(s: State)
    requires Inv(s)
    ensures Typed(s) && (s.pending.Some? ==> s.draining)
  {
  }

  lemma ReachableInv(cap: nat, s: State)
    requires Reachable(cap, s)
    ensures Inv(s) && s.queue.cap == cap
  {
    hide Inv;
    var steps :| Legal(Initial(cap), steps) && Exec(Initial(cap), steps) == s;
    InitialInv(cap);
    ExecKeeps(Initial(cap), steps);
  }

  /** Conservation, in every reachable state: what the loop thread has read, plus what the ring
      holds, is what the ring accepted, in order; and what it accepted from each caller is a prefix
      of that caller's data. Nothing is lost before uv_write, duplicated, or reordered. */
  lemma Conservation(cap: nat, s: State)
    requires Reachable(cap, s)
    ensures Concat(s.drained) + s.queue.bytes == Stream(s.accepted)
    ensures forall id <- s.senders ::
      s.senders[id].iret <= |s.senders[id].data|
      && From(s.accepted, id) == s.senders[id].data[..s.senders[id].iret]
    ensures |s.queue.bytes| <= cap
  {
    ReachableInv(cap, s);
    forall id <- s.senders
      ensures s.senders[id].iret <= |s.senders[id].data|
              && From(s.accepted, id) == s.senders[id].data[..s.senders[id].iret]
    {
      assert SenderOk(s, id);
    }
  }

  /** Every request is in exactly one place, the free list stays short, and what is handed to
      uv_write fits the request's buffer. */
  lemma RequestsAccounted(cap: nat, s: State)
    requires Reachable(cap, s)
    ensures Accounted(s.pool, if s.pending.Some? then {s.pending.value.0} else {})
    ensures |s.pool.free| <= 21
    ensures s.pending.Some? ==> 0 < |s.pending.value.1| <= cap
  {
    ReachableInv(cap, s);
    if s.pending.Some? {
      assert s.drained[|s.drained| - 1] in s.drained;
    }
  }

  // ------------------------------------------------------------------ refused writes

  /** The chunks that uv_write accepted. A chunk it refused has left the ring and is lost. */
  function OnTheWire(drained: seq<seq<byte>>, fates: seq<bool>): seq<byte>
    requires |fates| <= |drained|
    decreases |fates|
  {
    if fates == [] then []
    else
      var k := |fates| - 1;
      OnTheWire(drained, fates[..k]) + if fates[k] then drained[k] else []
  }

  lemma {:induction false} RefusalsShorten(drained: seq<seq<byte>>, fates: seq<bool>)
    requires |fates| <= |drained| && forall chunk <- drained :: chunk != []
    ensures var all, wire := Concat(drained[..|fates|]), OnTheWire(drained, fates);
      && |wire| <= |all| && ((forall ok <- fates :: ok) ==> wire == all)
      && ((exists ok <- fates :: !ok) ==> |wire| < |all|)
    decreases |fates|
  {
    if fates != [] {
      var k := |fates| - 1;
      RefusalsShorten(drained, fates[..k]);
      assert drained[..k + 1][..k] == drained[..k] && drained[k] in drained;
      assert fates[k] in fates && forall ok <- fates[..k] :: ok in fates;
      assert fates == fates[..k] + [fates[k]];
      if forall ok <- fates :: ok {
        assert fates[k] && forall ok <- fates[..k] :: ok;
      }
    }
  }

  lemma RefusedChunks(cap: nat, s: State)
    requires Reachable(cap, s) && s.queue.bytes == [] && s.pending == None
    ensures |s.fates| == |s.drained|
    ensures OnTheWire(s.drained, s.fates) == Stream(s.accepted) <==> forall ok <- s.fates :: ok
    ensures |OnTheWire(s.drained, s.fates)| <= |Stream(s.accepted)|
  {
    ReachableInv(cap, s);
    hide OnTheWire, Stream, Concat, Reachable;
    assert Concat(s.drained) + [] == Concat(s.drained);
    assert forall chunk <- s.drained :: chunk != [];
    RefusalsShorten(s.drained, s.fates);
    assert s.drained[..|s.fates|] == s.drained;
  }

  /** uv_write's answers in a run, in order. */
  function Answers(steps: seq<Step>): seq<bool> {
    if steps == [] then []
    else (if steps[0].Submit? then [steps[0].ok] else []) + Answers(steps[1..])
  }

  /** The bytes of a run that uv_write was given and accepted. */
  ghost function SentBytes(s: State, steps: seq<Step>): seq<byte>
    requires Legal(s, steps)
    decreases |steps|
  {
    if steps == [] then []
    else (if steps[0] == Submit(true) then s.pending.value.1 else []) + SentBytes(Next(s, steps[0]), steps[1..])
  }

  /** What the loop thread read from the ring in a run: all that was there, at each of its reads. */
  ghost function Chunks(s: State, steps: seq<Step>): seq<seq<byte>>
    requires Legal(s, steps)
    decreases |steps|
  {
    if steps == [] then []
    else (if steps[0] == DrainRead then [s.queue.bytes] else []) + Chunks(Next(s, steps[0]), steps[1..])
  }

  lemma {:induction false} FatesAreAnswers(s: State, steps: seq<Step>)
    requires Legal(s, steps)
    ensures Exec(s, steps).fates == s.fates + Answers(steps)
    decreases |steps|
  {
    hide Next;
    if steps == [] {
      assert s.fates + [] == s.fates;
    } else {
      StepFates(s, steps[0]);
      FatesAreAnswers(Next(s, steps[0]), steps[1..]);
      var first := if steps[0].Submit? then [steps[0].ok] else [];
      assert s.fates + first + Answers(steps[1..]) == s.fates + (first + Answers(steps[1..]));
    }
  }

  lemma StepFates(s: State, step: Step)
    requires Typed(s) && Enabled(s, step)
    ensures Next(s, step).fates == s.fates + if step.Submit? then [step.ok] else []
  {
  }

  lemma {:induction false} DrainedAreChunks(s: State, steps: seq<Step>)
    requires Legal(s, steps)
    ensures Exec(s, steps).drained == s.drained + Chunks(s, steps)
    decreases |steps|
  {
    hide Next;
    if steps == [] {
      assert s.drained + [] == s.drained;
    } else {
      StepDrained(s, steps[0]);
      DrainedAreChunks(Next(s, steps[0]), steps[1..]);
      var first := if steps[0] == DrainRead then [s.queue.bytes] else [];
      var rest := Chunks(Next(s, steps[0]), steps[1..]);
      assert s.drained + first + rest == s.drained + (first + rest);
    }
  }

  lemma StepDrained(s: State, step: Step)
    requires Typed(s) && Enabled(s, step)
    ensures Next(s, step).drained == s.drained + if step == DrainRead then [s.queue.bytes] else []
  {
    if step == DrainRead {
      DrainEmpties(s);
    }
  }

  lemma {:induction false} WireIs(s: State, steps: seq<Step>)
    requires Inv(s) && Legal(s, steps) && |s.fates| <= |s.drained|
    ensures var t := Exec(s, steps);
      |t.fates| <= |t.drained| && OnTheWire(t.drained, t.fates) == OnTheWire(s.drained, s.fates) + SentBytes(s, steps)
    decreases |steps|
  {
    hide Inv, Next, OnTheWire;
    if steps == [] {
      assert OnTheWire(s.drained, s.fates) + [] == OnTheWire(s.drained, s.fates);
    } else {
      StepWire(s, steps[0]);
      StepKeeps(s, steps[0]);
      WireIs(Next(s, steps[0]), steps[1..]);
      var first := if steps[0] == Submit(true) then s.pending.value.1 else [];
      var rest := SentBytes(Next(s, steps[0]), steps[1..]);
      assert OnTheWire(s.drained, s.fates) + first + rest == OnTheWire(s.drained, s.fates) + (first + rest);
    }
  }

  lemma StepWire(s: State, step: Step)
    requires Inv(s) && Enabled(s, step) && |s.fates| <= |s.drained|
    ensures var t := Next(s, step);
      && |t.fates| <= |t.drained|
      && OnTheWire(t.drained, t.fates)
         == OnTheWire(s.drained, s.fates) + if step == Submit(true) then s.pending.value.1 else []
  {
    hide SenderOk, Accounted, Stream, Concat;
    var t := Next(s, step);
    StepFates(s, step);
    StepDrained(s, step);
    if step.Submit? {
      assert t.fates[..|t.fates| - 1] == s.fates;
    } else {
      WireOfMore(s.drained, t.drained, s.fates);
    }
  }

  lemma {:induction false} WireOfMore(drained: seq<seq<byte>>, more: seq<seq<byte>>, fates: seq<bool>)
    requires |fates| <= |drained| <= |more| && drained <= more
    ensures OnTheWire(more, fates) == OnTheWire(drained, fates)
    decreases |fates|
  {
    if fates != [] {
      WireOfMore(drained, more, fates[..|fates| - 1]);
    }
  }

  /** What refused uv_writes cost, over every run: each takes with it the chunk that was read for it,
      so with the ring empty the wire has got everything the ring accepted if and only if uv_write
      said yes every time. */
  lemma RefusedWrites(cap: nat, steps: seq<Step>)
    requires 0 < cap <= INT32_MAX && Legal(Initial(cap), steps)
    requires var s := Exec(Initial(cap), steps); s.queue.bytes == [] && s.pending == None
    ensures var s, chunks := Exec(Initial(cap), steps), Chunks(Initial(cap), steps);
      var wire := SentBytes(Initial(cap), steps);
      && |Answers(steps)| == |chunks| && Concat(chunks) == Stream(s.accepted)
      && wire == OnTheWire(chunks, Answers(steps)) && |wire| <= |Stream(s.accepted)|
      && (wire == Stream(s.accepted) <==> forall ok <- Answers(steps) :: ok)
  {
    hide OnTheWire, Stream, Concat, Reachable, Legal, Exec, Chunks, SentBytes, Answers;
    HistoryOfRun(cap, steps);
    var s := Exec(Initial(cap), steps);
    RefusedChunks(cap, s);
    Conservation(cap, s);
    assert Concat(s.drained) + [] == Concat(s.drained);
  }

  /** The history a run from an empty client leaves, read off its steps. */
  lemma HistoryOfRun(cap: nat, steps: seq<Step>)
    requires 0 < cap <= INT32_MAX && Legal(Initial(cap), steps)
    ensures var s0, s := Initial(cap), Exec(Initial(cap), steps);
      && Reachable(cap, s) && s.fates == Answers(steps) && s.drained == Chunks(s0, steps)
      && |s.fates| <= |s.drained| && OnTheWire(s.drained, s.fates) == SentBytes(s0, steps)
  {
    hide Reachable, Legal, Exec, Chunks, SentBytes, Answers, Inv;
    var s0 := Initial(cap);
    InitialReachable(cap);
    InitialInv(cap);
    ReachableRun(cap, s0, steps);
    FatesAreAnswers(s0, steps);
    DrainedAreChunks(s0, steps);
    WireIs(s0, steps);
    NothingSent();
    assert [] + Answers(steps) == Answers(steps) && [] + Chunks(s0, steps) == Chunks(s0, steps);
    assert [] + SentBytes(s0, steps) == SentBytes(s0, steps);
  }

  lemma NothingSent()
    ensures OnTheWire([], []) == []
  {
  }

  // ---------------------------------------------------------------------- atomicity

  lemma {:induction false} StreamAppend(a: seq<Piece>, b: seq<Piece>)
    ensures Stream(a + b) == Stream(a) + Stream(b)
  {
    if b == [] {
      assert a + b == a;
    } else {
      var front, last := b[..|b| - 1], b[|b| - 1];
      assert a + b == (a + front) + [last];
      HistorySnoc(a + front, last, 0);
      StreamAppend(a, front);
      assert Stream(b) == Stream(front) + last.bytes;
      assert Stream(a) + Stream(front) + last.bytes == Stream(a) + (Stream(front) + last.bytes);
    }
  }

  /** A caller with exactly one accepted piece has it at exactly one place. */
  lemma {:induction false} OnlyPiece(a: seq<Piece>, id: nat) returns (j: nat)
    requires PieceCount(a, id) == 1
    ensures j < |a| && a[j] == Piece(id, From(a, id))
    ensures forall i :: 0 <= i < |a| && i != j ==> a[i].id != id
  {
    var front, last := a[..|a| - 1], a[|a| - 1];
    if last.id == id {
      NoneLeft(front, id);
      j := |a| - 1;
    } else {
      j := OnlyPiece(front, id);
    }
  }

  lemma {:induction false} NoneLeft(a: seq<Piece>, id: nat)
    requires PieceCount(a, id) == 0
    ensures From(a, id) == [] && forall i :: 0 <= i < |a| ==> a[i].id != id
  {
    if a != [] {
      NoneLeft(a[..|a| - 1], id);
    }
  }

  lemma ShortMessageCount(cap: nat, c: Sender, k: nat)
    requires Progress(cap, c, k) && 0 < |c.data| <= cap <= INT32_MAX
    ensures (k == 0 && c.iret == 0) || (k == 1 && c.iret == |c.data|)
  {
    Multiples(cap, k);
  }

  lemma Multiples(cap: nat, k: nat)
    ensures k >= 2 ==> (k - 1) * cap >= cap
    ensures k == 0 ==> k * cap == 0
    ensures k == 1 ==> k * cap == cap
  {
    if k >= 2 {
      assert (k - 1) * cap == cap + (k - 2) * cap;
    }
  }

  /** A message no longer than the ring is taken not at all or as one piece, so it occupies one
      contiguous run of the stream however the callers interleave. */
  lemma MessageAtomicity(cap: nat, s: State, id: nat)
    requires Reachable(cap, s) && id in s.senders && 0 < |s.senders[id].data| <= cap
    ensures var c := s.senders[id];
      || (c.iret == 0 && forall p <- s.accepted :: p.id != id)
      || (c.iret == |c.data| && exists before: seq<Piece>, after: seq<Piece> ::
            && s.accepted == before + [Piece(id, c.data)] + after
            && (forall p <- before + after :: p.id != id)
            && Concat(s.drained) + s.queue.bytes == Stream(before) + c.data + Stream(after))
  {
    ReachableInv(cap, s);
    assert SenderOk(s, id);
    hide Inv, Reachable, From, PieceCount;
    var c, k := s.senders[id], PieceCount(s.accepted, id);
    ShortMessageCount(cap, c, k);
    hide SenderOk, Progress;
    if k == 0 {
      NoneLeft(s.accepted, id);
    } else {
      assert c.data[..c.iret] == c.data;
      Conservation(cap, s);
      WholePiece(s.accepted, id, c.data);
    }
  }

  lemma WholePiece(a: seq<Piece>, id: nat, data: seq<byte>)
    requires PieceCount(a, id) == 1 && From(a, id) == data
    ensures exists before: seq<Piece>, after: seq<Piece> ::
      && a == before + [Piece(id, data)] + after
      && (forall p <- before + after :: p.id != id)
      && Stream(a) == Stream(before) + data + Stream(after)
  {
    var j := OnlyPiece(a, id);
    hide PieceCount, From, Stream;
    SplitAt(a, j, id);
    var before, after := a[..j], a[j + 1..];
    assert a == before + [Piece(id, data)] + after;
  }

  lemma SplitAt(a: seq<Piece>, j: nat, id: nat)
    requires j < |a| && forall i :: 0 <= i < |a| && i != j ==> a[i].id != id
    ensures a == a[..j] + [a[j]] + a[j + 1..]
    ensures forall p <- a[..j] + a[j + 1..] :: p.id != id
    ensures Stream(a) == Stream(a[..j]) + a[j].bytes + Stream(a[j + 1..])
  {
    hide Stream;
    Others(a, j, id);
    SplitStream(a, j);
  }

  lemma SplitStream(a: seq<Piece>, j: nat)
    requires j < |a|
    ensures a == a[..j] + [a[j]] + a[j + 1..]
    ensures Stream(a) == Stream(a[..j]) + a[j].bytes + Stream(a[j + 1..])
  {
    hide Stream;
    StreamParts(a[..j], a[j], a[j + 1..]);
    Parts(a, j);
  }

  lemma Parts(a: seq<Piece>, j: nat)
    requires j < |a|
    ensures a == a[..j] + [a[j]] + a[j + 1..]
  {
  }

  lemma StreamParts(before: seq<Piece>, p: Piece, after: seq<Piece>)
    ensures Stream(before + [p] + after) == Stream(before) + p.bytes + Stream(after)
  {
    hide Stream;
    StreamAppend(before + [p], after);
    HistorySnoc(before, p, 0);
  }

  lemma Others(a: seq<Piece>, j: nat, id: nat)
    requires j < |a| && forall i :: 0 <= i < |a| && i != j ==> a[i].id != id
    ensures forall p <- a[..j] + a[j + 1..] :: p.id != id
  {
    var others := a[..j] + a[j + 1..];
    forall i | 0 <= i < |others|
      ensures others[i].id != id
    {
      assert others[i] == if i < j then a[i] else a[i + 1];
    }
  }

  /** After k accepted writes a Send has got min(k * cap, reach) bytes in, where reach is its length
      as an int; so one that got everything accepted was split into exactly ceil(len / cap) pieces. */
  lemma PieceLaw(cap: nat, s: State, id: nat)
    requires Reachable(cap, s) && id in s.senders
    ensures var c, k := s.senders[id], PieceCount(s.accepted, id);
      && c.iret == Min(k * cap, Reach(|c.data|))
      && (c.iret == |c.data| > 0 ==> (k - 1) * cap < |c.data| <= k * cap)
  {
    ReachableInv(cap, s);
    hide Reach;
    assert SenderOk(s, id);
  }

  /** What Send's return value says once it has returned: for a message no longer than the ring,
      exactly that all of it was accepted; for a longer one, only that something was. */
  lemma ReturnValue(cap: nat, s: State, id: nat)
    requires Reachable(cap, s) && id in s.senders && s.senders[id].pc == Returned
    ensures var c := s.senders[id];
      && (c.iret < |c.data| ==> s.closing)
      && (0 < |c.data| <= cap ==> (c.iret > 0 <==> From(s.accepted, id) == c.data))
  {
    ReachableInv(cap, s);
    assert SenderOk(s, id);
    var c := s.senders[id];
    if 0 < |c.data| <= cap {
      ShortMessageCount(cap, c, PieceCount(s.accepted, id));
      assert c.data[..c.iret] == c.data <==> c.iret == |c.data|;
    }
  }

  lemma InvSender(s: State, id: nat)
    requires Inv(s) && id in s.senders
    ensures SenderOk(s, id) && s.queue.Valid()
  {
  }

  /** A Send longer than an int can say gets no further than its length modulo 2^32, and nowhere if
      that is no positive int. It never completes: only a close ends it. */
  lemma NarrowedLength(cap: nat, s: State, id: nat)
    requires Reachable(cap, s) && id in s.senders && |s.senders[id].data| > INT32_MAX
    ensures var c, low := s.senders[id], |s.senders[id].data| % 0x1_0000_0000;
      && c.iret <= (if low <= INT32_MAX then low else 0) < |c.data|
      && (c.pc in {Signalling, Returned} ==> s.closing)
  {
    hide Inv;
    ReachableInv(cap, s);
    InvSender(s, id);
    ProgressWithin(cap, s.senders[id], PieceCount(s.accepted, id));
  }

  /** The input 2^32 + 5: five bytes get in, and what is left narrows to 0. */
  lemma FourGiBAndFive(cap: nat, s: State, id: nat)
    requires Reachable(cap, s) && id in s.senders && |s.senders[id].data| == 0x1_0000_0005
    ensures s.senders[id].iret <= 5
    ensures s.senders[id].iret == 5 ==> Taken(s, s.senders[id]) == 0
    ensures s.senders[id].iret == 0 && s.queue.bytes == [] ==> Taken(s, s.senders[id]) == Min(cap, 5)
  {
    hide Inv;
    NarrowedLength(cap, s, id);
    ReachableInv(cap, s);
    InvSender(s, id);
  }

  // ------------------------------------------------------------------------- wake-ups

  /** While bytes are in the ring, the loop thread is at them, or has a signal to serve, or some Send
      is still in progress, which ends with a signal. */
  ghost predicate Awake(s: State) {
    s.queue.bytes != [] ==>
      s.draining || s.signalled || s.closing || exists id <- s.senders :: s.senders[id].pc != Returned
  }

  lemma SomeActive(s: State, id: nat)
    requires id in s.senders && s.senders[id].pc != Returned
    ensures exists i <- s.senders :: s.senders[i].pc != Returned
  {
  }

  lemma AwakeStep(s: State, step: Step)
    requires Typed(s) && Enabled(s, step) && Awake(s)
    ensures Awake(Next(s, step))
  {
    var t := Next(s, step);
    match step
    case Check(id) => SomeActive(t, id);
    case Write(id) => SomeActive(t, id);
    case Start(_, _) =>
      if i :| i in s.senders && s.senders[i].pc != Returned {
        SomeActive(t, i);
      }
    case _ =>
  }

  lemma {:induction false} AwakeRun(s: State, steps: seq<Step>)
    requires Legal(s, steps) && Awake(s)
    ensures Awake(Exec(s, steps))
    decreases |steps|
  {
    hide Awake, Next;
    if steps != [] {
      AwakeStep(s, steps[0]);
      AwakeRun(Next(s, steps[0]), steps[1..]);
    }
  }

  /** No wake-up is lost: once every Send has returned, bytes left in the ring are being drained or a
      signal for them is outstanding, unless the client is closing. */
  lemma NoLostWakeUp(cap: nat, s: State)
    requires Reachable(cap, s) && s.queue.bytes != [] && !s.closing
    requires forall id <- s.senders :: s.senders[id].pc == Returned
    ensures s.draining || s.signalled
  {
    hide Legal, Exec;
    var steps :| Legal(Initial(cap), steps) && Exec(Initial(cap), steps) == s;
    AwakeRun(Initial(cap), steps);
  }

  /** A close can strand bytes: AsyncCB serves the signal of a Send that has returned true by closing
      the handles, and its whole message stays in the ring. */
  lemma StrandedByClose(cap: nat, id: nat, data: seq<byte>)
    requires 0 < |data| <= cap <= INT32_MAX
    ensures exists s ::
      && Reachable(cap, s) && s.senders == map[id := Sender(data, |data|, Returned)] && s.queue.bytes == data
      && s.closing && !s.draining && !s.signalled
  {
    hide Inv, Reachable;
    InitialReachable(cap);
    var s0 := Initial(cap);
    ReachableStep(cap, s0, Start(id, data));
    var s1 := Next(s0, Start(id, data));
    ReachableStep(cap, s1, Check(id));
    var s2 := Next(s1, Check(id));
    ReachableStep(cap, s2, Write(id));
    assert Taken(s2, s2.senders[id]) == |data|;
    assert [] + data[0..|data|] == data;
    var s3 := Next(s2, Write(id));
    ReachableStep(cap, s3, Finish(id));
    var s4 := Next(s3, Finish(id));
    ReachableStep(cap, s4, Close);
    var s5 := Next(s4, Close);
    ReachableStep(cap, s5, AsyncCB);
    var s6 := Next(s5, AsyncCB);
    assert s6.senders == map[id := Sender(data, |data|, Returned)];
  }

  // -------------------------------------------------------------------- the loop thread

  /** What the loop thread is about: whether a close was asked for, whether it is signalled, and
      whether it is in send_inl. */
  datatype Loop = Loop(closing: bool, signalled: bool, draining: bool)

  /** A run as the loop thread sees it: Send signals unless it is empty, and again at its end, and
      Close signals; AsyncCB takes the signal, and drains unless a close was asked for; a receive and
      a completion without an error drain. */
  function Seen(l: Loop, steps: seq<Step>): Loop
    decreases |steps|
  {
    if steps == [] then l
    else
      var m := match steps[0]
        case Start(_, data) => l.(signalled := l.signalled || data != [])
        case Finish(_) => l.(signalled := true)
        case Close => Loop(true, true, l.draining)
        case AsyncCB => Loop(l.closing, false, !l.closing)
        case Receive => l.(draining := true)
        case AfterSend(_, ok) => l.(draining := ok)
        case DrainEnd => l.(draining := false)
        case _ => l;
      Seen(m, steps[1..])
  }

  lemma {:induction false} LoopLaw(s: State, steps: seq<Step>)
    requires Legal(s, steps)
    ensures var t := Exec(s, steps);
      Loop(t.closing, t.signalled, t.draining) == Seen(Loop(s.closing, s.signalled, s.draining), steps)
    decreases |steps|
  {
    if steps != [] {
      LoopLaw(Next(s, steps[0]), steps[1..]);
    }
  }

  /** A close is not lost: after it, either its signal is outstanding or AsyncCB has run and found the
      client closing. */
  lemma {:induction false} CloseIsSeen(s: State, steps: seq<Step>)
    requires Legal(s, steps) && s.closing && s.signalled
    ensures Exec(s, steps).closing && (Exec(s, steps).signalled || AsyncCB in steps)
    decreases |steps|
  {
    if steps != [] && steps[0] != AsyncCB {
      CloseIsSeen(Next(s, steps[0]), steps[1..]);
    } else if steps != [] {
      ClosingStays(Next(s, steps[0]), steps[1..]);
    }
  }

  lemma {:induction false} ClosingStays(s: State, steps: seq<Step>)
    requires Legal(s, steps) && s.closing
    ensures Exec(s, steps).closing
    decreases |steps|
  {
    if steps != [] {
      ClosingStays(Next(s, steps[0]), steps[1..]);
    }
  }
}

/** The client's send path: any number of Send calls, one loop thread, one ring. Every step is what
    one thread does between two points where another may run. */
module SendPipeline {
  import opened Bytes
  import opened Ring
  import opened RequestPool

  /** Where a Send call is: about to test the closing flag, about to lock and write, out of its loop
      and about to signal the loop thread again, or returned. */
  datatype Pc = Checking | Writing | Signalling | Returned

  datatype Sender = Sender(data: seq<byte>, iret: nat, pc: Pc)

  datatype Piece = Piece(id: nat, bytes: seq<byte>)

  /** `signalled`: uv_async_send was called and AsyncCB has not run since. `draining`: the loop thread
      is inside send_inl. `accepted`, `drained` and `fates` are the history: pieces taken by the ring,
      chunks read from it by the loop thread, and for each of these whether uv_write accepted it. */
  datatype State = State(
    queue: Queue, closing: bool, senders: map<nat, Sender>, signalled: bool, draining: bool,
    pending: Option<(nat, seq<byte>)>, pool: Pool,
    accepted: seq<Piece>, drained: seq<seq<byte>>, fates: seq<bool>)

  /** Receive is AfterRecv without an error; AfterSend has a status that is `ok` or negative. */
  datatype Step =
    | Start(id: nat, data: seq<byte>)
    | Check(id: nat)
    | Write(id: nat)
    | Finish(id: nat)
    | Close
    | AsyncCB
    | Receive
    | AfterSend(req: nat, ok: bool)
    | DrainRead
    | Submit(ok: bool)
    | DrainEnd

  function Initial(cap: nat): State {
    State(Queue(cap, 0, []), false, map[], false, false, None, EMPTY_POOL, [], [], [])
  }

  predicate At(s: State, id: nat, pc: Pc) {
    id in s.senders && s.senders[id].pc == pc
  }

  predicate Enabled(s: State, step: Step) {
    match step
    case Start(id, _) => id !in s.senders
    case Check(id) => At(s, id, Checking)
    case Write(id) => At(s, id, Writing)
    case Finish(id) => At(s, id, Signalling)
    case Close => true
    case AsyncCB => s.signalled && !s.draining
    case Receive => !s.draining
    case AfterSend(req, _) => !s.draining && req in s.pool.flying
    case DrainRead => s.draining && s.pending == None && s.queue.bytes != []
    case Submit(_) => s.pending.Some?
    case DrainEnd => s.draining && s.pending == None && s.queue.bytes == []
  }

  /** How many bytes the ring takes of what a Send call still has: the remaining length reaches the
      ring as a 32-bit int. */
  function Taken(s: State, c: Sender): (n: nat)
    requires c.iret <= |c.data|
    ensures n <= |c.data| - c.iret
  {
    s.queue.Accepts(NarrowToInt32(|c.data| - c.iret))
  }

  /** No caller has got further than its data. */
  ghost predicate Typed(s: State) {
    s.queue.Valid() && s.queue.cap <= INT32_MAX
    && forall id <- s.senders :: s.senders[id].iret <= |s.senders[id].data|
  }

  function Next(s: State, step: Step): State
    requires Enabled(s, step) && Typed(s)
  {
    match step
    case Start(id, data) =>
      s.(senders := s.senders[id := Sender(data, 0, if data == [] then Returned else Checking)],
         signalled := s.signalled || data != [])
    case Check(id) =>
      s.(senders := s.senders[id := s.senders[id].(pc := if s.closing then Signalling else Writing)])
    case Write(id) =>
      var c := s.senders[id];
      var n := Taken(s, c);
      var piece := c.data[c.iret..c.iret + n];
      s.(queue := s.queue.Put(piece),
         senders := s.senders[id :=
           c.(iret := c.iret + n, pc := if c.iret + n < |c.data| then Checking else Signalling)],
         accepted := if n == 0 then s.accepted else s.accepted + [Piece(id, piece)])
    case Finish(id) => s.(senders := s.senders[id := s.senders[id].(pc := Returned)], signalled := true)
    case Close => s.(closing := true, signalled := true)
    case AsyncCB => s.(signalled := false, draining := !s.closing)
    case Receive => s.(draining := true)
    case AfterSend(req, ok) => s.(pool := s.pool.Land(req), draining := ok)
    case DrainRead =>
      var n := Min(s.queue.cap, |s.queue.bytes|);
      var chunk := s.queue.bytes[..n];
      s.(queue := s.queue.Drop(n), pending := Some((s.pool.Head(), chunk)), pool := s.pool.Take(),
         drained := s.drained + [chunk])
    case Submit(ok) =>
      var req := s.pending.value.0;
      s.(pending := None, pool := if ok then s.pool.Launch(req) else s.pool.PutBack(req), fates := s.fates + [ok])
    case DrainEnd => s.(draining := false)
  }

  // ------------------------------------------------------------------- the invariant

  /** Everything the ring has taken, in order. */
  function Stream(accepted: seq<Piece>): seq<byte> {
    if accepted == [] then []
    else Stream(accepted[..|accepted| - 1]) + accepted[|accepted| - 1].bytes
  }

  /** What it has taken from one caller. */
  function From(accepted: seq<Piece>, id: nat): seq<byte> {
    if accepted == [] then []
    else
      var last := accepted[|accepted| - 1];
      From(accepted[..|accepted| - 1], id) + if last.id == id then last.bytes else []
  }

  function PieceCount(accepted: seq<Piece>, id: nat): nat {
    if accepted == [] then 0
    else PieceCount(accepted[..|accepted| - 1], id) + if accepted[|accepted| - 1].id == id then 1 else 0
  }

  /** How far a Send of `len` bytes can ever get: its length as a 32-bit int. */
  function Reach(len: nat): (r: nat)
    ensures r <= len && (r == len <==> len <= INT32_MAX)
  {
    if NarrowToInt32(len) <= 0 then 0 else NarrowToInt32(len)
  }

  /** A caller's progress after k accepted writes. */
  ghost predicate Progress(cap: nat, c: Sender, k: nat) {
    && c.iret == Min(k * cap, Reach(|c.data|))
    && (k > 0 ==> (k - 1) * cap < Reach(|c.data|))
  }

  ghost predicate SenderOk(s: State, id: nat)
    requires id in s.senders
  {
    var c := s.senders[id];
    && c.iret <= |c.data|
    && From(s.accepted, id) == c.data[..c.iret]
    && Progress(s.queue.cap, c, PieceCount(s.accepted, id))
    && (c.pc in {Signalling, Returned} ==> c.iret == |c.data| || s.closing)
    && (c.pc in {Checking, Writing} ==> c.iret < |c.data|)
  }

  ghost predicate Inv(s: State) {
    && Typed(s)
    && Concat(s.drained) + s.queue.bytes == Stream(s.accepted)
    && (forall id <- s.senders :: SenderOk(s, id))
    && (forall p <- s.accepted :: p.id in s.senders && p.bytes != [])
    && Accounted(s.pool, if s.pending.Some? then {s.pending.value.0} else {})
    && |s.fates| + (if s.pending.Some? then 1 else 0) == |s.drained|
    && (s.pending.Some? ==> s.draining && s.pending.value.1 == s.drained[|s.drained| - 1])
    && (forall chunk <- s.drained :: 0 < |chunk| <= s.queue.cap)
  }

  lemma InitialInv(cap: nat)
    requires 0 < cap <= INT32_MAX
    ensures Inv(Initial(cap))
  {
  }

  lemma HistorySnoc(a: seq<Piece>, p: Piece, id: nat)
    ensures Stream(a + [p]) == Stream(a) + p.bytes
    ensures From(a + [p], id) == From(a, id) + if p.id == id then p.bytes else []
    ensures PieceCount(a + [p], id) == PieceCount(a, id) + if p.id == id then 1 else 0
  {
    assert (a + [p])[..|a|] == a;
  }

  /** A caller nobody has heard of has nothing in the ring. */
  lemma {:induction false} NoPieces(a: seq<Piece>, id: nat)
    requires forall p <- a :: p.id != id
    ensures From(a, id) == [] && PieceCount(a, id) == 0
  {
    if a != [] {
      assert forall p <- a[..|a| - 1] :: p in a;
      NoPieces(a[..|a| - 1], id);
      assert a[|a| - 1] in a;
    }
  }

  lemma StartKeeps(s: State, id: nat, data: seq<byte>)
    requires Inv(s) && Enabled(s, Start(id, data))
    ensures Inv(Next(s, Start(id, data)))
  {
    NoPieces(s.accepted, id);
    var t := Next(s, Start(id, data));
    assert 0 * s.queue.cap == 0;
    forall i <- t.senders
      ensures SenderOk(t, i)
    {
      if i != id {
        assert SenderOk(s, i);
      }
    }
  }

  lemma CheckKeeps(s: State, id: nat)
    requires Inv(s) && Enabled(s, Check(id))
    ensures Inv(Next(s, Check(id)))
  {
    var t := Next(s, Check(id));
    forall i <- t.senders
      ensures SenderOk(t, i)
    {
      assert SenderOk(s, i);
    }
  }

  lemma FinishKeeps(s: State, id: nat)
    requires Inv(s) && Enabled(s, Finish(id))
    ensures Inv(Next(s, Finish(id)))
  {
    var t := Next(s, Finish(id));
    forall i <- t.senders
      ensures SenderOk(t, i)
    {
      assert SenderOk(s, i);
    }
  }

  /** What is left of a length that has not reached its limit narrows to what is left of the limit. */
  lemma NarrowRest(len: nat, iret: nat)
    requires iret <= Reach(len)
    ensures if Reach(len) == 0 then NarrowToInt32(len - iret) <= 0 else NarrowToInt32(len - iret) == Reach(len) - iret
  {
    var q, low := len / 0x1_0000_0000, len % 0x1_0000_0000;
    assert len - iret == q * 0x1_0000_0000 + (low - iret);
  }

  /** An accepted write takes a whole capacity, or all that can still get in. */
  lemma TakenAmount(s: State, c: Sender)
    requires s.queue.Valid() && s.queue.cap <= INT32_MAX && c.iret <= Reach(|c.data|)
    ensures Taken(s, c) in {0, Min(s.queue.cap, Reach(|c.data|) - c.iret)}
    ensures s.queue.bytes == [] ==> Taken(s, c) == Min(s.queue.cap, Reach(|c.data|) - c.iret)
    ensures |s.queue.bytes| + Taken(s, c) <= s.queue.cap
    ensures |s.queue.bytes| == s.queue.cap ==> Taken(s, c) == 0
  {
    hide Reach, NarrowToInt32;
    NarrowRest(|c.data|, c.iret);
  }

  lemma ProgressStep(cap: nat, c: Sender, k: nat, n: nat)
    requires cap > 0 && Progress(cap, c, k) && 0 < n == Min(cap, Reach(|c.data|) - c.iret)
    ensures Progress(cap, c.(iret := c.iret + n), k + 1)
  {
    hide Reach;
    assert (k + 1) * cap == k * cap + cap;
  }

  lemma ProgressWithin(cap: nat, c: Sender, k: nat)
    requires Progress(cap, c, k)
    ensures c.iret <= Reach(|c.data|)
  {
  }

  lemma OwnWrite(s: State, id: nat)
    requires Inv(s) && Enabled(s, Write(id)) && Taken(s, s.senders[id]) > 0
    ensures SenderOk(Next(s, Write(id)), id)
  {
    hide Taken, Progress, From, PieceCount, Accounted, Stream;
    var c := s.senders[id];
    assert SenderOk(s, id);
    hide Inv;
    var n, k := Taken(s, c), PieceCount(s.accepted, id);
    var piece := c.data[c.iret..c.iret + n];
    HistorySnoc(s.accepted, Piece(id, piece), id);
    assert c.data[..c.iret + n] == c.data[..c.iret] + piece;
    ProgressWithin(s.queue.cap, c, k);
    TakenAmount(s, c);
    ProgressStep(s.queue.cap, c, k, n);
    ProgressOf(s.queue.cap, c.(iret := c.iret + n), Next(s, Write(id)).senders[id], k + 1);
  }

  lemma ProgressOf(cap: nat, c: Sender, c': Sender, k: nat)
    requires c.iret == c'.iret && c.data == c'.data
    ensures Progress(cap, c, k) == Progress(cap, c', k)
  {
  }

  lemma OtherWrite(s: State, id: nat, i: nat)
    requires Inv(s) && Enabled(s, Write(id)) && i in s.senders
    requires i != id || Taken(s, s.senders[id]) == 0
    ensures SenderOk(Next(s, Write(id)), i)
  {
    hide Taken, Progress, From, PieceCount, Accounted, Stream;
    var c := s.senders[id];
    var n := Taken(s, c);
    assert SenderOk(s, i) && SenderOk(s, id);
    HistorySnoc(s.accepted, Piece(id, c.data[c.iret..c.iret + n]), i);
    ProgressOf(s.queue.cap, s.senders[i], Next(s, Write(id)).senders[i], PieceCount(s.accepted, i));
  }

  lemma WriteQueue(s: State, id: nat)
    requires Inv(s) && Enabled(s, Write(id))
    ensures var t := Next(s, Write(id));
      && t.queue.Valid() && t.queue.cap == s.queue.cap
      && Concat(t.drained) + t.queue.bytes == Stream(t.accepted)
      && (forall p <- t.accepted :: p.id in t.senders && p.bytes != [])
  {
    hide Progress, From, PieceCount, Accounted, Stream, SenderOk, Concat;
    var c := s.senders[id];
    var n := Taken(s, c);
    var piece := c.data[c.iret..c.iret + n];
    HistorySnoc(s.accepted, Piece(id, piece), id);
    assert Concat(s.drained) + (s.queue.bytes + piece) == Concat(s.drained) + s.queue.bytes + piece;
  }

  lemma WriteKeeps(s: State, id: nat)
    requires Inv(s) && Enabled(s, Write(id))
    ensures Inv(Next(s, Write(id)))
  {
    hide Taken, Progress, From, PieceCount, Accounted, Stream;
    WriteQueue(s, id);
    var t := Next(s, Write(id));
    forall i <- t.senders
      ensures SenderOk(t, i)
    {
      if i == id && Taken(s, s.senders[id]) > 0 {
        OwnWrite(s, id);
      } else {
        OtherWrite(s, id, i);
      }
    }
  }

  lemma CloseKeeps(s: State)
    requires Inv(s)
    ensures Inv(Next(s, Close))
  {
    var t := Next(s, Close);
    forall i <- t.senders
      ensures SenderOk(t, i)
    {
      assert SenderOk(s, i);
    }
  }

  /** No step of the loop thread touches a caller or what the ring has accepted. */
  lemma SendersKept(s: State, t: State)
    requires Inv(s) && t.senders == s.senders && t.accepted == s.accepted && t.closing == s.closing
    requires t.queue.cap == s.queue.cap
    ensures forall i <- t.senders :: SenderOk(t, i)
  {
    forall i <- t.senders
      ensures SenderOk(t, i)
    {
      assert SenderOk(s, i);
    }
  }

  /** A request buffer is as large as the ring, so one locked read empties it. */
  lemma DrainEmpties(s: State)
    requires Typed(s) && Enabled(s, DrainRead)
    ensures var t := Next(s, DrainRead);
      && t.queue.bytes == [] && t.queue.Valid() && t.drained == s.drained + [s.queue.bytes]
      && t.pending == Some((s.pool.Head(), s.queue.bytes))
      && Concat(t.drained) + t.queue.bytes == Concat(s.drained) + s.queue.bytes
  {
    hide Concat;
    var bytes := s.queue.bytes;
    assert bytes[..|bytes|] == bytes && bytes[|bytes|..] == [];
    ConcatSnoc(s.drained, bytes);
    assert Concat(s.drained) + bytes + [] == Concat(s.drained) + bytes;
  }

  lemma DrainKeeps(s: State)
    requires Inv(s) && Enabled(s, DrainRead)
    ensures Inv(Next(s, DrainRead))
  {
    hide Accounted, From, PieceCount, Progress, SenderOk, Concat, Stream;
    SendersKept(s, Next(s, DrainRead));
    TakeKeeps(s.pool);
    DrainEmpties(s);
  }

  lemma SubmitKeeps(s: State, ok: bool)
    requires Inv(s) && Enabled(s, Submit(ok))
    ensures Inv(Next(s, Submit(ok)))
  {
    hide Accounted, From, PieceCount, Progress, SenderOk;
    SendersKept(s, Next(s, Submit(ok)));
    LaunchKeeps(s.pool, s.pending.value.0);
    PutBackKeeps(s.pool, s.pending.value.0);
  }

  lemma AfterSendKeeps(s: State, req: nat, ok: bool)
    requires Inv(s) && Enabled(s, AfterSend(req, ok))
    ensures Inv(Next(s, AfterSend(req, ok)))
  {
    hide Accounted, From, PieceCount, Progress, SenderOk;
    SendersKept(s, Next(s, AfterSend(req, ok)));
    LandKeeps(s.pool, req);
  }

  /** Steps that only move the loop thread in or out of send_inl. */
  lemma WakeKeeps(s: State, step: Step)
    requires Inv(s) && Enabled(s, step) && step in {AsyncCB, Receive, DrainEnd}
    ensures Inv(Next(s, step))
  {
    hide Accounted, From, PieceCount, Progress, SenderOk;
    SendersKept(s, Next(s, step));
  }

  lemma StepKeeps(s: State, step: Step)
    requires Inv(s) && Enabled(s, step)
    ensures Inv(Next(s, step))
  {
    hide Inv, Next;
    match step
    case Start(id, data) => StartKeeps(s, id, data);
    case Check(id) => CheckKeeps(s, id);
    case Write(id) => WriteKeeps(s, id);
    case Finish(id) => FinishKeeps(s, id);
    case Close => CloseKeeps(s);
    case DrainRead => DrainKeeps(s);
    case Submit(ok) => SubmitKeeps(s, ok);
    case AfterSend(req, ok) => AfterSendKeeps(s, req, ok);
    case _ => WakeKeeps(s, step);
  }
}

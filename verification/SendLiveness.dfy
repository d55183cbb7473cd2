/** Which Send calls return. Send signals the loop thread before its loop and after it, but not
    while it waits for room, so a message longer than the ring may wait for ever. */
module SendLiveness {
  import opened Bytes
  import opened Ring
  import opened RequestPool
  import opened SendPipeline
  import opened SendRuns

  // ---------------------------------------------------------------------- the hung state

  /** What can happen while caller `id` is the only one: no other Send, no close, no receive. */
  predicate LoneStep(id: nat, step: Step) {
    match step
    case Check(i) => i == id
    case Write(i) => i == id
    case Finish(i) => i == id
    case Start(_, _) => false
    case Close => false
    case Receive => false
    case _ => true
  }

  /** The ring takes nothing of what the caller has left, and nothing is under way that could empty
      it: no signal, no drain, no request in flight. */
  ghost predicate Hung(id: nat, s: State) {
    && Inv(s) && !s.closing && !s.signalled && !s.draining && s.pool.flying == {}
    && id in s.senders && s.senders[id].pc in {Checking, Writing} && Taken(s, s.senders[id]) == 0
  }

  lemma HungStays(id: nat, s: State, step: Step)
    requires Hung(id, s) && LoneStep(id, step) && Enabled(s, step)
    ensures Hung(id, Next(s, step)) && Next(s, step).senders[id].iret == s.senders[id].iret
  {
    hide Inv;
    StepKeeps(s, step);
    InvTyped(s);
    var t := Next(s, step);
    if step.Write? {
      var c := s.senders[id];
      assert c.data[c.iret..c.iret + 0] == [] && s.queue.bytes + [] == s.queue.bytes;
      assert t.queue == s.queue && t.senders[id].iret == c.iret < |c.data| by { InvSender(s, id); }
      assert Taken(t, t.senders[id]) == Taken(s, c);
    }
  }

  /** A hung Send stays hung over every run of a lone caller, and not one byte gets in. */
  lemma {:induction false} HungForEver(id: nat, s: State, steps: seq<Step>)
    requires Hung(id, s) && Legal(s, steps) && forall step <- steps :: LoneStep(id, step)
    ensures Hung(id, Exec(s, steps)) && Exec(s, steps).senders[id].iret == s.senders[id].iret
    decreases |steps|
  {
    hide Hung, Next;
    if steps != [] {
      assert steps[0] in steps && forall step <- steps[1..] :: step in steps;
      HungStays(id, s, steps[0]);
      HungForEver(id, Next(s, steps[0]), steps[1..]);
    }
  }

  /** The caller has returned, and the loop thread has nothing left to do. */
  ghost predicate Resting(id: nat, s: State) {
    Inv(s) && !s.signalled && !s.draining && s.pool.flying == {} && At(s, id, Returned)
  }

  /** A run of a lone caller that ends hung, or at rest. */
  ghost predicate LeadsTo(id: nat, s: State, steps: seq<Step>, hung: bool)
    decreases |steps|
  {
    if steps == [] then if hung then Hung(id, s) else Resting(id, s)
    else
      && Inv(s) && LoneStep(id, steps[0]) && Enabled(s, steps[0])
      && LeadsTo(id, Next(s, steps[0]), steps[1..], hung)
  }

  lemma LeadsOn(id: nat, s: State, step: Step, steps: seq<Step>, hung: bool)
    requires Inv(s) && LoneStep(id, step) && Enabled(s, step) && LeadsTo(id, Next(s, step), steps, hung)
    ensures LeadsTo(id, s, [step] + steps, hung)
  {
    hide Inv, Next, Hung, Resting;
    assert ([step] + steps)[1..] == steps;
  }

  /** A caller that has got nothing in yet and has more than the ring holds. */
  ghost predicate TooLong(id: nat, s: State) {
    && Inv(s) && !s.closing && At(s, id, Checking)
    && s.senders[id].iret == 0 && |s.senders[id].data| > s.queue.cap
  }

  /** With the loop thread idle and the ring empty, one attempt hangs such a Send. */
  lemma AttemptHangs(id: nat, s: State)
    requires TooLong(id, s) && !s.signalled && !s.draining && s.pool.flying == {} && s.queue.bytes == []
    ensures LeadsTo(id, s, [Check(id), Write(id)], true)
  {
    hide Inv, NarrowToInt32, Reach;
    InvTyped(s);
    StepKeeps(s, Check(id));
    var t := Next(s, Check(id));
    InvTyped(t);
    StepKeeps(t, Write(id));
    var u := Next(t, Write(id));
    InvTyped(u);
    TakenAmount(t, t.senders[id]);
    TakenAmount(u, u.senders[id]);
    hide Next;
    assert LeadsTo(id, u, [], true);
    LeadsOn(id, t, Write(id), [], true);
    LeadsOn(id, s, Check(id), [Write(id)], true);
    assert [Write(id)] + [] == [Write(id)] && [Check(id)] + [Write(id)] == [Check(id), Write(id)];
  }

  /** The loop thread's next business, if any. */
  ghost predicate Serves(s: State, step: Step) {
    && Enabled(s, step)
    && (step in {AsyncCB, DrainRead, DrainEnd, Submit(false)}
        || (step.AfterSend? && !step.ok && !s.draining && !s.signalled))
  }

  lemma ServingKeeps(id: nat, s: State, step: Step)
    requires TooLong(id, s) && Serves(s, step)
    ensures LoneStep(id, step) && TooLong(id, Next(s, step))
    ensures (s.queue.bytes != [] ==> s.signalled || s.draining) ==>
      var t := Next(s, step); t.queue.bytes != [] ==> t.signalled || t.draining
  {
    hide Inv;
    StepKeeps(s, step);
    InvTyped(s);
  }

  lemma NextService(s: State) returns (step: Step)
    requires Inv(s) && (s.signalled || s.draining || s.pool.flying != {})
    ensures Serves(s, step)
  {
    if s.pending.Some? {
      step := Submit(false);
    } else if s.draining {
      step := if s.queue.bytes == [] then DrainEnd else DrainRead;
    } else if s.signalled {
      step := AsyncCB;
    } else {
      var req: nat :| req in s.pool.flying;
      step := AfterSend(req, false);
    }
  }

  /** Whatever the loop thread has to do, once it has done all of it the Send hangs. */
  lemma {:induction false} WayToHung(id: nat, s: State) returns (steps: seq<Step>)
    requires TooLong(id, s) && (s.queue.bytes != [] ==> s.signalled || s.draining)
    ensures LeadsTo(id, s, steps, true)
    decreases s.signalled, s.draining, s.queue.bytes != [], s.pending.Some?, s.pool.flying
  {
    hide Inv, LeadsTo;
    InvTyped(s);
    if s.signalled || s.draining || s.pool.flying != {} {
      var step := NextService(s);
      ServingKeeps(id, s, step);
      var rest := WayToHung(id, Next(s, step));
      LeadsOn(id, s, step, rest, true);
      steps := [step] + rest;
    } else {
      AttemptHangs(id, s);
      steps := [Check(id), Write(id)];
    }
  }

  /** The witness on an idle client: AsyncCB serves Send's first signal before anything is in the
      ring, and the first write is the last that gets anything in. */
  lemma HangingSchedule(cap: nat, id: nat, data: seq<byte>)
    requires 0 < cap <= INT32_MAX && cap < |data|
    ensures var steps := [AsyncCB, DrainEnd, Check(id), Write(id)];
      Enabled(Initial(cap), Start(id, data)) && LeadsTo(id, Next(Initial(cap), Start(id, data)), steps, true)
  {
    hide Inv, LeadsTo;
    var s0 := Initial(cap);
    InitialInv(cap);
    StepKeeps(s0, Start(id, data));
    var s1 := Next(s0, Start(id, data));
    ServingKeeps(id, s1, AsyncCB);
    var s2 := Next(s1, AsyncCB);
    ServingKeeps(id, s2, DrainEnd);
    var s3 := Next(s2, DrainEnd);
    AttemptHangs(id, s3);
    LeadsOn(id, s2, DrainEnd, [Check(id), Write(id)], true);
    LeadsOn(id, s1, AsyncCB, [DrainEnd] + [Check(id), Write(id)], true);
    assert [AsyncCB] + ([DrainEnd] + [Check(id), Write(id)]) == [AsyncCB, DrainEnd, Check(id), Write(id)];
  }

  // --------------------------------------------------------------------- infinite runs

  ghost predicate Moves(s: State, step: Step, t: State) {
    Typed(s) && Enabled(s, step) && Next(s, step) == t
  }

  ghost predicate LoneMove(id: nat, s: State, t: State) {
    s == t || exists step :: LoneStep(id, step) && Moves(s, step, t)
  }

  ghost predicate LoopMove(s: State, t: State) {
    exists step: Step :: (step in {AsyncCB, DrainRead, DrainEnd} || step.Submit?) && Moves(s, step, t)
  }

  ghost predicate CallerMove(id: nat, s: State, t: State) {
    exists step: Step :: step in {Check(id), Write(id), Finish(id)} && Moves(s, step, t)
  }

  ghost predicate LoneMoveAt(id: nat, run: nat -> State, k: nat) {
    LoneMove(id, run(k), run(k + 1))
  }

  /** The states of a lone caller's run, at every moment. */
  ghost predicate LoneRun(id: nat, start: State, run: nat -> State) {
    run(0) == start && forall k: nat :: LoneMoveAt(id, run, k)
  }

  ghost predicate LoopServedAt(run: nat -> State, j: nat) {
    (run(j).signalled || run(j).draining) ==> LoopMove(run(j), run(j + 1))
  }

  ghost predicate CallerServedAt(id: nat, run: nat -> State, j: nat) {
    !At(run(j), id, Returned) ==> CallerMove(id, run(j), run(j + 1))
  }

  ghost predicate LandedAt(req: nat, run: nat -> State, j: nat) {
    req !in run(j).pool.flying
  }

  /** From moment k on, an outstanding signal or drain is served, the caller gets to run, and every
      request in flight completes. */
  ghost predicate FairFrom(id: nat, run: nat -> State, k: nat) {
    && (exists j: nat :: k <= j && LoopServedAt(run, j))
    && (exists j: nat :: k <= j && CallerServedAt(id, run, j))
    && (forall req <- run(k).pool.flying :: exists j: nat :: k <= j && LandedAt(req, run, j))
  }

  ghost predicate Fair(id: nat, run: nat -> State) {
    forall k: nat :: FairFrom(id, run, k)
  }

  ghost predicate Returns(id: nat, run: nat -> State) {
    exists k: nat :: At(run(k), id, Returned)
  }

  // ------------------------------------------------------- a message that fits returns

  /** A lone caller whose message fits the ring: while its bytes are not in, a drain is outstanding. */
  ghost predicate Fits(id: nat, s: State) {
    && Inv(s) && !s.closing && id in s.senders && 0 < |s.senders[id].data| <= s.queue.cap
    && (s.senders[id].iret == 0 && s.queue.bytes != [] ==> s.signalled || s.draining)
  }

  /** Room for the message, or the message in. */
  predicate Roomy(id: nat, s: State)
    requires id in s.senders
  {
    s.queue.bytes == [] || s.senders[id].iret > 0
  }

  /** How far a lone caller is from its return. */
  function Rank(id: nat, s: State): nat
    requires id in s.senders
  {
    if !Roomy(id, s) then if s.draining && s.pending == None then 5 else 6
    else match s.senders[id].pc
      case Returned => 0
      case Signalling => 1
      case Writing => 2
      case Checking => 3
  }

  /** All of a message that fits goes in at once. */
  lemma AllAtOnce(id: nat, s: State)
    requires Fits(id, s)
    ensures var c := s.senders[id];
      && (c.iret == 0 || c.iret == |c.data|)
      && (c.pc in {Checking, Writing} ==> c.iret == 0 && Taken(s, c) in {0, |c.data|})
      && (c.pc in {Checking, Writing} && s.queue.bytes == [] ==> Taken(s, c) == |c.data|)
      && (c.pc in {Signalling, Returned} ==> c.iret == |c.data|)
  {
    hide Inv;
    InvSender(s, id);
    InvTyped(s);
    var c := s.senders[id];
    ShortMessageCount(s.queue.cap, c, PieceCount(s.accepted, id));
    TakenAmount(s, c);
  }

  lemma FitsStep(id: nat, s: State, step: Step)
    requires Fits(id, s) && LoneStep(id, step) && Enabled(s, step)
    ensures Fits(id, Next(s, step)) && Rank(id, Next(s, step)) <= Rank(id, s)
    ensures Rank(id, s) >= 4 && (step in {AsyncCB, DrainRead, DrainEnd} || step.Submit?) ==>
      Rank(id, Next(s, step)) < Rank(id, s)
    ensures 0 < Rank(id, s) < 4 && step in {Check(id), Write(id), Finish(id)} ==>
      Rank(id, Next(s, step)) < Rank(id, s)
  {
    hide Inv, Taken;
    AllAtOnce(id, s);
    InvTyped(s);
    StepKeeps(s, step);
    if step.DrainRead? {
      DrainEmpties(s);
    }
  }

  lemma FitsMove(id: nat, s: State, t: State)
    requires Fits(id, s) && LoneMove(id, s, t)
    ensures Fits(id, t) && Rank(id, t) <= Rank(id, s)
    ensures Rank(id, s) >= 4 && LoopMove(s, t) ==> Rank(id, t) < Rank(id, s)
    ensures 0 < Rank(id, s) < 4 && CallerMove(id, s, t) ==> Rank(id, t) < Rank(id, s)
  {
    hide Fits, Rank, Next;
    if s != t {
      var step :| LoneStep(id, step) && Moves(s, step, t);
      FitsStep(id, s, step);
    }
    if LoopMove(s, t) {
      var step: Step :| (step in {AsyncCB, DrainRead, DrainEnd} || step.Submit?) && Moves(s, step, t);
      FitsStep(id, s, step);
    }
    if CallerMove(id, s, t) {
      var step: Step :| step in {Check(id), Write(id), Finish(id)} && Moves(s, step, t);
      FitsStep(id, s, step);
    }
  }

  lemma {:induction false} FitsUntil(id: nat, run: nat -> State, start: State, k: nat, j: nat)
    requires LoneRun(id, start, run) && k <= j && Fits(id, run(k))
    ensures Fits(id, run(j)) && Rank(id, run(j)) <= Rank(id, run(k))
    decreases j
  {
    hide Fits, Rank, LoneMove;
    if k < j {
      FitsUntil(id, run, start, k, j - 1);
      assert LoneMoveAt(id, run, j - 1);
      FitsMove(id, run(j - 1), run(j));
    }
  }

  /** At some later moment the one whose turn it is has moved, so the rank has gone down. */
  lemma RankFalls(id: nat, run: nat -> State, start: State, k: nat) returns (j: nat)
    requires LoneRun(id, start, run) && Fair(id, run) && Fits(id, run(k)) && Rank(id, run(k)) > 0
    ensures Fits(id, run(j)) && Rank(id, run(j)) < Rank(id, run(k))
  {
    hide Inv, LoneMove, LoopMove, CallerMove;
    var i: nat;
    assert FairFrom(id, run, k);
    if Rank(id, run(k)) >= 4 {
      i :| k <= i && LoopServedAt(run, i);
    } else {
      i :| k <= i && CallerServedAt(id, run, i);
    }
    FitsUntil(id, run, start, k, i);
    assert LoneMoveAt(id, run, i);
    FitsMove(id, run(i), run(i + 1));
    j := if Rank(id, run(i)) < Rank(id, run(k)) then i else i + 1;
  }

  lemma {:induction false} FittingReturns(id: nat, run: nat -> State, start: State, k: nat)
    requires LoneRun(id, start, run) && Fair(id, run) && Fits(id, run(k))
    ensures Returns(id, run)
    decreases Rank(id, run(k))
  {
    hide Inv, LoneRun, Fair;
    if Rank(id, run(k)) == 0 {
      assert At(run(k), id, Returned);
    } else {
      var j := RankFalls(id, run, start, k);
      FittingReturns(id, run, start, j);
    }
  }

  lemma StartFits(id: nat, s: State, data: seq<byte>)
    requires Inv(s) && !s.closing && Enabled(s, Start(id, data)) && 0 < |data| <= s.queue.cap
    ensures Fits(id, Next(s, Start(id, data)))
  {
    hide Inv;
    StepKeeps(s, Start(id, data));
    InvTyped(s);
  }

  /** From such a state the caller can return and the loop thread finish. */
  lemma {:induction false} WayToRest(id: nat, s: State) returns (steps: seq<Step>)
    requires Fits(id, s)
    ensures LeadsTo(id, s, steps, false)
    decreases Rank(id, s), s.signalled, s.draining, s.queue.bytes != [], s.pending.Some?, s.pool.flying
  {
    hide Inv, LeadsTo;
    InvTyped(s);
    var step: Step;
    if Rank(id, s) == 0 && !s.signalled && !s.draining && s.pool.flying == {} {
      assert LeadsTo(id, s, [], false) by { AtRest(id, s); }
      return [];
    } else if 0 < Rank(id, s) < 4 {
      step := match s.senders[id].pc case Checking => Check(id) case Writing => Write(id) case _ => Finish(id);
    } else {
      step := NextService(s);
    }
    FitsStep(id, s, step);
    var rest := WayToRest(id, Next(s, step));
    LeadsOn(id, s, step, rest, false);
    steps := [step] + rest;
  }

  lemma AtRest(id: nat, s: State)
    requires Resting(id, s)
    ensures LeadsTo(id, s, [], false)
  {
  }

  // ------------------------------------------------------------- fair runs that exist

  /** The run that takes the given steps and then keeps trying, or rests. */
  ghost function Trying(id: nat, s: State, steps: seq<Step>, hung: bool, k: nat): (t: State)
    requires LeadsTo(id, s, steps, hung)
    decreases k
  {
    if k == 0 then s
    else if steps != [] then Trying(id, Next(s, steps[0]), steps[1..], hung, k - 1)
    else if hung then
      HungStays(id, s, Attempt(id, s));
      Trying(id, Next(s, Attempt(id, s)), [], hung, k - 1)
    else s
  }

  function Attempt(id: nat, s: State): Step
    requires id in s.senders
  {
    if s.senders[id].pc == Checking then Check(id) else Write(id)
  }

  lemma HungAttempt(id: nat, s: State)
    requires Hung(id, s)
    ensures Moves(s, Attempt(id, s), Next(s, Attempt(id, s))) && LoneStep(id, Attempt(id, s))
    ensures Hung(id, Next(s, Attempt(id, s))) && CallerMove(id, s, Next(s, Attempt(id, s)))
  {
    InvTyped(s);
    HungStays(id, s, Attempt(id, s));
    hide Inv, Next;
  }

  lemma {:induction false} TryingMoves(id: nat, s: State, steps: seq<Step>, hung: bool, k: nat)
    requires LeadsTo(id, s, steps, hung)
    ensures var t, u := Trying(id, s, steps, hung, k), Trying(id, s, steps, hung, k + 1);
      && LoneMove(id, t, u)
      && (k >= |steps| && hung ==> Hung(id, t) && CallerMove(id, t, u))
      && (k >= |steps| && !hung ==> Resting(id, t))
    decreases k
  {
    hide Inv, Next, Hung, Resting;
    if steps != [] {
      InvTyped(s);
      if k > 0 {
        TryingMoves(id, Next(s, steps[0]), steps[1..], hung, k - 1);
      } else {
        assert Trying(id, s, steps, hung, 1) == Trying(id, Next(s, steps[0]), steps[1..], hung, 0);
        assert Moves(s, steps[0], Next(s, steps[0]));
      }
    } else if hung {
      HungAttempt(id, s);
      if k > 0 {
        TryingMoves(id, Next(s, Attempt(id, s)), [], hung, k - 1);
      } else {
        assert Trying(id, s, steps, hung, 1) == Trying(id, Next(s, Attempt(id, s)), [], hung, 0);
      }
    }
  }

  lemma {:induction false} NotReturnedYet(id: nat, s: State, steps: seq<Step>)
    requires LeadsTo(id, s, steps, true)
    ensures !At(s, id, Returned)
    decreases |steps|
  {
    hide Inv;
    if steps != [] {
      InvTyped(s);
      NotReturnedYet(id, Next(s, steps[0]), steps[1..]);
    }
  }

  lemma {:induction false} TryingOn(id: nat, s: State, steps: seq<Step>, k: nat)
    requires LeadsTo(id, s, steps, true)
    ensures !At(Trying(id, s, steps, true, k), id, Returned)
    decreases k
  {
    hide Inv, Next, Hung;
    if k == 0 {
      NotReturnedYet(id, s, steps);
    } else if steps == [] {
      HungAttempt(id, s);
      TryingOn(id, Next(s, Attempt(id, s)), [], k - 1);
    } else {
      InvTyped(s);
      TryingOn(id, Next(s, steps[0]), steps[1..], k - 1);
    }
  }

  lemma TryingIsLone(id: nat, s: State, steps: seq<Step>, hung: bool, run: nat -> State)
    requires LeadsTo(id, s, steps, hung) && forall k: nat :: run(k) == Trying(id, s, steps, hung, k)
    ensures LoneRun(id, s, run) && (Returns(id, run) <==> !hung)
  {
    hide LeadsTo, LoneMove, Trying;
    TryingFrom(id, s, steps, hung);
    forall k: nat
      ensures LoneMoveAt(id, run, k) && (hung ==> !At(run(k), id, Returned))
    {
      TryingMoves(id, s, steps, hung, k);
      if hung {
        TryingOn(id, s, steps, k);
      }
    }
    if !hung {
      TryingMoves(id, s, steps, hung, |steps|);
      assert At(run(|steps|), id, Returned);
    }
  }

  lemma TryingFrom(id: nat, s: State, steps: seq<Step>, hung: bool)
    requires LeadsTo(id, s, steps, hung)
    ensures Trying(id, s, steps, hung, 0) == s
  {
  }

  /** A moment at which the Send hangs and its caller tries, or all is at rest, is fair to everyone. */
  lemma EndIsFair(id: nat, run: nat -> State, k: nat, j: nat)
    requires k <= j && ((Hung(id, run(j)) && CallerMove(id, run(j), run(j + 1))) || Resting(id, run(j)))
    ensures FairFrom(id, run, k)
  {
    hide Inv, LoopMove, CallerMove, At;
    assert LoopServedAt(run, j) && CallerServedAt(id, run, j);
    forall req <- run(k).pool.flying
      ensures exists i: nat :: k <= i && LandedAt(req, run, i)
    {
      assert LandedAt(req, run, j);
    }
  }

  lemma FairRunExists(id: nat, s: State, steps: seq<Step>, hung: bool)
    requires LeadsTo(id, s, steps, hung)
    ensures exists run: nat -> State :: LoneRun(id, s, run) && Fair(id, run) && (Returns(id, run) <==> !hung)
  {
    hide LeadsTo, LoneRun, FairFrom, Returns, Trying, Hung, Resting, LoneMove, CallerMove;
    var run: nat -> State := (k: nat) => Trying(id, s, steps, hung, k);
    TryingIsLone(id, s, steps, hung, run);
    forall k: nat
      ensures FairFrom(id, run, k)
    {
      var j := if k < |steps| then |steps| else k;
      TryingMoves(id, s, steps, hung, j);
      EndIsFair(id, run, k, j);
    }
    assert Fair(id, run);
  }

  lemma WayToAnEnd(s: State, id: nat, data: seq<byte>) returns (steps: seq<Step>)
    requires Inv(s) && !s.closing && Enabled(s, Start(id, data)) && data != []
    ensures LeadsTo(id, Next(s, Start(id, data)), steps, |data| > s.queue.cap)
  {
    InvTyped(s);
    hide Inv, LeadsTo;
    if |data| <= s.queue.cap {
      StartFits(id, s, data);
      steps := WayToRest(id, Next(s, Start(id, data)));
    } else {
      StepKeeps(s, Start(id, data));
      steps := WayToHung(id, Next(s, Start(id, data)));
    }
  }

  /** Fair runs of a lone caller exist: one that returns if the message fits the ring, and one that
      never returns if it does not. */
  lemma SomeFairRun(s: State, id: nat, data: seq<byte>)
    requires Inv(s) && !s.closing && Enabled(s, Start(id, data)) && data != []
    ensures exists run: nat -> State ::
      LoneRun(id, Next(s, Start(id, data)), run) && Fair(id, run) && (Returns(id, run) <==> |data| <= s.queue.cap)
  {
    var steps := WayToAnEnd(s, id, data);
    InvTyped(s);
    hide Inv, LeadsTo, Next;
    FairRunExists(id, Next(s, Start(id, data)), steps, |data| > s.queue.cap);
  }

  /** The exact law. A Send that begins in any state of an open client, with no other caller, no
      close and no receive, returns in every fair run if and only if its message fits the ring. */
  lemma ReturnsExactly(s: State, id: nat, data: seq<byte>)
    requires Inv(s) && !s.closing && Enabled(s, Start(id, data))
    ensures (forall run: nat -> State ::
               LoneRun(id, Next(s, Start(id, data)), run) && Fair(id, run) ==> Returns(id, run))
       <==> |data| <= s.queue.cap
  {
    InvTyped(s);
    hide Inv, Fair;
    var t := Next(s, Start(id, data));
    if |data| <= s.queue.cap {
      forall run: nat -> State | LoneRun(id, t, run) && Fair(id, run)
        ensures Returns(id, run)
      {
        if data == [] {
          assert At(run(0), id, Returned);
        } else {
          StartFits(id, s, data);
          FittingReturns(id, run, t, 0);
        }
      }
    } else {
      SomeFairRun(s, id, data);
    }
  }

  // ------------------------------------------------- which messages can return at all

  /** Something that will still make the loop thread look at the ring: a signal, a request in flight,
      or a drain that is about to submit one. */
  predicate Hope(s: State) {
    s.signalled || s.pool.flying != {} || (s.draining && (s.pending.Some? || s.queue.bytes != []))
  }

  /** A lone caller of a message that fits an int, with hope while it is in its loop. */
  ghost predicate Hopeful(id: nat, s: State) {
    && Inv(s) && !s.closing && id in s.senders && |s.senders[id].data| <= INT32_MAX
    && (s.senders[id].pc in {Checking, Writing} ==> Hope(s))
    && (s.senders[id].pc == Writing ==> s.queue.bytes == [])
  }

  /** How far a lone caller is from its next write into an empty ring, or from its return. */
  function Distance(id: nat, s: State): nat
    requires id in s.senders
  {
    match s.senders[id].pc
    case Returned => 0
    case Signalling => 1
    case Writing => 1
    case Checking =>
      if s.queue.bytes == [] then if !s.draining then 2 else if s.pending == None then 3 else 4
      else if s.pending.Some? then 6 else if s.draining then 5 else 7
  }

  /** The next step on the way to a return: let the ring be drained, at best by the completion of an
      earlier write, and write only when it is empty. */
  ghost predicate Helps(id: nat, s: State, step: Step)
    requires id in s.senders
  {
    match s.senders[id].pc
    case Returned => Serves(s, step)
    case Signalling => step == Finish(id)
    case Writing => step == Write(id)
    case Checking =>
      if s.draining then step in {DrainRead, DrainEnd, Submit(true)} && Enabled(s, step)
      else if s.queue.bytes == [] then step == Check(id)
      else Enabled(s, step) && (step == AsyncCB || (step.AfterSend? && step.ok))
  }

  lemma NextHelp(id: nat, s: State) returns (step: Step)
    requires Hopeful(id, s)
    requires s.senders[id].pc == Returned ==> s.signalled || s.draining || s.pool.flying != {}
    ensures Helps(id, s, step)
  {
    hide Inv;
    InvTyped(s);
    match s.senders[id].pc
    case Returned => step := NextService(s);
    case Signalling => step := Finish(id);
    case Writing => step := Write(id);
    case Checking =>
      if s.draining {
        step := if s.pending.Some? then Submit(true) else if s.queue.bytes == [] then DrainEnd else DrainRead;
      } else if s.queue.bytes == [] {
        step := Check(id);
      } else if s.signalled {
        step := AsyncCB;
      } else {
        var req: nat :| req in s.pool.flying;
        step := AfterSend(req, true);
      }
  }

  /** A write into an empty ring gets in a full ring, or all that is left. */
  lemma WriteAdvances(id: nat, s: State)
    requires Hopeful(id, s) && s.senders[id].pc == Writing
    ensures Enabled(s, Write(id)) && Typed(s)
    ensures var t, c := Next(s, Write(id)), s.senders[id];
      && c.iret < t.senders[id].iret <= |c.data| == |t.senders[id].data|
      && t.senders[id].pc == if t.senders[id].iret < |c.data| then Checking else Signalling
  {
    hide Inv, Taken;
    InvTyped(s);
    InvSender(s, id);
    ProgressWithin(s.queue.cap, s.senders[id], PieceCount(s.accepted, id));
    TakenAmount(s, s.senders[id]);
  }

  lemma HelpKeeps(id: nat, s: State, step: Step)
    requires Hopeful(id, s) && Helps(id, s, step)
    ensures LoneStep(id, step) && Enabled(s, step) && Typed(s) && Hopeful(id, Next(s, step))
    ensures var t := Next(s, step);
      && t.senders[id].data == s.senders[id].data && s.senders[id].iret <= t.senders[id].iret <= |s.senders[id].data|
      && (t.senders[id].iret == s.senders[id].iret ==>
            Distance(id, t) < Distance(id, s) || (s.senders[id].pc == Returned && Distance(id, t) == 0))
  {
    hide Inv, Taken;
    InvTyped(s);
    StepKeeps(s, step);
    if s.senders[id].pc == Writing {
      WriteAdvances(id, s);
    } else if step.DrainRead? {
      DrainEmpties(s);
    }
  }

  /** Every such message can be brought to its return. */
  lemma {:induction false} WayToReturn(id: nat, s: State) returns (steps: seq<Step>)
    requires Hopeful(id, s)
    ensures LeadsTo(id, s, steps, false)
    decreases |s.senders[id].data| - s.senders[id].iret, Distance(id, s),
              s.signalled, s.draining, s.queue.bytes != [], s.pending.Some?, s.pool.flying
  {
    hide Inv, LeadsTo;
    InvTyped(s);
    if s.senders[id].pc == Returned && !s.signalled && !s.draining && s.pool.flying == {} {
      assert LeadsTo(id, s, [], false) by { AtRest(id, s); }
      return [];
    }
    var step := NextHelp(id, s);
    HelpKeeps(id, s, step);
    var rest := WayToReturn(id, Next(s, step));
    LeadsOn(id, s, step, rest, false);
    steps := [step] + rest;
  }

  lemma {:induction false} OpenUntil(id: nat, run: nat -> State, start: State, k: nat)
    requires LoneRun(id, start, run) && Inv(start) && !start.closing && id in start.senders
    ensures var s := run(k); Inv(s) && !s.closing && id in s.senders && s.senders[id].data == start.senders[id].data
    decreases k
  {
    hide Inv;
    if k > 0 {
      OpenUntil(id, run, start, k - 1);
      assert LoneMoveAt(id, run, k - 1);
      if run(k - 1) != run(k) {
        var step :| LoneStep(id, step) && Moves(run(k - 1), step, run(k));
        StepKeeps(run(k - 1), step);
      }
    }
  }

  lemma ReturnedAll(id: nat, s: State)
    requires Inv(s) && !s.closing && At(s, id, Returned)
    ensures |s.senders[id].data| <= INT32_MAX
  {
    hide Inv;
    InvSender(s, id);
    ProgressWithin(s.queue.cap, s.senders[id], PieceCount(s.accepted, id));
  }

  /** The law of the possible. A Send that begins in any state of an open client, with no other
      caller, no close and no receive, returns in some fair run if and only if its length fits an
      int: completions of its own earlier writes can carry it all the way. */
  lemma MayReturn(s: State, id: nat, data: seq<byte>)
    requires Inv(s) && !s.closing && Enabled(s, Start(id, data))
    ensures (exists run: nat -> State ::
               LoneRun(id, Next(s, Start(id, data)), run) && Fair(id, run) && Returns(id, run))
       <==> |data| <= INT32_MAX
  {
    InvTyped(s);
    StepKeeps(s, Start(id, data));
    hide Inv, Fair, LeadsTo;
    var start := Next(s, Start(id, data));
    if |data| <= INT32_MAX {
      var steps := WayToReturn(id, start);
      FairRunExists(id, start, steps, false);
    } else {
      forall run: nat -> State | LoneRun(id, start, run) && Fair(id, run)
        ensures !Returns(id, run)
      {
        if k: nat :| At(run(k), id, Returned) {
          OpenUntil(id, run, start, k);
          ReturnedAll(id, run(k));
        }
      }
    }
  }

  // ------------------------------------------------ a receive in each sleep wakes the loop

  lemma ReachableTyped(cap: nat, s: State)
    requires Reachable(cap, s)
    ensures Typed(s) && s.queue.cap == cap && (s.pending.Some? ==> s.draining)
  {
    ReachableInv(cap, s);
  }

  /** send_inl from its loop's start to its end, with no caller in between. */
  ghost function SendInl(cap: nat, s: State, ok: bool): (d: State)
    requires Reachable(cap, s) && s.draining && s.pending == None
    ensures Reachable(cap, d) && !d.draining && d.queue.bytes == []
    ensures d.senders == s.senders && d.closing == s.closing
    decreases |s.queue.bytes|
  {
    hide Reachable, Inv;
    ReachableTyped(cap, s);
    if s.queue.bytes == [] then
      ReachableStep(cap, s, DrainEnd);
      Next(s, DrainEnd)
    else
      DrainEmpties(s);
      ReachableStep(cap, s, DrainRead);
      var t := Next(s, DrainRead);
      ReachableTyped(cap, t);
      ReachableStep(cap, t, Submit(ok));
      SendInl(cap, Next(t, Submit(ok)), ok)
  }

  /** AfterRecv runs send_inl, so whatever is received empties the ring. */
  ghost function AfterReceive(cap: nat, s: State, ok: bool): (d: State)
    requires Reachable(cap, s) && !s.draining
    ensures Reachable(cap, d) && !d.draining && d.queue.bytes == []
    ensures d.senders == s.senders && d.closing == s.closing
  {
    hide Reachable, Inv;
    ReachableTyped(cap, s);
    ReachableStep(cap, s, Receive);
    SendInl(cap, Next(s, Receive), ok)
  }

  /** What a caller finds in each turn of its loop. */
  ghost predicate Awaits(cap: nat, id: nat, s: State) {
    Reachable(cap, s) && !s.closing && !s.draining && At(s, id, Checking)
  }

  /** A receive while the caller sleeps, and then its next attempt. */
  ghost function Round(cap: nat, id: nat, s: State, ok: bool): (t: State)
    requires Awaits(cap, id, s)
    ensures Reachable(cap, t) && !t.closing && !t.draining && id in t.senders
    ensures var c := s.senders[id];
      && t.senders[id].data == c.data && t.senders[id].iret == Min(c.iret + cap, Reach(|c.data|))
      && t.senders[id].pc == if t.senders[id].iret == |c.data| then Signalling else Checking
  {
    hide Reachable, Inv, Reach;
    var d := AfterReceive(cap, s, ok);
    ReachableTyped(cap, d);
    ReachableStep(cap, d, Check(id));
    var e := Next(d, Check(id));
    WriteFills(cap, id, e);
    Next(e, Write(id))
  }

  /** A write into an empty ring takes a full ring, or all that can still get in. */
  lemma WriteFills(cap: nat, id: nat, e: State)
    requires Reachable(cap, e) && At(e, id, Writing) && e.queue.bytes == []
    ensures Typed(e)
    ensures var t, c := Next(e, Write(id)), e.senders[id];
      && Reachable(cap, t) && t.closing == e.closing && t.draining == e.draining && id in t.senders
      && t.senders[id].data == c.data && t.senders[id].iret == Min(c.iret + cap, Reach(|c.data|))
      && t.senders[id].pc == if t.senders[id].iret == |c.data| then Signalling else Checking
  {
    hide Reachable, Inv, Reach, Taken;
    ReachableTyped(cap, e);
    WithinReach(cap, e, id);
    TakenAmount(e, e.senders[id]);
    ReachableStep(cap, e, Write(id));
  }

  lemma WithinReach(cap: nat, s: State, id: nat)
    requires Reachable(cap, s) && id in s.senders
    ensures s.senders[id].iret <= Reach(|s.senders[id].data|) && s.queue.cap == cap && s.queue.Valid()
  {
    ReachableInv(cap, s);
    InvSender(s, id);
    ProgressWithin(cap, s.senders[id], PieceCount(s.accepted, id));
  }

  ghost function Rounds(cap: nat, id: nat, s: State, oks: seq<bool>): State
    requires Awaits(cap, id, s)
    decreases |oks|
  {
    if oks == [] then s
    else
      var t := Round(cap, id, s, oks[0]);
      if t.senders[id].pc == Checking then Rounds(cap, id, t, oks[1..]) else t
  }

  /** What n rounds can move. */
  function Quota(n: nat, cap: nat): nat {
    n * cap
  }

  lemma QuotaSteps(iret: nat, cap: nat, n: nat, len: nat)
    ensures n == 0 ==> Quota(n, cap) == 0
    ensures n > 0 ==> Quota(n, cap) == cap + Quota(n - 1, cap)
    ensures n > 0 ==> Min(Min(iret + cap, len) + Quota(n - 1, cap), len) == Min(iret + Quota(n, cap), len)
  {
    if n > 0 {
      assert n * cap == cap + (n - 1) * cap;
    }
  }

  /** With a receive in each sleep, n rounds bring a Send to min(iret + n * cap, reach), whether or
      not uv_write accepts what is drained. So one of at most INT32_MAX bytes leaves its loop within
      ceil(rest / cap) rounds, and a longer one never does. */
  lemma {:induction false} ReceivesRescue(cap: nat, id: nat, s: State, oks: seq<bool>)
    requires Awaits(cap, id, s)
    ensures var t, c := Rounds(cap, id, s, oks), s.senders[id];
      && Reachable(cap, t) && id in t.senders && t.senders[id].data == c.data
      && t.senders[id].iret == Min(c.iret + Quota(|oks|, cap), Reach(|c.data|))
      && (t.senders[id].pc == Signalling <==> t.senders[id].iret == |c.data|)
    decreases |oks|
  {
    hide Round, Reachable, Quota, Reach;
    WithinReach(cap, s, id);
    Unfinished(cap, s, id);
    QuotaSteps(s.senders[id].iret, cap, |oks|, Reach(|s.senders[id].data|));
    if oks != [] {
      var t := Round(cap, id, s, oks[0]);
      if t.senders[id].pc == Checking {
        ReceivesRescue(cap, id, t, oks[1..]);
      }
    }
  }

  lemma Unfinished(cap: nat, s: State, id: nat)
    requires Awaits(cap, id, s)
    ensures s.senders[id].iret < |s.senders[id].data|
  {
    ReachableInv(cap, s);
    InvSender(s, id);
  }

  lemma SomeRunCompletes(cap: nat, id: nat, data: seq<byte>) returns (s: State)
    requires 0 < cap <= INT32_MAX && |data| <= INT32_MAX
    ensures Reachable(cap, s) && id in s.senders && s.senders[id].data == data && s.senders[id].iret == |data|
  {
    hide Reachable, Rounds, Inv;
    InitialReachable(cap);
    ReachableStep(cap, Initial(cap), Start(id, data));
    s := Next(Initial(cap), Start(id, data));
    if data != [] {
      var oks := seq(|data|, _ => true);
      ReceivesRescue(cap, id, s, oks);
      assert Quota(|data|, cap) >= |data|;
      s := Rounds(cap, id, s, oks);
    }
  }

  /** The exact law on the caller's length: some run gets all of a message accepted if and only if
      the length fits an int. */
  lemma CompletesExactly(cap: nat, id: nat, data: seq<byte>)
    requires 0 < cap <= INT32_MAX
    ensures (exists s :: Reachable(cap, s) && id in s.senders && s.senders[id].data == data
                         && s.senders[id].iret == |data|)
       <==> |data| <= INT32_MAX
  {
    hide Reachable;
    if |data| <= INT32_MAX {
      var s := SomeRunCompletes(cap, id, data);
    } else if s :| Reachable(cap, s) && id in s.senders && s.senders[id].data == data && s.senders[id].iret == |data| {
      NarrowedLength(cap, s, id);
    }
  }
}

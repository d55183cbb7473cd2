/** The client's reconnect timer and its doubling period. */
module Reconnect {
  import opened Bytes

  const FIRST_PERIOD: int := 1000
  const INT64_MAX: int := 0x7fff_ffff_ffff_ffff

  /** `timer` is the period of the armed repeating timer. `reading` says that libuv is delivering
      receives on the connection. */
  datatype State = State(reconnecting: bool, period: int, timer: Option<int>, reading: bool)

  /** The callbacks, with what libuv answers to the calls they make. */
  datatype Step =
    | ConnectSucceeded(readStartOk: bool)
    | ConnectFailed(timerOk: bool)
    | ReadError
    | HandleClosed(timerOk: bool)
    | TimerFired(connectOk: bool, timerOk: bool)
    | UserClose

  predicate Enabled(s: State, step: Step) {
    match step
    case ReadError => s.reading
    case TimerFired(_, _) => s.timer.Some?
    case _ => true
  }

  function Arm(s: State, ok: bool): State {
    s.(timer := if ok then Some(s.period) else None)
  }

  function Backoff(s: State, timerOk: bool): State {
    Arm(s.(period := s.period * 2), timerOk)
  }

  function Stop(s: State): State {
    s.(reconnecting := false, period := FIRST_PERIOD, timer := None)
  }

  function Next(s: State, step: Step): State
    requires Enabled(s, step)
  {
    match step
    case ConnectSucceeded(ok) =>
      var t := s.(reading := ok);
      if s.reconnecting then Stop(t) else t
    case ConnectFailed(timerOk) => if s.reconnecting then Backoff(s, timerOk) else s
    case ReadError => s.(reconnecting := true, period := FIRST_PERIOD, reading := false)
    case HandleClosed(timerOk) => if s.reconnecting then Arm(s, timerOk) else s
    case TimerFired(connectOk, timerOk) => if s.reconnecting && !connectOk then Backoff(s, timerOk) else s
    case UserClose => Stop(s).(reading := false)
  }

  /** The constructor leaves the period unset. */
  function Initial(period: int): State {
    State(false, period, None, false)
  }

  // -------------------------------------------------- what the callbacks so far amount to

  /** A read error starts the reconnecting; a success or a close by the user ends it. */
  predicate Reconnecting(steps: seq<Step>) {
    steps != [] &&
    match steps[|steps| - 1]
    case ReadError => true
    case ConnectSucceeded(_) => false
    case UserClose => false
    case _ => Reconnecting(steps[..|steps| - 1])
  }

  /** The attempts that failed while reconnecting, since the last read error. */
  function Failures(steps: seq<Step>): nat {
    if steps == [] then 0
    else
      var front := steps[..|steps| - 1];
      match steps[|steps| - 1]
      case ReadError => 0
      case ConnectFailed(_) => Failures(front) + if Reconnecting(front) then 1 else 0
      case TimerFired(false, _) => Failures(front) + if Reconnecting(front) then 1 else 0
      case _ => Failures(front)
  }

  /** Whether the timer is armed: the close callback and every failure arm it, as far as libuv lets
      them; a success and a close by the user stop it. */
  predicate Armed(steps: seq<Step>) {
    steps != [] &&
    var front := steps[..|steps| - 1];
    match steps[|steps| - 1]
    case HandleClosed(ok) => if Reconnecting(front) then ok else Armed(front)
    case ConnectFailed(ok) => if Reconnecting(front) then ok else Armed(front)
    case TimerFired(false, ok) => if Reconnecting(front) then ok else Armed(front)
    case ConnectSucceeded(_) => Armed(front) && !Reconnecting(front)
    case UserClose => false
    case _ => Armed(front)
  }

  /** Receives are delivered from a success whose read start worked until a read error or a close. */
  predicate Reading(steps: seq<Step>) {
    steps != [] &&
    match steps[|steps| - 1]
    case ConnectSucceeded(ok) => ok
    case ReadError => false
    case UserClose => false
    case _ => Reading(steps[..|steps| - 1])
  }

  function Pow2(n: nat): (p: int)
    ensures p >= 1
  {
    if n == 0 then 1 else 2 * Pow2(n - 1)
  }

  /** The callbacks `steps` have led to s. */
  ghost predicate Follows(s: State, steps: seq<Step>) {
    && s.reconnecting == Reconnecting(steps) && s.reading == Reading(steps)
    && (s.reconnecting ==> s.period == FIRST_PERIOD * Pow2(Failures(steps)))
    && s.timer == (if Armed(steps) then Some(s.period) else None)
    && (Armed(steps) ==> Reconnecting(steps)) && (Reading(steps) ==> !Reconnecting(steps))
  }

  lemma StepFollows(s: State, steps: seq<Step>, step: Step)
    requires Follows(s, steps) && Enabled(s, step)
    ensures Follows(Next(s, step), steps + [step])
  {
    assert (steps + [step])[..|steps|] == steps;
  }

  ghost predicate Legal(s: State, steps: seq<Step>)
    decreases |steps|
  {
    steps != [] ==> Enabled(s, steps[0]) && Legal(Next(s, steps[0]), steps[1..])
  }

  ghost function Exec(s: State, steps: seq<Step>): State
    requires Legal(s, steps)
    decreases |steps|
  {
    if steps == [] then s else Exec(Next(s, steps[0]), steps[1..])
  }

  lemma {:induction false} RunFollows(s: State, before: seq<Step>, steps: seq<Step>)
    requires Follows(s, before) && Legal(s, steps)
    ensures Follows(Exec(s, steps), before + steps)
    decreases |steps|
  {
    hide Follows, Next;
    if steps == [] {
      assert before + steps == before;
    } else {
      StepFollows(s, before, steps[0]);
      RunFollows(Next(s, steps[0]), before + [steps[0]], steps[1..]);
      assert before + [steps[0]] + steps[1..] == before + steps;
    }
  }

  lemma NothingFollows(period: int)
    ensures Follows(Initial(period), [])
  {
  }

  lemma {:induction false} Pow2Grows(m: nat, n: nat)
    requires m <= n
    ensures Pow2(m) <= Pow2(n)
    decreases n - m
  {
    if m < n {
      Pow2Grows(m, n - 1);
    }
  }

  lemma Pow2At53()
    ensures Pow2(53) == 0x20_0000_0000_0000
  {
    assert Pow2(10) == 0x400;
    assert Pow2(20) == 0x10_0000;
    assert Pow2(30) == 0x4000_0000;
    assert Pow2(40) == 0x100_0000_0000;
    assert Pow2(50) == 0x4_0000_0000_0000;
  }

  /** In every run, whatever the callbacks' order: the client is reconnecting from a read error until a
      success or a close; meanwhile the period is 1000 * 2^k after k failures, and it fits the 64-bit
      field exactly as long as k is at most 53; and an armed timer carries the period. */
  lemma BackoffLaw(period: int, steps: seq<Step>)
    requires Legal(Initial(period), steps)
    ensures var s, k := Exec(Initial(period), steps), Failures(steps);
      && s.reconnecting == Reconnecting(steps)
      && (s.reconnecting ==> s.period == FIRST_PERIOD * Pow2(k) && (s.period <= INT64_MAX <==> k <= 53))
      && s.timer == (if Armed(steps) then Some(s.period) else None)
      && (s.timer.Some? ==> s.reconnecting)
  {
    NothingFollows(period);
    RunFollows(Initial(period), [], steps);
    assert [] + steps == steps;
    var k := Failures(steps);
    Pow2At53();
    if k <= 53 {
      Pow2Grows(k, 53);
    } else {
      Pow2Grows(54, k);
    }
  }

  /** A failed connect while the timer waits at 1000 ms leaves it armed with 2000. */
  lemma FirstFailure(period: int)
    ensures var steps := [ConnectSucceeded(true), ReadError, HandleClosed(true), ConnectFailed(true)];
      Legal(Initial(period), steps) && Exec(Initial(period), steps) == State(true, 2000, Some(2000), false)
  {
    var s1 := Next(Initial(period), ConnectSucceeded(true));
    var s2 := Next(s1, ReadError);
    var s3 := Next(s2, HandleClosed(true));
    assert s3 == State(true, 1000, Some(1000), false);
    var steps := [ConnectSucceeded(true), ReadError, HandleClosed(true), ConnectFailed(true)];
    assert steps[1..] == [ReadError, HandleClosed(true), ConnectFailed(true)];
    assert steps[1..][1..] == [HandleClosed(true), ConnectFailed(true)];
    assert steps[1..][1..][1..] == [ConnectFailed(true)];
  }

  class ReconnectControl {
    var isReconnecting: bool
    var repeatTime: int
    var timer: Option<int>
    ghost var reading: bool
    /** The callbacks so far. */
    ghost var steps: seq<Step>

    ghost function Now(): State
      reads this
    {
      State(isReconnecting, repeatTime, timer, reading)
    }

    ghost predicate Valid()
      reads this
    {
      Follows(Now(), steps)
    }

    constructor ()
      ensures Valid() && Now() == Initial(repeatTime) && steps == []
    {
      isReconnecting, timer, reading, steps := false, None, false, [];
    }

    method StartReconnect()
      modifies this`isReconnecting, this`repeatTime
      ensures isReconnecting && repeatTime == FIRST_PERIOD
    {
      isReconnecting := true;
      repeatTime := 1000;
    }

    method StopReconnect()
      modifies this`isReconnecting, this`repeatTime, this`timer
      ensures !isReconnecting && repeatTime == FIRST_PERIOD && timer == None
    {
      isReconnecting := false;
      repeatTime := 1000;
      timer := None;
    }

    method TimerStart(ok: bool)
      modifies this`timer
      ensures timer == if ok then Some(repeatTime) else None
    {
      timer := if ok then Some(repeatTime) else None;
    }

    method RestartTimer(timerOk: bool)
      modifies this`repeatTime, this`timer
      ensures repeatTime == 2 * old(repeatTime) && timer == if timerOk then Some(repeatTime) else None
    {
      timer := None;
      repeatTime := repeatTime * 2;
      TimerStart(timerOk);
    }

    method AfterConnect(status: int, readStart: int, timerOk: bool)
      requires Valid()
      modifies this
      ensures Valid()
      ensures steps == old(steps) + [if status != 0 then ConnectFailed(timerOk) else ConnectSucceeded(readStart == 0)]
      ensures Now() ==
        Next(old(Now()), if status != 0 then ConnectFailed(timerOk) else ConnectSucceeded(readStart == 0))
      ensures status != 0 && old(isReconnecting) ==>
        && isReconnecting && repeatTime == 2 * old(repeatTime)
        && timer == if timerOk then Some(repeatTime) else None
      ensures status != 0 && !old(isReconnecting) ==> Now() == old(Now())
      ensures status == 0 ==> !isReconnecting && timer == None && reading == (readStart == 0)
      ensures status == 0 && old(isReconnecting) ==> repeatTime == FIRST_PERIOD
    {
      ghost var step := if status != 0 then ConnectFailed(timerOk) else ConnectSucceeded(readStart == 0);
      StepFollows(Now(), steps, step);
      steps := steps + [step];
      if status != 0 {
        if isReconnecting {
          RestartTimer(timerOk);
        }
        return;
      }
      reading := readStart == 0;
      if isReconnecting {
        StopReconnect();
      }
    }

    /** AfterRecv with a negative length: libuv stops reading because the handle is closed. */
    method AfterRecvError()
      requires Valid() && Enabled(Now(), ReadError)
      modifies this
      ensures Valid() && steps == old(steps) + [ReadError] && Now() == Next(old(Now()), ReadError)
      ensures isReconnecting && repeatTime == FIRST_PERIOD && timer == old(timer) && !reading
    {
      StepFollows(Now(), steps, ReadError);
      steps := steps + [ReadError];
      StartReconnect();
      reading := false;
    }

    method AfterClientClose(timerOk: bool)
      requires Valid()
      modifies this`timer, this`steps
      ensures Valid() && steps == old(steps) + [HandleClosed(timerOk)]
      ensures Now() == Next(old(Now()), HandleClosed(timerOk))
      ensures timer == if !isReconnecting then old(timer) else if timerOk then Some(repeatTime) else None
    {
      StepFollows(Now(), steps, HandleClosed(timerOk));
      steps := steps + [HandleClosed(timerOk)];
      if isReconnecting {
        TimerStart(timerOk);
      }
    }

    method ReconnectTimer(connect: int, timerOk: bool)
      requires Valid() && Enabled(Now(), TimerFired(connect == 0, timerOk))
      modifies this`repeatTime, this`timer, this`steps
      ensures Valid() && steps == old(steps) + [TimerFired(connect == 0, timerOk)]
      ensures Now() == Next(old(Now()), TimerFired(connect == 0, timerOk))
      ensures connect == 0 ==> Now() == old(Now())
      ensures connect != 0 ==>
        && isReconnecting && repeatTime == 2 * old(repeatTime)
        && timer == if timerOk then Some(repeatTime) else None
    {
      StepFollows(Now(), steps, TimerFired(connect == 0, timerOk));
      steps := steps + [TimerFired(connect == 0, timerOk)];
      if !isReconnecting {
        return;
      }
      if connect == 0 {
        return;
      }
      RestartTimer(timerOk);
    }

    method CloseInl()
      requires Valid()
      modifies this
      ensures Valid() && steps == old(steps) + [UserClose] && Now() == Next(old(Now()), UserClose)
      ensures !isReconnecting && repeatTime == FIRST_PERIOD && timer == None && !reading
    {
      StepFollows(Now(), steps, UserClose);
      steps := steps + [UserClose];
      StopReconnect();
      reading := false;
    }
  }
}

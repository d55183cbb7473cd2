/** The sending side of tcpclient.cpp on a real ring buffer, one method per indivisible step. */
module TCPClient {
  import opened Bytes
  import opened Ring
  import opened RequestPool
  import opened SendPipeline
  import opened SendRuns

  /** All the loop thread has read from the ring, and what the ring still holds. */
  ghost function Flow(s: State): seq<byte> {
    Concat(s.drained) + s.queue.bytes
  }

  /** send_inl's loop when no caller interrupts it: at most one chunk, and then the ring is empty. */
  ghost function Drained(s: State, ok: bool): (d: State)
    requires Typed(s) && s.draining && s.pending == None
    ensures Typed(d) && d.queue.bytes == [] && d.queue.cap == s.queue.cap && Flow(d) == Flow(s)
    ensures !d.draining && d.pending == None
    ensures d.senders == s.senders && d.closing == s.closing && d.signalled == s.signalled
    ensures d.drained == s.drained + (if s.queue.bytes == [] then [] else [s.queue.bytes])
    ensures d.fates == s.fates + if s.queue.bytes == [] then [] else [ok]
  {
    if s.queue.bytes == [] then Next(s, DrainEnd)
    else
      DrainEmpties(s);
      Next(Next(Next(s, DrainRead), Submit(ok)), DrainEnd)
  }

  /** A callback that libuv may make while a caller sleeps, and what uv_write returns in it: something
      is received, or a request completes with a status. */
  datatype Callback = Received(uvWrite: int) | Completed(req: nat, status: int, uvWrite: int)

  /** The callbacks of a sleep, in order. */
  ghost function Served(s: State, callbacks: seq<Callback>): (t: State)
    requires Typed(s) && !s.draining && s.pending == None
    ensures Typed(t) && !t.draining && t.pending == None && t.queue.cap == s.queue.cap
    ensures t.senders == s.senders && t.closing == s.closing && t.signalled == s.signalled
    decreases |callbacks|
  {
    if callbacks == [] then s
    else
      var t := match callbacks[0]
        case Received(uvWrite) => Drained(Next(s, Receive), uvWrite == 0)
        case Completed(req, status, uvWrite) =>
          if req !in s.pool.flying then s
          else if status < 0 then Next(s, AfterSend(req, false))
          else Drained(Next(s, AfterSend(req, true)), uvWrite == 0);
      Served(t, callbacks[1..])
  }

  /** A sleep of a lone caller: the outstanding signal, if there is one, and then the callbacks. */
  ghost function Slept(s: State, sleep: Sleep): (t: State)
    requires Typed(s) && !s.draining && s.pending == None
    ensures Typed(t) && !t.draining && t.pending == None && t.queue.cap == s.queue.cap
    ensures t.senders == s.senders && t.closing == s.closing && !t.signalled
  {
    var t := if !s.signalled then s
      else if s.closing then Next(s, AsyncCB)
      else Drained(Next(s, AsyncCB), sleep.uvWrite == 0);
    Served(t, sleep.callbacks)
  }

  /** A turn of Send's loop up to its sleep. */
  ghost function Attempted(s: State, id: nat): (t: State)
    requires Typed(s) && At(s, id, Checking)
    ensures Typed(t) && t.draining == s.draining && t.pending == s.pending && t.queue.cap == s.queue.cap
    ensures id in t.senders && t.closing == s.closing && t.signalled == s.signalled
  {
    var t := Next(s, Check(id));
    if s.closing then t else Next(t, Write(id))
  }

  /** Send's loop of a lone caller, for as many sleeps as are given. */
  ghost function Looped(s: State, id: nat, sleeps: seq<Sleep>): State
    requires Typed(s) && At(s, id, Checking) && !s.draining && s.pending == None
    decreases |sleeps|
  {
    var t := Attempted(s, id);
    if At(t, id, Checking) && sleeps != [] then Looped(Slept(t, sleeps[0]), id, sleeps[1..]) else t
  }

  /** All of Send for a lone caller: its start, its loop, and, if it leaves that, its end. */
  ghost function SendRun(s: State, id: nat, data: seq<byte>, sleeps: seq<Sleep>): State
    requires Typed(s) && id !in s.senders && !s.draining && s.pending == None
  {
    var t := Next(s, Start(id, data));
    if data == [] then t
    else
      var u := Looped(t, id, sleeps);
      if At(u, id, Signalling) && Typed(u) then Next(u, Finish(id)) else u
  }

  /** A turn of Send's loop under the mutex: the ring is offered all that is left, as a 32-bit int, and
      takes nothing or the front of it; the caller goes on until nothing is left. */
  ghost predicate Wrote(id: nat, s: State, t: State) {
    && id in s.senders && s.senders[id].iret <= |s.senders[id].data|
    && var c, q := s.senders[id], s.queue;
    var count := NarrowToInt32(|c.data| - c.iret);
    var n := if WriteRefused(q, count) then 0 else Min(count, q.cap);
    && 0 <= n <= |c.data| - c.iret
    && t.senders == s.senders[id := Sender(c.data, c.iret + n, if c.iret + n < |c.data| then Checking else Signalling)]
    && t.queue == Queue(q.cap, q.start, q.bytes + c.data[c.iret..c.iret + n])
    && t.accepted == s.accepted + if n == 0 then [] else [Piece(id, c.data[c.iret..c.iret + n])]
  }

  /** What happens while a caller sleeps: `uvWrite` is what uv_write returns if a signal is served,
      and the callbacks come after that. A completion of a request not in flight does not happen. */
  datatype Sleep = Sleep(uvWrite: int, callbacks: seq<Callback>)

  /** Some callback enters send_inl: a receive, or the completion without error of a request in flight. */
  predicate Enters(callbacks: seq<Callback>, flying: set<nat>) {
    callbacks != [] &&
    match callbacks[0]
    case Received(_) => true
    case Completed(req, status, _) =>
      if req !in flying then Enters(callbacks[1..], flying)
      else status >= 0 || Enters(callbacks[1..], flying - {req})
  }

  /** Only completions with an error. */
  ghost predicate Failing(callbacks: seq<Callback>) {
    forall callback <- callbacks :: callback.Completed? && callback.status < 0
  }

  /** The requests that complete. */
  function Named(callbacks: seq<Callback>): set<nat> {
    if callbacks == [] then {}
    else (if callbacks[0].Completed? then {callbacks[0].req} else {}) + Named(callbacks[1..])
  }

  /** Something makes the loop thread look at the ring during the sleep. */
  predicate Wakes(s: State, sleep: Sleep) {
    (s.signalled && !s.closing) || Enters(sleep.callbacks, s.pool.flying)
  }

  class TCPClient {
    const maxBufferSize: int32
    const writeCircularBuf: CircularBuffer
    /** The buffer of the request the loop thread is filling. */
    const requestBuf: array<byte>
    var isUserAskForClosed: bool
    var writeParamList: Pool

    /** Where the threads are: the local variables of the Send calls by caller, whether the async
        handle is signalled, whether the loop thread is in send_inl, and what it has in hand there. */
    var senders: map<nat, Sender>
    var signalled: bool
    var draining: bool
    var pending: Option<(nat, seq<byte>)>

    ghost var accepted: seq<Piece>
    ghost var drained: seq<seq<byte>>
    ghost var fates: seq<bool>

    ghost predicate Shaped()
      reads this, writeCircularBuf
    {
      && writeCircularBuf.Valid() && writeCircularBuf.bufSize == maxBufferSize
      && requestBuf.Length == maxBufferSize as int && requestBuf != writeCircularBuf.buf
      && forall id <- senders :: senders[id].iret <= |senders[id].data|
    }

    ghost function Now(): (s: State)
      requires Shaped()
      reads this, writeCircularBuf, writeCircularBuf.buf
      ensures Typed(s) && s.queue.cap == maxBufferSize as int
    {
      State(writeCircularBuf.Contents(), isUserAskForClosed, senders, signalled, draining, pending, writeParamList,
            accepted, drained, fates)
    }

    /** The object is in a state that some run of the send path leads to, so everything proved of
        reachable states holds of it: conservation, prefixes, the piece law, request accounting. */
    ghost predicate Valid()
      reads this, writeCircularBuf, writeCircularBuf.buf
    {
      Shaped() && Inv(Now()) && Reachable(maxBufferSize as int, Now())
    }

    constructor (capacity: int32)
      requires capacity > 0
      ensures Valid() && Now() == Initial(capacity as int)
    {
      maxBufferSize := capacity;
      writeCircularBuf := new CircularBuffer(capacity);
      requestBuf := new byte[capacity as int];
      isUserAskForClosed := false;
      writeParamList := EMPTY_POOL;
      signalled, draining, pending := false, false, None;
      senders := map[];
      accepted, drained, fates := [], [], [];
      new;
      InitialInv(capacity as int);
      InitialReachable(capacity as int);
    }

    /** Send is called: an empty message is refused at once, and any other signals the loop thread. */
    method BeginSend(id: nat, data: seq<byte>)
      requires Valid() && id !in senders
      modifies this`senders, this`signalled
      ensures Valid() && Now() == Next(old(Now()), Start(id, data))
      ensures senders == old(senders)[id := Sender(data, 0, if data == [] then Returned else Checking)]
      ensures signalled <==> old(signalled) || data != []
    {
      hide Inv, Reachable;
      ReachableStep(maxBufferSize as int, Now(), Start(id, data));
      if |data| <= 0 {
        senders := senders[id := Sender(data, 0, Returned)];
        return;
      }
      signalled := true;
      senders := senders[id := Sender(data, 0, Checking)];
    }

    /** The condition of Send's loop. */
    method TestClosing(id: nat)
      requires Valid() && Enabled(Now(), Check(id))
      modifies this`senders
      ensures Valid() && Now() == Next(old(Now()), Check(id))
      ensures senders == old(senders)[id := old(senders)[id].(pc := if isUserAskForClosed then Signalling else Writing)]
    {
      hide Inv, Reachable;
      ReachableStep(maxBufferSize as int, Now(), Check(id));
      if !isUserAskForClosed {
        senders := senders[id := senders[id].(pc := Writing)];
      } else {
        senders := senders[id := senders[id].(pc := Signalling)];
      }
    }

    /** The body of Send's loop, under the mutex: offer all that is left, keep what is taken. */
    method TryWrite(id: nat)
      requires Valid() && Enabled(Now(), SendPipeline.Write(id))
      modifies this`senders, this`accepted, writeCircularBuf, writeCircularBuf.buf
      ensures Valid() && Now() == Next(old(Now()), SendPipeline.Write(id))
      ensures Wrote(id, old(Now()), Now())
    {
      hide Inv, Reachable, Next, Queue.Accepts, NarrowToInt32, Wrote, CircularBuffer.Valid, CircularBuffer.Contents;
      ReachableStep(maxBufferSize as int, Now(), SendPipeline.Write(id));
      var c := senders[id];
      var iret := c.iret;
      WriteEffect(Now(), id);
      WriteFields(Now(), id);
      var n := writeCircularBuf.Write(c.data[iret..], NarrowToInt32(|c.data| - iret) as int32);
      iret := iret + n as int;
      senders := senders[id := Sender(c.data, iret, if iret < |c.data| then Checking else Signalling)];
      if n != 0 {
        accepted := accepted + [Piece(id, c.data[c.iret..][..n])];
      }
    }

    /** Send's second signal, behind its loop. */
    method FinishSend(id: nat) returns (sent: bool)
      requires Valid() && Enabled(Now(), Finish(id))
      modifies this`senders, this`signalled
      ensures Valid() && Now() == Next(old(Now()), Finish(id))
      ensures sent <==> old(senders)[id].iret > 0
      ensures senders == old(senders)[id := old(senders)[id].(pc := Returned)] && signalled
    {
      hide Inv, Reachable;
      ReachableStep(maxBufferSize as int, Now(), Finish(id));
      signalled := true;
      senders := senders[id := senders[id].(pc := Returned)];
      return senders[id].iret > 0;
    }

    method Close()
      requires Valid()
      modifies this`isUserAskForClosed, this`signalled
      ensures Valid() && Now() == Next(old(Now()), SendPipeline.Close)
      ensures isUserAskForClosed && signalled
    {
      hide Inv, Reachable;
      ReachableStep(maxBufferSize as int, Now(), SendPipeline.Close);
      isUserAskForClosed := true;
      signalled := true;
    }

    /** The async callback up to its call of send_inl; on a close it closes the handles instead. */
    method AsyncCB()
      requires Valid() && Enabled(Now(), SendPipeline.AsyncCB)
      modifies this`signalled, this`draining
      ensures Valid() && Now() == Next(old(Now()), SendPipeline.AsyncCB)
      ensures !signalled && draining == !isUserAskForClosed
    {
      hide Inv, Reachable;
      ReachableStep(maxBufferSize as int, Now(), SendPipeline.AsyncCB);
      signalled := false;
      if isUserAskForClosed {
        return;
      }
      draining := true;
    }

    /** The receive callback, without an error, up to its call of send_inl. */
    method AfterRecv()
      requires Valid() && Enabled(Now(), Receive)
      modifies this`draining
      ensures Valid() && Now() == Next(old(Now()), Receive)
      ensures draining
    {
      hide Inv, Reachable;
      ReachableStep(maxBufferSize as int, Now(), Receive);
      draining := true;
    }

    /** The write callback gives its request back whatever its status; without an error it goes on
        in send_inl. */
    method AfterSend(req: nat, status: int)
      requires Valid() && Enabled(Now(), SendPipeline.AfterSend(req, status >= 0))
      modifies this`writeParamList, this`draining
      ensures Valid() && Now() == Next(old(Now()), SendPipeline.AfterSend(req, status >= 0))
      ensures draining == (status >= 0)
      ensures writeParamList.flying == old(writeParamList.flying) - {req}
      ensures writeParamList.next == old(writeParamList.next)
      ensures if |old(writeParamList.free)| <= MAXLISTSIZE
        then && writeParamList.free == old(writeParamList.free) + [req]
             && writeParamList.freed == old(writeParamList.freed)
        else && writeParamList.free == old(writeParamList.free)
             && writeParamList.freed == old(writeParamList.freed) + {req}
    {
      hide Inv, Reachable;
      ReachableStep(maxBufferSize as int, Now(), SendPipeline.AfterSend(req, status >= 0));
      writeParamList := writeParamList.Land(req);
      if status < 0 {
        return;
      }
      draining := true;
    }

    /** send_inl under the mutex: take a request and read the ring into its buffer. */
    method ReadRing()
      requires Valid() && Enabled(Now(), DrainRead)
      modifies this`writeParamList, this`pending, this`drained, writeCircularBuf, requestBuf
      ensures Valid() && Now() == Next(old(Now()), DrainRead)
      ensures var q, list := old(writeCircularBuf.Contents()), old(writeParamList);
        && writeCircularBuf.Contents().bytes == [] && drained == old(drained) + [q.bytes]
        && pending == Some((if list.free == [] then list.next else list.free[0], q.bytes))
        && writeParamList == (if list.free == [] then Pool([], list.flying, list.freed, list.next + 1)
                              else Pool(list.free[1..], list.flying, list.freed, list.next))
    {
      hide Inv, Reachable, CircularBuffer.Valid, CircularBuffer.Contents;
      ReachableStep(maxBufferSize as int, Now(), DrainRead);
      ReadFields(Now());
      var writep := writeParamList.Head();
      writeParamList := writeParamList.Take();
      var len := writeCircularBuf.Read(requestBuf, maxBufferSize);
      pending := Some((writep, requestBuf[..len]));
      drained := drained + [requestBuf[..len]];
    }

    /** send_inl after the mutex: uv_write returned `iret`. */
    method Submitted(iret: int)
      requires Valid() && Enabled(Now(), Submit(iret == 0))
      modifies this`writeParamList, this`pending, this`fates
      ensures Valid() && Now() == Next(old(Now()), Submit(iret == 0))
      ensures pending == None && fates == old(fates) + [iret == 0]
      ensures var req, list := old(pending).value.0, old(writeParamList);
        && writeParamList.freed == list.freed && writeParamList.next == list.next
        && (iret != 0 ==> writeParamList.flying == list.flying && writeParamList.free == list.free + [req])
        && (iret == 0 ==> writeParamList.flying == list.flying + {req} && writeParamList.free == list.free)
    {
      hide Inv, Reachable;
      ReachableStep(maxBufferSize as int, Now(), Submit(iret == 0));
      if iret != 0 {
        writeParamList := writeParamList.PutBack(pending.value.0);
      } else {
        writeParamList := writeParamList.Launch(pending.value.0);
      }
      fates := fates + [iret == 0];
      pending := None;
    }

    /** send_inl finds the ring empty and returns. */
    method LeaveSendInl()
      requires Valid() && Enabled(Now(), DrainEnd)
      modifies this`draining
      ensures Valid() && Now() == Next(old(Now()), DrainEnd)
      ensures !draining
    {
      hide Inv, Reachable;
      ReachableStep(maxBufferSize as int, Now(), DrainEnd);
      draining := false;
    }

    /** send_inl when no caller interrupts it. */
    method SendInl(uvWrite: int)
      requires Valid() && draining && pending == None
      modifies this`writeParamList, this`pending, this`drained, this`fates, this`draining, writeCircularBuf, requestBuf
      ensures Valid() && Now() == Drained(old(Now()), uvWrite == 0)
      ensures var bytes := old(Now()).queue.bytes;
        && drained == old(drained) + (if bytes == [] then [] else [bytes])
        && fates == old(fates) + if bytes == [] then [] else [uvWrite == 0]
    {
      hide Inv, Reachable, Next;
      ghost var before := Now();
      LoopGuards(before, uvWrite == 0);
      while !writeCircularBuf.Empty()
        invariant Valid() && pending == None && draining
        invariant Now() == before
          || (before.queue.bytes != [] && Now().queue.bytes == []
              && Enabled(before, DrainRead) && Enabled(Next(before, DrainRead), Submit(uvWrite == 0))
              && Now() == Next(Next(before, DrainRead), Submit(uvWrite == 0)))
        decreases |Now().queue.bytes|
      {
        ReadRing();
        Submitted(uvWrite);
      }
      LeaveSendInl();
    }

    /** One sleep of a lone caller: the loop thread serves the outstanding signal, if there is one, and
        then the callbacks. The ring is emptied if that includes a drain, and otherwise not looked at. */
    method Sleeping(sleep: Sleep)
      requires Valid() && !draining && pending == None
      modifies this`signalled, this`writeParamList, this`pending, this`drained, this`fates, this`draining
      modifies writeCircularBuf, requestBuf
      ensures Valid() && Now() == Slept(old(Now()), sleep)
      ensures Flow(Now()) == Flow(old(Now()))
      ensures Wakes(old(Now()), sleep) ==> Now().queue.bytes == []
      ensures !Wakes(old(Now()), sleep) ==> Now().queue == old(Now()).queue && drained == old(drained)
    {
      hide Inv, Reachable, Flow, Wakes, CircularBuffer.Valid, CircularBuffer.Contents;
      SleptLaw(Now(), sleep);
      if signalled {
        AsyncCB();
        if draining {
          SendInl(sleep.uvWrite);
        }
      }
      ServeCallbacks(sleep.callbacks);
    }

    /** The callbacks of one sleep, in order. */
    method ServeCallbacks(callbacks: seq<Callback>)
      requires Valid() && !draining && pending == None
      modifies this`writeParamList, this`pending, this`drained, this`fates, this`draining
      modifies writeCircularBuf, requestBuf
      ensures Valid() && Now() == Served(old(Now()), callbacks)
      ensures Flow(Now()) == Flow(old(Now()))
      ensures old(Now()).queue.bytes == [] || Enters(callbacks, old(writeParamList.flying)) ==> Now().queue.bytes == []
      ensures !Enters(callbacks, old(writeParamList.flying)) ==>
        Now().queue == old(Now()).queue && drained == old(drained)
      ensures Failing(callbacks) ==> writeParamList.flying == old(writeParamList.flying) - Named(callbacks)
    {
      hide Inv, Reachable, Flow, Drained, Enters, Failing, Named, CircularBuffer.Valid, CircularBuffer.Contents;
      ServedLaw(Now(), callbacks);
      ghost var before := Now();
      assert callbacks[0..] == callbacks;
      for i := 0 to |callbacks|
        invariant Valid() && !draining && pending == None
        invariant Served(before, callbacks) == Served(Now(), callbacks[i..])
      {
        assert callbacks[i..][1..] == callbacks[i + 1..];
        match callbacks[i]
        case Received(uvWrite) =>
          AfterRecv();
          SendInl(uvWrite);
        case Completed(req, status, uvWrite) =>
          if req in writeParamList.flying {
            AfterSend(req, status);
            if draining {
              SendInl(uvWrite);
            }
          }
      }
    }

    /** One turn of Send's loop up to its sleep. */
    method Attempt(id: nat)
      requires Valid() && At(Now(), id, Checking)
      modifies this`senders, this`accepted, writeCircularBuf, writeCircularBuf.buf
      ensures Valid() && Now() == Attempted(old(Now()), id)
    {
      hide Inv, Reachable, Next;
      AttemptGuards(Now(), id);
      TestClosing(id);
      if senders[id].pc == Writing {
        TryWrite(id);
      }
    }

    /** Send with no other caller about, for as many sleeps as are given: `returned` says whether it
        is back by then. A message that fits the ring is back after one sleep. A longer one gets at
        most two rings' worth in, one before and one after its own signal is served, unless
        something is received or an earlier write completes. */
    method Send(id: nat, data: seq<byte>, sleeps: seq<Sleep>) returns (returned: bool, sent: bool)
      requires Valid() && !draining && pending == None && id !in senders
      modifies this`senders, this`accepted, this`signalled
      modifies this`writeParamList, this`pending, this`drained, this`fates, this`draining
      modifies writeCircularBuf, writeCircularBuf.buf, requestBuf
      ensures Valid() && !draining && pending == None
      ensures Now() == SendRun(old(Now()), id, data, sleeps)
      ensures At(Now(), id, if returned then Returned else Checking) && senders[id].data == data
      ensures Flow(Now()) == Flow(old(Now())) + data[..senders[id].iret]
      ensures sent <==> returned && senders[id].iret > 0
      ensures isUserAskForClosed ==> returned && senders[id].iret == 0
      ensures !isUserAskForClosed ==> (returned <==> senders[id].iret == |data|)
      ensures |data| <= maxBufferSize as int && |sleeps| >= 1 ==> returned
      ensures Quiet(sleeps) ==> senders[id].iret <= 2 * maxBufferSize as int
    {
      hide Inv, Reachable, Next, Flow, Looped, Quiet, CircularBuffer.Valid, CircularBuffer.Contents;
      StartEffect(Now(), id, data);
      BeginSend(id, data);
      if senders[id].pc == Returned {
        return true, false;
      }
      LoopedLaw(Now(), id, sleeps, Quiet(sleeps), 0);
      SendLoop(id, sleeps);
      if senders[id].pc == Checking {
        return false, false;
      }
      FinishEffect(Now(), id);
      sent := FinishSend(id);
      returned := true;
    }

    /** Send's loop, from its entry until it is left or the given sleeps are over. */
    method SendLoop(id: nat, sleeps: seq<Sleep>)
      requires Valid() && !draining && pending == None && At(Now(), id, Checking)
      modifies this`senders, this`accepted, this`signalled
      modifies this`writeParamList, this`pending, this`drained, this`fates, this`draining
      modifies writeCircularBuf, writeCircularBuf.buf, requestBuf
      ensures Valid() && Now() == Looped(old(Now()), id, sleeps)
    {
      hide Inv, Reachable, Next, Flow, Attempted, Slept, Wakes, CircularBuffer.Valid, CircularBuffer.Contents;
      var turn := 0;
      ghost var start := Now();
      assert sleeps[0..] == sleeps;
      while senders[id].pc == Checking
        invariant Valid() && !draining && pending == None && turn <= |sleeps| && id in senders
        invariant Looped(start, id, sleeps) ==
          if senders[id].pc == Checking then Looped(Now(), id, sleeps[turn..]) else Now()
        decreases |sleeps| - turn, if senders[id].pc == Checking then 1 else 0
      {
        Attempt(id);
        if senders[id].pc == Checking {
          if turn == |sleeps| {
            return;
          }
          assert sleeps[turn..][0] == sleeps[turn] && sleeps[turn..][1..] == sleeps[turn + 1..];
          Sleeping(sleeps[turn]);
          turn := turn + 1;
        }
      }
    }
  }

  /** The Write step, by what is left of the caller's data. */
  lemma WriteEffect(s: State, id: nat)
    requires Typed(s) && Enabled(s, Write(id))
    ensures var c := s.senders[id];
      var rest := c.data[c.iret..];
      var n := s.queue.Accepts(NarrowToInt32(|rest|));
      && n <= |rest|
      && Next(s, Write(id)) ==
           s.(queue := s.queue.Put(rest[..n]),
              senders := s.senders[id :=
                Sender(c.data, c.iret + n, if c.iret + n < |c.data| then Checking else Signalling)],
              accepted := if n == 0 then s.accepted else s.accepted + [Piece(id, rest[..n])])
  {
    var c := s.senders[id];
    var n := Taken(s, c);
    assert c.data[c.iret..][..n] == c.data[c.iret..c.iret + n];
  }

  /** The Write and DrainRead steps, field by field. */
  lemma WriteFields(s: State, id: nat)
    requires Typed(s) && Enabled(s, Write(id))
    ensures Wrote(id, s, Next(s, Write(id)))
  {
    var c := s.senders[id];
    AcceptanceLaw(s.queue, NarrowToInt32(|c.data| - c.iret));
    assert s.accepted + [] == s.accepted;
  }

  lemma ReadFields(s: State)
    requires Typed(s) && Enabled(s, DrainRead)
    ensures var t, list := Next(s, DrainRead), s.pool;
      && t.queue.bytes == [] && t.drained == s.drained + [s.queue.bytes]
      && t.pending == Some((if list.free == [] then list.next else list.free[0], s.queue.bytes))
      && t.pool == (if list.free == [] then Pool([], list.flying, list.freed, list.next + 1)
                    else Pool(list.free[1..], list.flying, list.freed, list.next))
  {
    DrainEmpties(s);
  }

  lemma LoopGuards(s: State, ok: bool)
    requires Typed(s) && s.draining && s.pending == None
    ensures s.queue.bytes == [] ==> Enabled(s, DrainEnd)
    ensures s.queue.bytes != [] ==>
      && Enabled(s, DrainRead)
      && var t := Next(s, DrainRead);
      && Typed(t) && Enabled(t, Submit(ok)) && t.queue.bytes == []
      && var u := Next(t, Submit(ok));
      && Typed(u) && u.queue.bytes == [] && u.pending == None && Enabled(u, DrainEnd)
  {
  }

  lemma WakeEffect(s: State)
    requires Typed(s) && !s.draining && s.pending == None
    ensures s.signalled ==>
      var t := Next(s, AsyncCB);
      && Typed(t) && Flow(t) == Flow(s) && t.queue == s.queue && t.drained == s.drained && t.pool == s.pool
    ensures var t := Next(s, Receive);
      && Typed(t) && Flow(t) == Flow(s) && t.queue == s.queue
  {
  }

  lemma LandEffect(s: State, req: nat, ok: bool)
    requires Typed(s) && Enabled(s, AfterSend(req, ok))
    ensures var t := Next(s, AfterSend(req, ok));
      && Typed(t) && Flow(t) == Flow(s)
      && t.queue == s.queue && t.drained == s.drained && t.pool.flying == s.pool.flying - {req}
  {
  }

  /** The callbacks lose nothing, and empty the ring if one of them enters send_inl. */
  lemma {:induction false} ServedLaw(s: State, callbacks: seq<Callback>)
    requires Typed(s) && !s.draining && s.pending == None
    ensures var t := Served(s, callbacks);
      && Flow(t) == Flow(s)
      && (s.queue.bytes == [] || Enters(callbacks, s.pool.flying) ==> t.queue.bytes == [])
      && (!Enters(callbacks, s.pool.flying) ==> t.queue == s.queue && t.drained == s.drained)
      && (Failing(callbacks) ==> t.pool.flying == s.pool.flying - Named(callbacks))
    decreases |callbacks|
  {
    hide Flow, Drained;
    if callbacks != [] {
      assert callbacks[0] in callbacks && forall callback <- callbacks[1..] :: callback in callbacks;
      WakeEffect(s);
      match callbacks[0]
      case Received(uvWrite) =>
        ServedLaw(Drained(Next(s, Receive), uvWrite == 0), callbacks[1..]);
      case Completed(req, status, uvWrite) =>
        if req !in s.pool.flying {
          ServedLaw(s, callbacks[1..]);
        } else {
          LandEffect(s, req, status >= 0);
          var t := Next(s, AfterSend(req, status >= 0));
          ServedLaw(if status < 0 then t else Drained(t, uvWrite == 0), callbacks[1..]);
        }
    }
  }

  lemma SleptLaw(s: State, sleep: Sleep)
    requires Typed(s) && !s.draining && s.pending == None
    ensures var t := Slept(s, sleep);
      && Flow(t) == Flow(s)
      && (Wakes(s, sleep) ==> t.queue.bytes == [])
      && (!Wakes(s, sleep) ==> t.queue == s.queue && t.drained == s.drained)
  {
    hide Flow, Drained, Enters;
    WakeEffect(s);
    var t := if !s.signalled then s
      else if s.closing then Next(s, AsyncCB)
      else Drained(Next(s, AsyncCB), sleep.uvWrite == 0);
    ServedLaw(t, sleep.callbacks);
  }

  lemma AttemptGuards(s: State, id: nat)
    requires Typed(s) && At(s, id, Checking)
    ensures var t := Next(s, Check(id));
      Typed(t) && At(t, id, if s.closing then Signalling else Writing)
  {
  }

  /** What a write adds to the flow, and what is left for the next one. */
  lemma TakenOnce(s: State, id: nat)
    requires Typed(s) && At(s, id, Writing) && s.senders[id].iret <= Reach(|s.senders[id].data|)
    ensures var t, c, n := Next(s, Write(id)), s.senders[id], Taken(s, s.senders[id]);
      && Typed(t) && t.queue == s.queue.Put(c.data[c.iret..c.iret + n])
      && n <= s.queue.cap && c.iret + n <= Reach(|c.data|)
      && t.drained == s.drained && t.closing == s.closing && t.signalled == s.signalled
      && t.senders
           == s.senders[id := c.(iret := c.iret + n, pc := if c.iret + n < |c.data| then Checking else Signalling)]
      && Taken(t, t.senders[id]) == 0
      && (s.queue.bytes == [] && |c.data| <= s.queue.cap ==> c.iret + n == |c.data|)
  {
    hide Reach, Taken;
    TakenAmount(s, s.senders[id]);
    var t := Next(s, Write(id));
    TakenAmount(t, t.senders[id]);
    if Taken(s, s.senders[id]) == 0 {
      assert s.queue.bytes + [] == s.queue.bytes;
      SameTaken(s, t, id);
    }
  }

  /** A turn of Send's loop: a close ends it; otherwise it gets in what the ring takes, and unless
      that was everything the ring then takes no more. */
  lemma AttemptEffect(s: State, id: nat)
    requires Typed(s) && At(s, id, Checking) && s.senders[id].iret <= Reach(|s.senders[id].data|)
    ensures var t, c := Attempted(s, id), s.senders[id];
      && t.senders[id].data == c.data
      && c.iret <= t.senders[id].iret <= Min(Reach(|c.data|), c.iret + s.queue.cap)
      && Flow(t) == Flow(s) + c.data[c.iret..t.senders[id].iret]
      && (s.closing ==> At(t, id, Signalling) && t.senders[id].iret == c.iret)
      && (!s.closing ==>
            && t.senders[id].pc == (if t.senders[id].iret < |c.data| then Checking else Signalling)
            && Taken(t, t.senders[id]) == 0
            && (Taken(s, c) == 0 ==> t.senders[id].iret == c.iret)
            && (s.queue.bytes == [] && |c.data| <= s.queue.cap ==> t.senders[id].iret == |c.data|))
  {
    hide Flow, Taken, Next, Reach;
    CheckEffect(s, id);
    if !s.closing {
      var t := Next(s, Check(id));
      SameTaken(s, t, id);
      TakenOnce(t, id);
      var c := t.senders[id];
      PutFlow(t, Next(t, Write(id)), c.data[c.iret..c.iret + Taken(t, c)]);
    } else {
      assert Flow(s) + [] == Flow(s);
    }
  }

  lemma CheckEffect(s: State, id: nat)
    requires Typed(s) && At(s, id, Checking)
    ensures var t := Next(s, Check(id));
      && Typed(t) && t.queue == s.queue && t.closing == s.closing && t.signalled == s.signalled
      && t.drained == s.drained && Flow(t) == Flow(s)
      && id in t.senders && t.senders[id] == s.senders[id].(pc := if s.closing then Signalling else Writing)
  {
  }

  lemma PutFlow(s: State, t: State, piece: seq<byte>)
    requires t.drained == s.drained && t.queue == s.queue.Put(piece)
    ensures Flow(t) == Flow(s) + piece
  {
  }

  lemma SameTaken(s: State, t: State, id: nat)
    requires Typed(s) && Typed(t) && id in s.senders && id in t.senders && s.queue == t.queue
    requires s.senders[id].data == t.senders[id].data && s.senders[id].iret == t.senders[id].iret
    ensures Taken(t, t.senders[id]) == Taken(s, s.senders[id])
  {
  }

  lemma StartEffect(s: State, id: nat, data: seq<byte>)
    requires Typed(s) && id !in s.senders
    ensures var t := Next(s, Start(id, data));
      && t.closing == s.closing && t.pending == s.pending && t.draining == s.draining
      && id in t.senders && t.senders[id] == Sender(data, 0, if data == [] then Returned else Checking)
      && (data != [] ==> t.signalled) && Flow(t) == Flow(s) + data[..0]
  {
  }

  lemma FinishEffect(s: State, id: nat)
    requires Typed(s) && Enabled(s, Finish(id))
    ensures Flow(Next(s, Finish(id))) == Flow(s)
    ensures Next(s, Finish(id)).senders == s.senders[id := s.senders[id].(pc := Returned)]
  {
  }

  /** Nothing is received in these sleeps and no write completes without an error. */
  ghost predicate Quiet(sleeps: seq<Sleep>) {
    forall sleep <- sleeps :: Failing(sleep.callbacks)
  }

  lemma {:induction false} FailingNeverEnters(callbacks: seq<Callback>, flying: set<nat>)
    requires Failing(callbacks)
    ensures !Enters(callbacks, flying)
    decreases |callbacks|
  {
    if callbacks != [] {
      assert callbacks[0] in callbacks && forall callback <- callbacks[1..] :: callback in callbacks;
      FailingNeverEnters(callbacks[1..], flying);
      FailingNeverEnters(callbacks[1..], flying - {callbacks[0].req});
    }
  }

  /** A lone caller in its loop after `turn` sleeps: the first of them served its signal. `quiet` says
      that none of them drained for another reason. */
  ghost predicate Progressed(s: State, id: nat, quiet: bool, turn: nat)
    requires Typed(s) && id in s.senders
  {
    var c, cap := s.senders[id], s.queue.cap;
    && c.iret < |c.data| && c.iret <= Reach(|c.data|)
    && (turn == 0 ==> c.iret == 0 && s.signalled)
    && (turn >= 1 ==> !s.signalled && !s.closing && (|c.data| <= cap ==> s.queue.bytes == []))
    && (quiet && turn == 1 ==> c.iret <= cap)
    && (quiet && turn >= 2 ==> c.iret <= 2 * cap && Taken(s, c) == 0)
  }

  /** From behind an attempt to behind the sleep that follows it. */
  lemma SleepProgress(s: State, id: nat, sleep: Sleep, quiet: bool, turn: nat)
    requires Typed(s) && !s.draining && s.pending == None && id in s.senders && !s.closing
    requires s.signalled <==> turn == 0
    requires var c, cap := s.senders[id], s.queue.cap;
      && c.iret < |c.data| && c.iret <= Reach(|c.data|) && Taken(s, c) == 0 && (|c.data| <= cap ==> turn == 0)
      && (quiet ==> Failing(sleep.callbacks) && c.iret <= if turn == 0 then cap else 2 * cap)
    ensures Progressed(Slept(s, sleep), id, quiet, turn + 1) && Flow(Slept(s, sleep)) == Flow(s)
  {
    hide Taken, Enters, Slept, Failing, Flow, Reach;
    SleptLaw(s, sleep);
    if quiet {
      FailingNeverEnters(sleep.callbacks, s.pool.flying);
    }
    var t := Slept(s, sleep);
    if t.queue == s.queue {
      SameTaken(s, t, id);
    }
  }

  /** What comes of Send's loop. */
  lemma {:induction false} LoopedLaw(s: State, id: nat, sleeps: seq<Sleep>, quiet: bool, turn: nat)
    requires Typed(s) && At(s, id, Checking) && !s.draining && s.pending == None
    requires Progressed(s, id, quiet, turn) && (quiet ==> Quiet(sleeps))
    ensures var t, c, cap := Looped(s, id, sleeps), s.senders[id], s.queue.cap;
      && Typed(t) && !t.draining && t.pending == None && t.closing == s.closing && id in t.senders
      && var d := t.senders[id];
      && d.data == c.data && c.iret <= d.iret <= |d.data| && d.pc in {Checking, Signalling}
      && Flow(t) == Flow(s) + c.data[c.iret..d.iret]
      && (s.closing ==> d.pc == Signalling && d.iret == c.iret)
      && (!s.closing ==> (d.pc == Signalling <==> d.iret == |d.data|))
      && (|d.data| <= cap && turn + |sleeps| >= 1 ==> d.pc == Signalling)
      && (quiet ==> d.iret <= 2 * cap)
    decreases |sleeps|
  {
    hide Taken, Flow, Attempted, Slept, Failing, Reach;
    AttemptEffect(s, id);
    var t, c := Attempted(s, id), s.senders[id];
    if At(t, id, Checking) && sleeps != [] {
      assert sleeps[0] in sleeps && forall sleep <- sleeps[1..] :: sleep in sleeps;
      SleepProgress(t, id, sleeps[0], quiet, turn);
      LoopedLaw(Slept(t, sleeps[0]), id, sleeps[1..], quiet, turn + 1);
      var d := Looped(s, id, sleeps).senders[id];
      SliceJoins(Flow(s), c.data, c.iret, t.senders[id].iret, d.iret);
    }
  }

  lemma SliceJoins(before: seq<byte>, data: seq<byte>, i: nat, j: nat, k: nat)
    requires i <= j <= k <= |data|
    ensures before + data[i..j] + data[j..k] == before + data[i..k]
  {
    assert data[i..j] + data[j..k] == data[i..k];
  }
}

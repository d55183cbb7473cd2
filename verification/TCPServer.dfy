/** The event-loop callbacks of tcpserver.cpp: connection contexts, write requests, broadcast. */
module TCPServer {
  import opened Bytes
  import opened RequestPool
  import opened ServerContexts

  const BUFFER_SIZE: nat := 1024 * 10

  /** One uv_write: to which context, what, and whether it was accepted. */
  datatype Submission = Submission(ctx: nat, data: seq<byte>, ok: bool)

  ghost predicate Ascending(ids: seq<int>) {
    forall i, j :: 0 <= i < j < |ids| ==> ids[i] < ids[j]
  }

  /** The ids a broadcast goes to. */
  function Targets(ids: seq<int>, exclude: set<int>): seq<int> {
    if ids == [] then []
    else
      var front, last := ids[..|ids| - 1], ids[|ids| - 1];
      if last in exclude then Targets(front, exclude) else Targets(front, exclude) + [last]
  }

  /** The broadcast list is exactly the registered ids not excluded, each once, ascending. */
  lemma {:induction false} TargetsExact(ids: seq<int>, exclude: set<int>)
    requires Ascending(ids)
    ensures var t := Targets(ids, exclude);
      && Ascending(t) && (forall id :: id in t <==> id in ids && id !in exclude)
      && (t != [] ==> ids != [] && t[|t| - 1] <= ids[|ids| - 1])
  {
    if ids != [] {
      var front, last := ids[..|ids| - 1], ids[|ids| - 1];
      TargetsExact(front, exclude);
      assert ids == front + [last];
      var f := Targets(front, exclude);
      if last !in exclude && f != [] {
        assert f[|f| - 1] < last;
      }
    }
  }

  function Max(a: int, b: int): int {
    if a >= b then a else b
  }

  /** The requests allocated so far have buffers, and none holds more than its buffer's size. */
  ghost predicate SizesOk(next: nat, trueLen: map<nat, nat>, bufLen: map<nat, nat>) {
    && (forall r: nat :: r < next <==> r in trueLen)
    && (forall r: nat :: r < next <==> r in bufLen)
    && (forall r: nat :: r in bufLen && r in trueLen ==> bufLen[r] <= trueLen[r])
  }

  /** The request taken is the first of the free list, or a new one if that is empty. */
  ghost predicate TookRequest(before: Pool, after: Pool, req: nat) {
    if before.free == [] then req == before.next && after == before.(next := before.next + 1)
    else req == before.free[0] && after == before.(free := before.free[1..])
  }

  /** The write requests of the server: where each is, how large its buffer is, and what was sent. */
  class Writer {
    var writeParamList: Pool
    var trueLen: map<nat, nat>
    var bufLen: map<nat, nat>
    ghost var submissions: seq<Submission>

    ghost predicate Valid()
      reads this
    {
      Accounted(writeParamList, {}) && SizesOk(writeParamList.next, trueLen, bufLen)
    }

    constructor ()
      ensures Valid() && submissions == [] && writeParamList == EMPTY_POOL
    {
      writeParamList := EMPTY_POOL;
      trueLen, bufLen := map[], map[];
      submissions := [];
    }

    /** The first half of sendinl: a request whose buffer holds `len` bytes. */
    method TakeRequest(len: nat) returns (writep: nat)
      requires Valid()
      modifies this`writeParamList, this`trueLen, this`bufLen
      ensures writep == old(writeParamList).Head() && writeParamList == old(writeParamList).Take()
      ensures TookRequest(old(writeParamList), writeParamList, writep)
      ensures Accounted(writeParamList, {writep}) && SizesOk(writeParamList.next, trueLen, bufLen)
      ensures writep in bufLen && bufLen[writep] == len && writep in trueLen
      ensures bufLen == old(bufLen)[writep := len]
      ensures trueLen ==
        old(trueLen)[writep := Max(len, if writep in old(trueLen) then old(trueLen)[writep] else BUFFER_SIZE)]
    {
      hide Accounted;
      RequestPool.TakeKeeps(writeParamList);
      HeadKnown(writeParamList);
      writep := writeParamList.Head();
      if |writeParamList.free| == 0 {
        trueLen := trueLen[writep := BUFFER_SIZE];
      }
      writeParamList := writeParamList.Take();
      if trueLen[writep] < len {
        trueLen := trueLen[writep := len];
      }
      bufLen := bufLen[writep := len];
    }

    /** sendinl: an empty message is dropped silently; otherwise one uv_write with a request whose
        buffer is grown to fit. */
    method SendInl(senddata: seq<byte>, ctx: nat, uvWrite: int) returns (ok: bool)
      requires Valid()
      modifies this
      ensures Valid()
      ensures ok <==> senddata == [] || uvWrite == 0
      ensures senddata == [] ==> submissions == old(submissions) && writeParamList == old(writeParamList)
      ensures senddata != [] ==>
        var req := old(writeParamList).Head();
        && submissions == old(submissions) + [Submission(ctx, senddata, uvWrite == 0)]
        && writeParamList == (if uvWrite == 0 then old(writeParamList).Take().Launch(req)
                              else old(writeParamList).Take().PutBack(req))
        && bufLen == old(bufLen)[req := |senddata|]
        && trueLen ==
             old(trueLen)[req := Max(|senddata|, if req in old(trueLen) then old(trueLen)[req] else BUFFER_SIZE)]
        && exists took :: TookRequest(old(writeParamList), took, req)
             && (uvWrite == 0 ==> writeParamList == took.(flying := took.flying + {req}))
             && (uvWrite != 0 ==> writeParamList == took.(free := took.free + [req]))
    {
      hide Accounted, SizesOk;
      if |senddata| == 0 {
        return true;
      }
      var writep := TakeRequest(|senddata|);
      LaunchKeeps(writeParamList, writep);
      PutBackKeeps(writeParamList, writep);
      submissions := submissions + [Submission(ctx, senddata, uvWrite == 0)];
      if uvWrite != 0 {
        writeParamList := writeParamList.PutBack(writep);
        return false;
      }
      writeParamList := writeParamList.Launch(writep);
      return true;
    }

    /** AfterSend: the request comes back whatever the status. */
    method AfterSend(req: nat)
      requires Valid() && req in writeParamList.flying
      modifies this`writeParamList
      ensures Valid() && writeParamList == old(writeParamList).Land(req)
      ensures writeParamList.flying == old(writeParamList.flying) - {req}
      ensures if |old(writeParamList.free)| <= MAXLISTSIZE
        then writeParamList.free == old(writeParamList.free) + [req]
        else writeParamList.free == old(writeParamList.free) && req in writeParamList.freed
    {
      LandKeeps(writeParamList, req);
      writeParamList := writeParamList.Land(req);
    }
  }

  lemma HeadKnown(p: Pool)
    requires Accounted(p, {})
    ensures p.free != [] ==> p.Head() < p.next
    ensures p.Take().next == if p.free == [] then p.next + 1 else p.next
  {
    if p.free != [] {
      assert p.free[0] in p.free;
    }
  }

  class TCPServer {
    var avaiTcpHandle: seq<nat>
    var clientsList: map<int, Client>
    var sId: int
    const writer: Writer

    ghost var dropping: set<nat>
    ghost var freed: set<nat>
    ghost var orphans: map<nat, int>
    ghost var leaked: set<nat>
    ghost var strays: set<nat>
    /** Bookkeeping of the model: contexts allocated, and ids handed out, so far. */
    var made: nat
    var calls: nat

    ghost function Now(): State
      reads this
    {
      State(avaiTcpHandle, clientsList, dropping, freed, orphans, leaked, strays, made, sId, calls)
    }

    ghost predicate Valid()
      reads this
    {
      Owned(Now(), {}) && IdsOk(Now())
    }

    constructor ()
      ensures Valid() && Now() == INITIAL && fresh(writer) && writer.Valid()
    {
      avaiTcpHandle, clientsList, sId, made := [], map[], 1, 0;
      dropping, freed, orphans, leaked, strays, calls := {}, {}, map[], {}, {}, 0;
      writer := new Writer();
      new;
      InitialOwned();
    }

    /** The n-th call returns the n-th id, and the counter is ready for the next one. */
    method GetAvailaClientID() returns (id: int)
      requires IdsOk(Now())
      modifies this`sId, this`calls
      ensures id == IdAt(old(calls)) && calls == old(calls) + 1 && IdsOk(Now())
      ensures id == FreshId(old(Now())) && Now() == UseId(old(Now()))
    {
      hide IdAt;
      NthId(Now());
      IdsStay(Now(), UseId(Now()));
      if sId == 0x7fff_ffff {
        sId := 1;
      }
      id := sId;
      sId := sId + 1;
      calls := calls + 1;
    }

    method AllocTcpConnCtx() returns (ctx: nat)
      modifies this`made
      ensures ctx == old(made) && made == old(made) + 1
    {
      ctx := made;
      made := made + 1;
    }

    /** AcceptConnection, for each point at which libuv can refuse. */
    method AcceptConnection(status: int, tcpInit: int, accept: int, readStart: int)
      requires Valid()
      modifies this
      ensures Valid()
      ensures Now() == Next(old(Now()), Accept(
        if status != 0 then StatusError else if tcpInit != 0 then InitFails else if accept != 0 then AcceptFails
        else if readStart != 0 then ReadStartFails else Connected))
      ensures Accepting(old(Now()), Now(),
        if status != 0 then StatusError else if tcpInit != 0 then InitFails else if accept != 0 then AcceptFails
        else if readStart != 0 then ReadStartFails else Connected)
    {
      hide Owned, IdsOk, Accepting;
      ghost var outcome := if status != 0 then StatusError else if tcpInit != 0 then InitFails
        else if accept != 0 then AcceptFails else if readStart != 0 then ReadStartFails else Connected;
      ServerContexts.StepKeeps(Now(), Accept(outcome));
      IdsKept(Now(), Accept(outcome));
      AcceptIs(Now(), outcome);
      if status != 0 {
        return;
      }
      var tmptcp;
      if |avaiTcpHandle| == 0 {
        tmptcp := AllocTcpConnCtx();
      } else {
        tmptcp := avaiTcpHandle[0];
        avaiTcpHandle := avaiTcpHandle[1..];
      }
      if tcpInit != 0 {
        avaiTcpHandle := avaiTcpHandle + [tmptcp];
        return;
      }
      IdsCarry(old(Now()), Now());
      var clientid := GetAvailaClientID();
      if accept != 0 {
        avaiTcpHandle := avaiTcpHandle + [tmptcp];
        return;
      }
      if readStart != 0 {
        dropping := dropping + {tmptcp};
        return;
      }
      if clientid in clientsList {
        orphans := orphans[tmptcp := clientid];
      } else {
        clientsList := clientsList[clientid := Client(tmptcp, calls - 1, false)];
      }
    }

    /** AcceptClient::Close of a registered client. `misused` says that its handle is already closing:
        the C++ code calls uv_close on it a second time, which libuv answers by stopping the program. */
    method Close(id: int) returns (misused: bool)
      requires Valid() && id in clientsList
      modifies this`clientsList
      ensures Valid() && (misused <==> !Enabled(old(Now()), CloseClient(id)))
      ensures Now() == if misused then old(Now()) else Next(old(Now()), CloseClient(id))
      ensures clientsList == old(clientsList)[id := old(clientsList)[id].(closing := true)]
    {
      hide Owned, IdsOk;
      if clientsList[id].closing {
        return true;
      }
      misused := false;
      ServerContexts.StepKeeps(Now(), CloseClient(id));
      IdsKept(Now(), CloseClient(id));
      clientsList := clientsList[id := clientsList[id].(closing := true)];
    }

    /** AfterClientClose calls SubClientClosed, which goes by the id alone and ignores one that is not
        registered. In the callback of an orphan, a client registered under its id loses its context,
        and with that ownership is gone. */
    method SubClientClosed(id: int, ghost orphan: Option<nat>)
      requires Valid() && Calls(Now(), id, orphan)
      modifies this`avaiTcpHandle, this`clientsList, this`freed, this`orphans, this`leaked, this`strays
      ensures Now() == AfterClosed(old(Now()), id, orphan)
      ensures IdsOk(Now()) && (Valid() <==> orphan == None || id !in old(clientsList))
      ensures clientsList == old(clientsList) - {id}
      ensures if id in old(clientsList) then Returned(old(Now()), Now(), old(clientsList)[id].ctx)
        else avaiTcpHandle == old(avaiTcpHandle) && freed == old(freed)
    {
      hide Owned, IdsOk, Harmless, Broken;
      ClosedEffect(Now(), id, orphan);
      if orphan.Some? {
        orphans := orphans - {orphan.value};
        leaked := leaked + {orphan.value};
        if id in clientsList {
          strays := strays + {clientsList[id].ctx};
        }
      }
      if id !in clientsList {
        return;
      }
      var ctx := clientsList[id].ctx;
      if |avaiTcpHandle| > MAXLISTSIZE {
        freed := freed + {ctx};
      } else {
        avaiTcpHandle := avaiTcpHandle + [ctx];
      }
      clientsList := clientsList - {id};
    }

    method RecycleTcpHandle(ctx: nat)
      requires Valid() && Enabled(Now(), HandleRecycled(ctx))
      modifies this`avaiTcpHandle, this`dropping, this`freed
      ensures Valid() && Now() == Next(old(Now()), HandleRecycled(ctx))
      ensures dropping == old(dropping) - {ctx} && Returned(old(Now()), Now(), ctx)
    {
      hide Owned, IdsOk;
      ServerContexts.StepKeeps(Now(), HandleRecycled(ctx));
      IdsKept(Now(), HandleRecycled(ctx));
      dropping := dropping - {ctx};
      if |avaiTcpHandle| > MAXLISTSIZE {
        freed := freed + {ctx};
      } else {
        avaiTcpHandle := avaiTcpHandle + [ctx];
      }
    }

    /** The order in which std::map visits the registered ids. */
    method MapOrder() returns (ids: seq<int>)
      ensures Ascending(ids) && forall id :: id in ids <==> id in clientsList
    {
      ids := [];
      var left := clientsList.Keys;
      while exists id :: id in left
        invariant left <= clientsList.Keys && Ascending(ids)
        invariant forall id :: id in clientsList <==> id in ids || id in left
        invariant forall i, id :: 0 <= i < |ids| && id in left ==> ids[i] < id
        decreases left
      {
        ghost var some: int :| some in left;
        LeastExists(left, some);
        var least :| least in left && IsLeast(least, left);
        ids := ids + [least];
        left := left - {least};
      }
    }

    /** broadcast: `uvWrite` is what uv_write returns for each id. Ids are erased from the exclusion
        list as they are met. */
    method Broadcast(senddata: seq<byte>, excludeid: seq<int>, uvWrite: int -> int) returns (ghost ids: seq<int>)
      requires writer.Valid()
      modifies writer
      ensures writer.Valid()
      ensures Ascending(ids) && forall id :: id in ids <==> id in clientsList && id !in excludeid
      ensures forall i :: 0 <= i < |ids| ==> ids[i] in clientsList
      ensures writer.submissions == old(writer.submissions)
        + if senddata == [] then [] else Sent(clientsList, ids, senddata, uvWrite)
    {
      hide Targets, Writer.Valid, Sent;
      var order := MapOrder();
      ghost var banned := set id <- excludeid;
      TargetsExact(order, banned);
      ids := Targets(order, banned);
      if senddata == [] {
        return;
      }
      var exclude := excludeid;
      TargetsOfNone(clientsList, order, banned, senddata, uvWrite);
      for i := 0 to |order|
        invariant writer.Valid()
        invariant forall j :: 0 <= j < |Targets(order[..i], banned)| ==> Targets(order[..i], banned)[j] in clientsList
        invariant forall j :: i <= j < |order| ==> (order[j] in exclude <==> order[j] in banned)
        invariant writer.submissions ==
          old(writer.submissions) + Sent(clientsList, Targets(order[..i], banned), senddata, uvWrite)
      {
        var id := order[i];
        TargetsStep(clientsList, order, i, banned, senddata, uvWrite);
        if id in exclude {
          exclude := EraseFirst(exclude, id);
        } else {
          var _ := writer.SendInl(senddata, clientsList[id].ctx, uvWrite(id));
        }
      }
      assert order[..|order|] == order;
      assert forall i :: 0 <= i < |ids| ==> ids[i] in ids;
    }

    /** std::find, then vector::erase. */
    method EraseFirst(list: seq<int>, id: int) returns (shorter: seq<int>)
      requires id in list
      ensures |shorter| == |list| - 1
      ensures multiset(shorter) == multiset(list) - multiset{id}
      ensures forall x :: x != id ==> (x in shorter <==> x in list)
    {
      var at := 0;
      while list[at] != id
        invariant 0 <= at < |list| && id !in list[..at]
        decreases |list| - at
      {
        at := at + 1;
      }
      shorter := list[..at] + list[at + 1..];
      assert list == list[..at] + [id] + list[at + 1..];
      assert forall x :: x in shorter <==> x in multiset(shorter);
    }
  }

  /** What a close callback does to ownership and ids. */
  lemma ClosedEffect(s: State, id: int, orphan: Option<nat>)
    requires Owned(s, {}) && IdsOk(s) && Calls(s, id, orphan)
    ensures var t := AfterClosed(s, id, orphan);
      IdsOk(t) && (Owned(t, {}) <==> orphan == None || id !in s.clients)
  {
    hide Owned, IdsOk, Next, Broken;
    if orphan.Some? {
      IdsKept(s, OrphanClosed(orphan.value));
      if id in s.clients {
        OrphanBreaks(s, orphan.value);
        BrokenNotOwned(Next(s, OrphanClosed(orphan.value)));
      } else {
        ServerContexts.StepKeeps(s, OrphanClosed(orphan.value));
      }
    } else if id in s.clients {
      ServerContexts.StepKeeps(s, ClientClosed(id));
      IdsKept(s, ClientClosed(id));
    }
  }

  /** What one message to each of `ids` looks like on the submission log. */
  ghost function Sent(clients: map<int, Client>, ids: seq<int>, data: seq<byte>, uvWrite: int -> int):
    (s: seq<Submission>)
    requires forall i :: 0 <= i < |ids| ==> ids[i] in clients
  {
    seq(|ids|, i requires 0 <= i < |ids| => Submission(clients[ids[i]].ctx, data, uvWrite(ids[i]) == 0))
  }

  lemma TargetsOfNone(clients: map<int, Client>, order: seq<int>, banned: set<int>,
        data: seq<byte>, uvWrite: int -> int)
    ensures Targets(order[..0], banned) == [] && Sent(clients, [], data, uvWrite) == []
  {
  }

  lemma TargetsStep(clients: map<int, Client>, order: seq<int>, i: nat, banned: set<int>,
        data: seq<byte>, uvWrite: int -> int)
    requires i < |order| && Ascending(order) && forall j :: 0 <= j < |order| ==> order[j] in clients
    ensures var before, after, id := Targets(order[..i], banned), Targets(order[..i + 1], banned), order[i];
      && (forall j :: 0 <= j < |before| ==> before[j] in clients)
      && (forall j :: 0 <= j < |after| ==> after[j] in clients)
      && (id in banned ==> after == before)
      && (id !in banned ==>
            Sent(clients, after, data, uvWrite)
            == Sent(clients, before, data, uvWrite) + [Submission(clients[id].ctx, data, uvWrite(id) == 0)])
  {
    assert order[..i + 1][..i] == order[..i];
    TargetsWithin(clients, order, i, banned);
    TargetsWithin(clients, order, i + 1, banned);
    var before := Targets(order[..i], banned);
    if order[i] !in banned {
      assert Targets(order[..i + 1], banned) == before + [order[i]];
    }
  }

  lemma TargetsWithin(clients: map<int, Client>, order: seq<int>, i: nat, banned: set<int>)
    requires i <= |order| && Ascending(order) && forall j :: 0 <= j < |order| ==> order[j] in clients
    ensures forall j :: 0 <= j < |Targets(order[..i], banned)| ==> Targets(order[..i], banned)[j] in clients
  {
    var t := Targets(order[..i], banned);
    TargetsExact(order[..i], banned);
    forall j | 0 <= j < |t|
      ensures t[j] in clients
    {
      assert t[j] in t && t[j] in order[..i];
    }
  }

  lemma {:induction false} LeastExists(s: set<int>, x: int)
    requires x in s
    ensures exists least :: least in s && IsLeast(least, s)
    decreases |s|
  {
    if !IsLeast(x, s) {
      var y :| y in s && y < x;
      var below := set z | z in s && z < x;
      assert below < s && x !in below;
      SmallerSet(below, s);
      LeastExists(below, y);
      var least :| least in below && IsLeast(least, below);
      forall z | z in s
        ensures least <= z
      {
        assert z < x ==> z in below;
      }
    }
  }

  lemma SmallerSet(a: set<int>, b: set<int>)
    requires a < b
    ensures |a| < |b|
  {
    assert |b| == |a| + |b - a|;
  }

  predicate IsLeast(least: int, s: set<int>) {
    forall x <- s :: least <= x
  }
}

/** Who owns each connection context of the server, and which ids clients get. */
module ServerContexts {
  import opened Bytes
  import opened RequestPool

  /** Ids run from 1 to 0x7ffffffe and start over. */
  const ID_COUNT: int := 0x7fff_fffe

  function IdAt(n: nat): int {
    1 + n % ID_COUNT
  }

  /** A registered client: its context, the number of its GetAvailaClientID call, and whether
      uv_close has been called on its handle. */
  datatype Client = Client(ctx: nat, serial: nat, closing: bool)

  /** Contexts are numbered in order of allocation. `dropping` holds those whose close will recycle
      them; `orphans` those connected under an id that was still taken, which std::map::insert leaves
      unregistered, with that id; `leaked` those of closed orphans, which nobody gives back; `strays`
      those given back, by an orphan's close, while their own connection was open. `calls` counts the
      calls of GetAvailaClientID. */
  datatype State = State(
    pool: seq<nat>, clients: map<int, Client>, dropping: set<nat>, freed: set<nat>,
    orphans: map<nat, int>, leaked: set<nat>, strays: set<nat>,
    made: nat, sId: int, calls: nat)

  /** How far AcceptConnection gets. */
  datatype Outcome = StatusError | InitFails | AcceptFails | ReadStartFails | Connected

  datatype Step =
    | Accept(outcome: Outcome)
    | CloseClient(id: int)
    | ClientClosed(id: int)
    | HandleRecycled(ctx: nat)
    | OrphanClosed(ctx: nat)

  const INITIAL := State([], map[], {}, {}, map[], {}, {}, 0, 1, 0)

  predicate Enabled(s: State, step: Step) {
    match step
    case Accept(_) => true
    case CloseClient(id) => id in s.clients && !s.clients[id].closing
    case ClientClosed(id) => id in s.clients && s.clients[id].closing
    case HandleRecycled(ctx) => ctx in s.dropping
    case OrphanClosed(ctx) => ctx in s.orphans
  }

  function HeadContext(s: State): nat {
    if s.pool == [] then s.made else s.pool[0]
  }

  function TakeContext(s: State): State {
    if s.pool == [] then s.(made := s.made + 1) else s.(pool := s.pool[1..])
  }

  /** GetAvailaClientID: the id returned, and the counter afterwards. */
  function FreshId(s: State): int {
    if s.sId == 0x7fff_ffff then 1 else s.sId
  }

  function UseId(s: State): State {
    s.(sId := FreshId(s) + 1, calls := s.calls + 1)
  }

  /** SubClientClosed and RecycleTcpHandle keep the context unless the pool is already over-long. */
  function GiveBack(s: State, ctx: nat): State {
    if |s.pool| > MAXLISTSIZE then s.(freed := s.freed + {ctx}) else s.(pool := s.pool + [ctx])
  }

  function Next(s: State, step: Step): State
    requires Enabled(s, step)
  {
    match step
    case Accept(StatusError) => s
    case Accept(outcome) =>
      var ctx, t := HeadContext(s), TakeContext(s);
      if outcome == InitFails then t.(pool := t.pool + [ctx])
      else
        var id, u := FreshId(s), UseId(t);
        if outcome == AcceptFails then u.(pool := u.pool + [ctx])
        else if outcome == ReadStartFails then u.(dropping := u.dropping + {ctx})
        else if id in u.clients then u.(orphans := u.orphans[ctx := id])
        else u.(clients := u.clients[id := Client(ctx, s.calls, false)])
    case CloseClient(id) => s.(clients := s.clients[id := s.clients[id].(closing := true)])
    case ClientClosed(id) => GiveBack(s.(clients := s.clients - {id}), s.clients[id].ctx)
    case HandleRecycled(ctx) => GiveBack(s.(dropping := s.dropping - {ctx}), ctx)
    case OrphanClosed(ctx) =>
      var id, t := s.orphans[ctx], s.(orphans := s.orphans - {ctx}, leaked := s.leaked + {ctx});
      if id !in s.clients then t
      else
        var victim := s.clients[id].ctx;
        GiveBack(t.(clients := t.clients - {id}, strays := t.strays + {victim}), victim)
  }

  // ---------------------------------------------------------------- context ownership

  ghost function Registered(clients: map<int, Client>): set<nat> {
    set id <- clients :: clients[id].ctx
  }

  ghost predicate OneContextEach(clients: map<int, Client>) {
    |Registered(clients)| == |clients|
    && forall i, j :: i in clients && j in clients && i != j ==> clients[i].ctx != clients[j].ctx
  }

  /** Contexts that the server has lost sight of. */
  ghost function Unseen(s: State): set<nat> {
    s.orphans.Keys + s.leaked + s.strays
  }

  ghost predicate UnseenApart(s: State) {
    s.orphans.Keys !! s.leaked !! s.strays
  }

  lemma SameUnseen(s: State, t: State)
    requires t.orphans == s.orphans && t.leaked == s.leaked && t.strays == s.strays
    ensures Unseen(t) == Unseen(s) && (UnseenApart(t) <==> UnseenApart(s))
  {
  }

  /** Contexts outside the pool: with a registered client (live or closing), in a handle being
      dropped, freed, out of sight, or in the hand of AcceptConnection. */
  ghost function Outside(s: State, hand: set<nat>): set<nat> {
    Registered(s.clients) + s.dropping + s.freed + Unseen(s) + hand
  }

  /** No context is in two of these places. */
  ghost predicate Apart(s: State, hand: set<nat>) {
    && OneContextEach(s.clients) && UnseenApart(s)
    && Registered(s.clients) !! s.dropping !! s.freed !! Unseen(s) !! hand
  }

  /** The pool has no duplicates, and with the contexts outside it makes up all there are. */
  ghost predicate PoolOk(pool: seq<nat>, outside: set<nat>, made: nat) {
    && Distinct(pool) && |pool| + |outside| == made
    && (forall c <- pool :: c !in outside && c < made)
    && (forall c <- outside :: c < made)
  }

  ghost predicate Owned(s: State, hand: set<nat>) {
    && PoolOk(s.pool, Outside(s, hand), s.made) && Apart(s, hand)
    && |s.pool| + |hand| <= MAXLISTSIZE + 1 && |hand| <= 1
  }

  lemma PoolPop(pool: seq<nat>, outside: set<nat>, made: nat)
    requires PoolOk(pool, outside, made)
    ensures pool == [] ==> PoolOk([], outside + {made}, made + 1)
    ensures pool != [] ==> PoolOk(pool[1..], outside + {pool[0]}, made)
  {
    if pool != [] {
      assert pool[0] in pool && forall c <- pool[1..] :: c in pool;
    }
  }

  lemma PoolPush(pool: seq<nat>, outside: set<nat>, made: nat, c: nat)
    requires PoolOk(pool, outside, made) && c in outside
    ensures PoolOk(pool + [c], outside - {c}, made)
  {
    forall i | 0 <= i < |pool|
      ensures pool[i] != c
    {
      assert pool[i] in pool;
    }
  }

  lemma RegisterClient(clients: map<int, Client>, id: int, c: Client)
    requires id !in clients && OneContextEach(clients) && c.ctx !in Registered(clients)
    ensures Registered(clients[id := c]) == Registered(clients) + {c.ctx}
    ensures OneContextEach(clients[id := c]) && |clients[id := c]| == |clients| + 1
  {
    var after := clients[id := c];
    assert c.ctx == after[id].ctx;
    forall x | x in Registered(clients)
      ensures x in Registered(after)
    {
      var i :| i in clients && clients[i].ctx == x;
      assert after[i].ctx == x;
    }
  }

  lemma UnregisterClient(clients: map<int, Client>, id: int)
    requires id in clients && OneContextEach(clients)
    ensures Registered(clients - {id}) == Registered(clients) - {clients[id].ctx}
    ensures OneContextEach(clients - {id}) && |clients - {id}| == |clients| - 1
    ensures clients[id].ctx in Registered(clients)
  {
    var after := clients - {id};
    forall x | x in Registered(clients) && x != clients[id].ctx
      ensures x in Registered(after)
    {
      var i :| i in clients && clients[i].ctx == x;
      assert after[i].ctx == x;
    }
    assert clients == after[id := clients[id]];
  }

  lemma MarkClosing(clients: map<int, Client>, id: int)
    requires id in clients
    ensures var after := clients[id := clients[id].(closing := true)];
      Registered(after) == Registered(clients) && |after| == |clients|
      && (OneContextEach(clients) ==> OneContextEach(after))
  {
    var after := clients[id := clients[id].(closing := true)];
    assert after.Keys == clients.Keys;
    assert forall i <- clients :: after[i].ctx == clients[i].ctx;
  }

  lemma TakeKeeps(s: State)
    requires Owned(s, {})
    ensures Owned(TakeContext(s), {HeadContext(s)})
  {
    hide PoolOk, Registered, OneContextEach, Unseen, UnseenApart;
    var t, ctx := TakeContext(s), HeadContext(s);
    SameUnseen(s, t);
    PoolPop(s.pool, Outside(s, {}), s.made);
    PoolFacts(s.pool, Outside(s, {}), s.made);
    InHand(Registered(s.clients), s.dropping, s.freed, Unseen(s), ctx);
  }

  /** Putting a new element into the hand, beside four disjoint sets. */
  lemma InHand(a: set<nat>, b: set<nat>, c: set<nat>, d: set<nat>, x: nat)
    requires a !! b !! c !! d && x !in a + b + c + d + {}
    ensures a !! b !! c !! d !! {x} && a + b + c + d + {x} == a + b + c + d + {} + {x}
  {
  }

  lemma PoolFacts(pool: seq<nat>, outside: set<nat>, made: nat)
    requires PoolOk(pool, outside, made)
    ensures (pool != [] ==> pool[0] !in outside) && made !in outside
  {
    if pool != [] {
      assert pool[0] in pool;
    }
  }

  lemma ToPool(s: State, ctx: nat)
    requires PoolOk(s.pool, Outside(s, {ctx}), s.made) && Apart(s, {ctx})
    ensures var t := s.(pool := s.pool + [ctx]);
      PoolOk(t.pool, Outside(t, {}), t.made) && Apart(t, {})
  {
    hide PoolOk, Registered, OneContextEach, Unseen, UnseenApart;
    SameUnseen(s, s.(pool := s.pool + [ctx]));
    PoolPush(s.pool, Outside(s, {ctx}), s.made, ctx);
    assert Outside(s, {ctx}) - {ctx} == Outside(s, {});
  }

  lemma ToFreed(s: State, ctx: nat)
    requires PoolOk(s.pool, Outside(s, {ctx}), s.made) && Apart(s, {ctx})
    ensures var t := s.(freed := s.freed + {ctx});
      PoolOk(t.pool, Outside(t, {}), t.made) && Apart(t, {})
  {
    hide PoolOk, Registered, OneContextEach, Unseen, UnseenApart;
    SameUnseen(s, s.(freed := s.freed + {ctx}));
    assert Outside(s, {ctx}) == Outside(s.(freed := s.freed + {ctx}), {});
  }

  lemma ToDropping(s: State, ctx: nat)
    requires PoolOk(s.pool, Outside(s, {ctx}), s.made) && Apart(s, {ctx})
    ensures var t := s.(dropping := s.dropping + {ctx});
      PoolOk(t.pool, Outside(t, {}), t.made) && Apart(t, {})
  {
    hide PoolOk, Registered, OneContextEach, Unseen, UnseenApart;
    SameUnseen(s, s.(dropping := s.dropping + {ctx}));
    assert Outside(s, {ctx}) == Outside(s.(dropping := s.dropping + {ctx}), {});
  }

  lemma ToOrphans(s: State, ctx: nat, id: int)
    requires PoolOk(s.pool, Outside(s, {ctx}), s.made) && Apart(s, {ctx})
    ensures var t := s.(orphans := s.orphans[ctx := id]);
      PoolOk(t.pool, Outside(t, {}), t.made) && Apart(t, {})
  {
    hide PoolOk, Registered, OneContextEach;
    var t := s.(orphans := s.orphans[ctx := id]);
    assert Unseen(t) == Unseen(s) + {ctx};
    assert Outside(s, {ctx}) == Outside(t, {});
  }

  lemma HandBack(s: State, ctx: nat, id: int)
    requires Owned(s, {ctx})
    ensures Owned(s.(pool := s.pool + [ctx]), {})
    ensures Owned(s.(dropping := s.dropping + {ctx}), {})
    ensures Owned(s.(orphans := s.orphans[ctx := id]), {})
  {
    hide PoolOk, Apart, Outside;
    ToPool(s, ctx);
    ToDropping(s, ctx);
    ToOrphans(s, ctx, id);
  }

  lemma IdsApart(s: State, hand: set<nat>, t: State)
    requires Owned(s, hand) && t == s.(sId := t.sId, calls := t.calls)
    ensures Owned(t, hand)
  {
    assert Outside(t, hand) == Outside(s, hand);
  }

  lemma RegisterKeeps(s: State, ctx: nat, id: int, c: Client)
    requires Owned(s, {ctx}) && id !in s.clients && c.ctx == ctx
    ensures Owned(s.(clients := s.clients[id := c]), {})
  {
    hide PoolOk, Apart, Outside;
    ToClients(s, ctx, id, c);
  }

  lemma ToClients(s: State, ctx: nat, id: int, c: Client)
    requires PoolOk(s.pool, Outside(s, {ctx}), s.made) && Apart(s, {ctx}) && id !in s.clients && c.ctx == ctx
    ensures var t := s.(clients := s.clients[id := c]);
      PoolOk(t.pool, Outside(t, {}), t.made) && Apart(t, {})
  {
    hide PoolOk, Registered, OneContextEach, Unseen, UnseenApart;
    SameUnseen(s, s.(clients := s.clients[id := c]));
    RegisterClient(s.clients, id, c);
    PutDown(Registered(s.clients), s.dropping, s.freed, Unseen(s), ctx);
  }

  /** Moving the element in the hand into the first of four disjoint sets. */
  lemma PutDown(a: set<nat>, b: set<nat>, c: set<nat>, d: set<nat>, x: nat)
    requires a !! b !! c !! d !! {x}
    ensures a + {x} !! b !! c !! d !! {} && a + b + c + d + {x} == a + {x} + b + c + d + {}
  {
  }

  lemma AcceptKeeps(s: State, outcome: Outcome)
    requires Owned(s, {})
    ensures Owned(Next(s, Accept(outcome)), {})
  {
    hide Owned;
    var ctx, t := HeadContext(s), TakeContext(s);
    TakeKeeps(s);
    HandBack(t, ctx, 0);
    IdsApart(t, {ctx}, UseId(t));
    HandBack(UseId(t), ctx, FreshId(s));
    if outcome == Connected && FreshId(s) !in s.clients {
      RegisterKeeps(UseId(t), ctx, FreshId(s), Client(ctx, s.calls, false));
    }
  }

  /** Pick a context up from where it lies outside the pool, and give it back. */
  lemma GiveBackKeeps(s: State, ctx: nat)
    requires PoolOk(s.pool, Outside(s, {ctx}), s.made) && Apart(s, {ctx}) && |s.pool| <= MAXLISTSIZE + 1
    ensures Owned(GiveBack(s, ctx), {})
  {
    hide PoolOk, Apart, Outside;
    ToPool(s, ctx);
    ToFreed(s, ctx);
  }

  /** Taking an element out of one of four disjoint sets, into the hand. */
  lemma PickUp(a: set<nat>, b: set<nat>, c: set<nat>, d: set<nat>, x: nat)
    requires a !! b !! c !! d
    ensures x in a ==> a - {x} !! b !! c !! d !! {x} && a + b + c + d + {} == a - {x} + b + c + d + {x}
    ensures x in b ==> a !! b - {x} !! c !! d !! {x} && a + b + c + d + {} == a + (b - {x}) + c + d + {x}
  {
  }

  lemma ClosedKeeps(s: State, id: int)
    requires Owned(s, {}) && Enabled(s, ClientClosed(id))
    ensures Owned(Next(s, ClientClosed(id)), {})
  {
    hide PoolOk, Registered, OneContextEach, Unseen, UnseenApart;
    SameUnseen(s, s.(clients := s.clients - {id}));
    var t, ctx := s.(clients := s.clients - {id}), s.clients[id].ctx;
    UnregisterClient(s.clients, id);
    PickUp(Registered(s.clients), s.dropping, s.freed, Unseen(s), ctx);
    GiveBackKeeps(t, ctx);
  }

  lemma FromDropping(s: State, ctx: nat)
    requires PoolOk(s.pool, Outside(s, {}), s.made) && Apart(s, {}) && ctx in s.dropping
    ensures var t := s.(dropping := s.dropping - {ctx});
      PoolOk(t.pool, Outside(t, {ctx}), t.made) && Apart(t, {ctx})
  {
    hide PoolOk, Registered, OneContextEach, Unseen, UnseenApart;
    SameUnseen(s, s.(dropping := s.dropping - {ctx}));
    PickUp(Registered(s.clients), s.dropping, s.freed, Unseen(s), ctx);
  }

  lemma RecycledKeeps(s: State, ctx: nat)
    requires Owned(s, {}) && Enabled(s, HandleRecycled(ctx))
    ensures Owned(Next(s, HandleRecycled(ctx)), {})
  {
    hide PoolOk, Apart, Outside;
    FromDropping(s, ctx);
    GiveBackKeeps(s.(dropping := s.dropping - {ctx}), ctx);
  }

  lemma ClosingKeeps(s: State, id: int)
    requires Owned(s, {}) && Enabled(s, CloseClient(id))
    ensures Owned(Next(s, CloseClient(id)), {})
  {
    hide PoolOk, Registered, OneContextEach, Unseen, UnseenApart;
    SameUnseen(s, Next(s, CloseClient(id)));
    MarkClosing(s.clients, id);
  }

  /** An orphan's close does no harm if its id is not registered: it finds nobody. */
  predicate Harmless(s: State, step: Step)
    requires Enabled(s, step)
  {
    step.OrphanClosed? ==> s.orphans[step.ctx] !in s.clients
  }

  lemma OrphanMoves(s: State, ctx: nat)
    requires ctx in s.orphans && UnseenApart(s)
    ensures var t := s.(orphans := s.orphans - {ctx}, leaked := s.leaked + {ctx});
      Unseen(t) == Unseen(s) && UnseenApart(t)
  {
  }

  lemma OrphanKeeps(s: State, ctx: nat)
    requires Owned(s, {}) && Enabled(s, OrphanClosed(ctx)) && Harmless(s, OrphanClosed(ctx))
    ensures Owned(Next(s, OrphanClosed(ctx)), {})
  {
    hide PoolOk, Registered, OneContextEach, Unseen, UnseenApart;
    OrphanMoves(s, ctx);
  }

  lemma StepKeeps(s: State, step: Step)
    requires Owned(s, {}) && Enabled(s, step) && Harmless(s, step)
    ensures Owned(Next(s, step), {}) && Next(s, step).strays == s.strays
  {
    hide Owned, Next;
    StraysKept(s, step);
    match step
    case Accept(outcome) => AcceptKeeps(s, outcome);
    case CloseClient(id) => ClosingKeeps(s, id);
    case ClientClosed(id) => ClosedKeeps(s, id);
    case HandleRecycled(ctx) => RecycledKeeps(s, ctx);
    case OrphanClosed(ctx) => OrphanKeeps(s, ctx);
  }

  lemma StraysKept(s: State, step: Step)
    requires Enabled(s, step)
    ensures s.strays <= Next(s, step).strays && (Harmless(s, step) ==> Next(s, step).strays == s.strays)
  {
  }

  /** Whose callback SubClientClosed(id) can be: that of the client registered under the id, whose
      handle was closing, or of nobody registered, or that of an orphan with that id. */
  predicate Calls(s: State, id: int, orphan: Option<nat>) {
    match orphan
    case None => id in s.clients ==> s.clients[id].closing
    case Some(ctx) => ctx in s.orphans && s.orphans[ctx] == id
  }

  function AfterClosed(s: State, id: int, orphan: Option<nat>): State
    requires Calls(s, id, orphan)
  {
    match orphan
    case Some(ctx) => Next(s, OrphanClosed(ctx))
    case None => if id in s.clients then Next(s, ClientClosed(id)) else s
  }

  // ----------------------------------------------------------- when ownership is lost

  /** The server holds the context in one of its places. */
  ghost predicate Held(s: State, c: nat) {
    || c in s.pool || c in s.dropping || c in s.freed || c in s.orphans || c in s.leaked
    || exists id <- s.clients :: s.clients[id].ctx == c
  }

  /** Some context has been given back while its connection was open. */
  ghost predicate Broken(s: State) {
    exists c <- s.strays :: Held(s, c)
  }

  lemma BrokenNotOwned(s: State)
    requires Broken(s)
    ensures !Owned(s, {})
  {
    hide OneContextEach;
    var c :| c in s.strays && Held(s, c);
    assert c in Unseen(s) && c in Outside(s, {});
    if id :| id in s.clients && s.clients[id].ctx == c {
      assert c in Registered(s.clients);
    }
  }

  /** An orphan's close that finds its id registered breaks ownership: the registered client's
      context is given back, to be used for another connection or freed, under an open connection. */
  lemma OrphanBreaks(s: State, ctx: nat)
    requires Enabled(s, OrphanClosed(ctx)) && !Harmless(s, OrphanClosed(ctx))
    ensures Broken(Next(s, OrphanClosed(ctx)))
  {
    var t, victim := Next(s, OrphanClosed(ctx)), s.clients[s.orphans[ctx]].ctx;
    assert victim in t.strays;
    assert |s.pool| <= MAXLISTSIZE ==> t.pool[|s.pool|] == victim;
    assert Held(t, victim);
  }

  /** No step makes a context disappear. */
  lemma HeldStays(s: State, step: Step, c: nat)
    requires Enabled(s, step) && Held(s, c)
    ensures Held(Next(s, step), c)
  {
    var t := Next(s, step);
    if c in s.pool {
      HeldPool(s, step, c);
    } else if id :| id in s.clients && s.clients[id].ctx == c {
      HeldClient(s, step, id);
    }
  }

  lemma HeldPool(s: State, step: Step, c: nat)
    requires Enabled(s, step) && c in s.pool
    ensures Held(Next(s, step), c)
  {
    var t := Next(s, step);
    if step.Accept? && !step.outcome.StatusError? {
      if s.pool[0] == c {
        HeldHead(s, step.outcome);
      } else {
        assert c in s.pool[1..];
      }
    }
  }

  lemma HeldHead(s: State, outcome: Outcome)
    requires s.pool != [] && !outcome.StatusError?
    ensures Held(Next(s, Accept(outcome)), s.pool[0])
  {
    var t, id := Next(s, Accept(outcome)), FreshId(s);
    if outcome == InitFails || outcome == AcceptFails {
      assert t.pool[|t.pool| - 1] == s.pool[0];
    } else if outcome == Connected && id !in s.clients {
      assert id in t.clients && t.clients[id].ctx == s.pool[0];
    }
  }

  lemma HeldClient(s: State, step: Step, id: int)
    requires Enabled(s, step) && id in s.clients
    ensures Held(Next(s, step), s.clients[id].ctx)
  {
    var t, c := Next(s, step), s.clients[id].ctx;
    if id in t.clients {
      assert t.clients[id].ctx == c;
    } else {
      assert |s.pool| <= MAXLISTSIZE ==> t.pool[|s.pool|] == c;
    }
  }

  lemma BrokenStays(s: State, step: Step)
    requires Enabled(s, step) && Broken(s)
    ensures Broken(Next(s, step))
  {
    hide Held, Next;
    StraysKept(s, step);
    var c :| c in s.strays && Held(s, c);
    HeldStays(s, step, c);
  }

  // ------------------------------------------------------------------------ client ids

  /** The counter's value, and every registered client's id, by number of the call. */
  ghost predicate IdsOk(s: State) {
    && s.sId == (if s.calls == 0 then 1 else IdAt(s.calls - 1) + 1)
    && forall id <- s.clients :: s.clients[id].serial < s.calls && id == IdAt(s.clients[id].serial)
  }

  /** The n-th call, counted from 0, returns 1 + n mod 0x7ffffffe. */
  lemma NthId(s: State)
    requires IdsOk(s)
    ensures FreshId(s) == IdAt(s.calls) && 1 <= FreshId(s) <= ID_COUNT
    ensures UseId(s).sId == IdAt(UseId(s).calls - 1) + 1
  {
  }

  lemma SameId(a: nat, b: nat)
    requires a <= b
    ensures IdAt(a) == IdAt(b) <==> (b - a) % ID_COUNT == 0
  {
  }

  lemma IdsKept(s: State, step: Step)
    requires IdsOk(s) && Enabled(s, step)
    ensures IdsOk(Next(s, step))
  {
    hide IdAt;
    if step.Accept? {
      IdsAccept(s, step.outcome);
    }
  }

  lemma IdsAccept(s: State, outcome: Outcome)
    requires IdsOk(s)
    ensures IdsOk(Next(s, Accept(outcome)))
  {
    hide IdAt;
    NthId(s);
    IdsStay(s, UseId(s));
  }

  lemma IdsStay(s: State, t: State)
    requires IdsOk(s) && t.clients == s.clients && t.calls >= s.calls
    ensures forall id <- t.clients :: t.clients[id].serial < t.calls && id == IdAt(t.clients[id].serial)
  {
  }

  lemma IdsCarry(s: State, t: State)
    requires IdsOk(s) && t.clients == s.clients && t.sId == s.sId && t.calls == s.calls
    ensures IdsOk(t)
  {
  }

  /** A new client finds its id taken exactly if some registered client got its id a multiple of
      0x7ffffffe calls ago. */
  lemma CollisionExactly(s: State)
    requires IdsOk(s)
    ensures FreshId(s) in s.clients <==>
      exists id <- s.clients :: (s.calls - s.clients[id].serial) % ID_COUNT == 0
  {
    NthId(s);
    forall id <- s.clients
      ensures id == FreshId(s) <==> (s.calls - s.clients[id].serial) % ID_COUNT == 0
    {
      SameId(s.clients[id].serial, s.calls);
    }
  }

  /** No client has stayed for 0x7ffffffe id allocations. */
  ghost predicate InWindow(s: State) {
    forall id <- s.clients :: s.calls - s.clients[id].serial < ID_COUNT
  }

  lemma NoCollisionInWindow(s: State)
    requires IdsOk(s) && InWindow(s)
    ensures FreshId(s) !in s.clients
  {
    CollisionExactly(s);
  }

  // ------------------------------------------------------------------------ whole runs

  ghost predicate Legal(s: State, steps: seq<Step>)
    decreases |steps|
  {
    steps != [] ==> Enabled(s, steps[0]) && Legal(Next(s, steps[0]), steps[1..])
  }

  ghost function Exec(s: State, steps: seq<Step>): State
    requires Legal(s, steps)
    decreases |steps|
  {
    if steps == [] then s else Exec(Next(s, steps[0]), steps[1..])
  }

  /** Every connection is made while the registered clients are in the window. */
  ghost predicate WindowKept(s: State, steps: seq<Step>)
    requires Legal(s, steps)
    decreases |steps|
  {
    steps != [] ==> (steps[0] == Accept(Connected) ==> InWindow(s)) && WindowKept(Next(s, steps[0]), steps[1..])
  }

  /** No orphan's close finds its id registered. */
  ghost predicate HarmlessRun(s: State, steps: seq<Step>)
    requires Legal(s, steps)
    decreases |steps|
  {
    steps != [] ==> Harmless(s, steps[0]) && HarmlessRun(Next(s, steps[0]), steps[1..])
  }

  lemma NoNewOrphan(s: State, step: Step)
    requires IdsOk(s) && Enabled(s, step) && (step == Accept(Connected) ==> InWindow(s)) && s.orphans == map[]
    ensures Harmless(s, step) && Next(s, step).orphans == map[] && Next(s, step).leaked == s.leaked
  {
    if step == Accept(Connected) {
      NoCollisionInWindow(s);
    }
  }

  lemma {:induction false} WindowIsHarmless(s: State, steps: seq<Step>)
    requires IdsOk(s) && Legal(s, steps) && WindowKept(s, steps) && s.orphans == map[]
    ensures HarmlessRun(s, steps)
    ensures Exec(s, steps).orphans == map[] && Exec(s, steps).leaked == s.leaked
    decreases |steps|
  {
    hide IdsOk, InWindow, Next, Harmless;
    if steps != [] {
      NoNewOrphan(s, steps[0]);
      IdsKept(s, steps[0]);
      WindowIsHarmless(Next(s, steps[0]), steps[1..]);
    }
  }

  lemma {:induction false} HarmlessKeeps(s: State, steps: seq<Step>)
    requires Owned(s, {}) && IdsOk(s) && Legal(s, steps) && HarmlessRun(s, steps)
    ensures Owned(Exec(s, steps), {}) && IdsOk(Exec(s, steps)) && Exec(s, steps).strays == s.strays
    decreases |steps|
  {
    hide Owned, IdsOk, Next, Harmless;
    if steps != [] {
      StepKeeps(s, steps[0]);
      IdsKept(s, steps[0]);
      HarmlessKeeps(Next(s, steps[0]), steps[1..]);
    }
  }

  lemma {:induction false} BrokenForEver(s: State, steps: seq<Step>)
    requires Legal(s, steps) && (Broken(s) || !HarmlessRun(s, steps))
    ensures Broken(Exec(s, steps))
    decreases |steps|
  {
    hide Broken, Next, Harmless;
    if steps != [] {
      if Broken(s) {
        BrokenStays(s, steps[0]);
      } else if !Harmless(s, steps[0]) {
        assert steps[0].OrphanClosed? by { HarmfulStep(s, steps[0]); }
        OrphanBreaks(s, steps[0].ctx);
      }
      BrokenForEver(Next(s, steps[0]), steps[1..]);
    }
  }

  lemma HarmfulStep(s: State, step: Step)
    requires Enabled(s, step) && !Harmless(s, step)
    ensures step.OrphanClosed?
  {
  }

  lemma OutsideCount(s: State)
    requires Apart(s, {})
    ensures |Outside(s, {})|
         == |s.clients| + |s.dropping| + |s.freed| + |s.orphans| + |s.leaked| + |s.strays|
  {
    hide Registered;
    var r, u := Registered(s.clients), Unseen(s);
    assert |s.orphans.Keys + s.leaked| == |s.orphans| + |s.leaked|;
    assert |u| == |s.orphans| + |s.leaked| + |s.strays|;
    assert |r + s.dropping| == |r| + |s.dropping|;
    assert |r + s.dropping + s.freed| == |r| + |s.dropping| + |s.freed|;
    assert |r + s.dropping + s.freed + u| == |r| + |s.dropping| + |s.freed| + |u|;
    assert Outside(s, {}) == r + s.dropping + s.freed + u;
  }

  /** Exactly when ownership survives a run: every context is in exactly one place at its end if and
      only if no orphan's close found its id registered. */
  lemma OwnedExactly(steps: seq<Step>)
    requires Legal(INITIAL, steps)
    ensures Owned(Exec(INITIAL, steps), {}) <==> HarmlessRun(INITIAL, steps)
  {
    InitialOwned();
    hide Owned, Broken;
    if HarmlessRun(INITIAL, steps) {
      HarmlessKeeps(INITIAL, steps);
    } else {
      BrokenForEver(INITIAL, steps);
      BrokenNotOwned(Exec(INITIAL, steps));
    }
  }

  /** How many ids a run uses up: one for each accept that gets as far as uv_accept. */
  function IdsUsed(steps: seq<Step>): nat {
    if steps == [] then 0
    else (match steps[0]
          case Accept(outcome) => if outcome in {StatusError, InitFails} then 0 else 1
          case _ => 0) + IdsUsed(steps[1..])
  }

  /** The ids registered after a run: those of the accepts that succeeded, but for those a close
      callback has come for since. */
  ghost function RegisteredIds(s: State, ids: set<int>, steps: seq<Step>): set<int>
    requires Legal(s, steps)
    decreases |steps|
  {
    if steps == [] then ids
    else
      var after := match steps[0]
        case Accept(outcome) => if outcome == Connected then ids + {IdAt(s.calls)} else ids
        case ClientClosed(id) => ids - {id}
        case OrphanClosed(ctx) => ids - {s.orphans[ctx]}
        case _ => ids;
      RegisteredIds(Next(s, steps[0]), after, steps[1..])
  }

  lemma {:induction false} RegistryLaw(s: State, steps: seq<Step>)
    requires IdsOk(s) && Legal(s, steps)
    ensures Exec(s, steps).clients.Keys == RegisteredIds(s, s.clients.Keys, steps)
    ensures Exec(s, steps).calls == s.calls + IdsUsed(steps)
    decreases |steps|
  {
    hide IdsOk, Next, IdAt;
    if steps != [] {
      IdsKept(s, steps[0]);
      StepRegisters(s, steps[0]);
      RegistryLaw(Next(s, steps[0]), steps[1..]);
    }
  }

  lemma StepRegisters(s: State, step: Step)
    requires IdsOk(s) && Enabled(s, step)
    ensures var t, ids := Next(s, step), s.clients.Keys;
      t.clients.Keys == match step
        case Accept(outcome) => if outcome == Connected then ids + {IdAt(s.calls)} else ids
        case ClientClosed(id) => ids - {id}
        case OrphanClosed(ctx) => ids - {s.orphans[ctx]}
        case _ => ids
    ensures Next(s, step).calls == s.calls + match step
      case Accept(outcome) => if outcome in {StatusError, InitFails} then 0 else 1
      case _ => 0
  {
    hide IdAt;
    NthId(s);
  }

  /** From the start: the registered ids are exactly what the steps say, whatever the contexts do. */
  lemma RegisteredExactly(steps: seq<Step>)
    requires Legal(INITIAL, steps)
    ensures Exec(INITIAL, steps).clients.Keys == RegisteredIds(INITIAL, {}, steps)
    ensures Exec(INITIAL, steps).calls == IdsUsed(steps)
  {
    InitialOwned();
    RegistryLaw(INITIAL, steps);
  }

  // -------------------------------------------------------------- the steps, by field

  /** What each exit of AcceptConnection does with the context it took, the first of the pool or a new
      one: back to the pool, into a handle that is being closed, registered under the next id, or, if
      that id is taken, lost sight of. Nothing else changes. */
  ghost predicate Accepting(s: State, t: State, outcome: Outcome) {
    var ctx, rest, made :=
      if s.pool == [] then s.made else s.pool[0], if s.pool == [] then [] else s.pool[1..],
      if s.pool == [] then s.made + 1 else s.made;
    && t.freed == s.freed && t.leaked == s.leaked && t.strays == s.strays
    && match outcome
      case StatusError => t == s
      case InitFails =>
        && t.pool == rest + [ctx] && t.made == made && t.calls == s.calls && t.sId == s.sId
        && t.clients == s.clients && t.dropping == s.dropping && t.orphans == s.orphans
      case AcceptFails =>
        && t.pool == rest + [ctx] && t.made == made && t.calls == s.calls + 1
        && t.clients == s.clients && t.dropping == s.dropping && t.orphans == s.orphans
      case ReadStartFails =>
        && t.pool == rest && t.made == made && t.calls == s.calls + 1
        && t.clients == s.clients && t.dropping == s.dropping + {ctx} && t.orphans == s.orphans
      case Connected =>
        var id := IdAt(s.calls);
        && t.pool == rest && t.made == made && t.calls == s.calls + 1 && t.dropping == s.dropping
        && (id !in s.clients ==> t.clients == s.clients[id := Client(ctx, s.calls, false)] && t.orphans == s.orphans)
        && (id in s.clients ==> t.clients == s.clients && t.orphans == s.orphans[ctx := id])
  }

  lemma AcceptIs(s: State, outcome: Outcome)
    requires IdsOk(s)
    ensures Accepting(s, Next(s, Accept(outcome)), outcome)
  {
    hide IdAt;
    NthId(s);
  }

  /** A context given back goes to the end of the pool, unless that holds more than MAXLISTSIZE. */
  ghost predicate Returned(s: State, t: State, ctx: nat) {
    if |s.pool| <= MAXLISTSIZE then t.pool == s.pool + [ctx] && t.freed == s.freed
    else t.pool == s.pool && t.freed == s.freed + {ctx}
  }

  lemma CloseIs(s: State, step: Step)
    requires Enabled(s, step) && !step.Accept?
    ensures var t := Next(s, step);
      && t.made == s.made && t.calls == s.calls && t.sId == s.sId
      && match step
        case CloseClient(id) =>
          t == s.(clients := s.clients[id := Client(s.clients[id].ctx, s.clients[id].serial, true)])
        case ClientClosed(id) =>
          && t.clients == s.clients - {id} && Returned(s, t, s.clients[id].ctx)
          && t.dropping == s.dropping && t.orphans == s.orphans && t.leaked == s.leaked && t.strays == s.strays
        case HandleRecycled(ctx) =>
          && t.dropping == s.dropping - {ctx} && Returned(s, t, ctx)
          && t.clients == s.clients && t.orphans == s.orphans && t.leaked == s.leaked && t.strays == s.strays
        case OrphanClosed(ctx) =>
          var id := s.orphans[ctx];
          && t.orphans == s.orphans - {ctx} && t.leaked == s.leaked + {ctx} && t.dropping == s.dropping
          && t.clients == s.clients - {id}
          && (id in s.clients ==> Returned(s, t, s.clients[id].ctx) && t.strays == s.strays + {s.clients[id].ctx})
          && (id !in s.clients ==> t.pool == s.pool && t.freed == s.freed && t.strays == s.strays)
  {
  }

  function AfterFails(s: State, n: nat): State
    decreases n
  {
    if n == 0 then s else AfterFails(Next(s, Accept(AcceptFails)), n - 1)
  }

  lemma {:induction false} FailsUseIds(s: State, n: nat)
    requires IdsOk(s)
    ensures var t := AfterFails(s, n);
      IdsOk(t) && t.clients == s.clients && t.orphans == s.orphans && t.calls == s.calls + n
    decreases n
  {
    hide IdsOk;
    if n > 0 {
      IdsKept(s, Accept(AcceptFails));
      FailsUseIds(Next(s, Accept(AcceptFails)), n - 1);
    }
  }

  lemma {:induction false} BehindFails(s: State, n: nat, rest: seq<Step>)
    requires Legal(AfterFails(s, n), rest) && !HarmlessRun(AfterFails(s, n), rest)
    ensures var steps := seq(n, _ => Accept(AcceptFails)) + rest;
      Legal(s, steps) && !HarmlessRun(s, steps)
    decreases n
  {
    hide Next;
    var steps := seq(n, _ => Accept(AcceptFails)) + rest;
    if n == 0 {
      assert steps == rest;
    } else {
      assert steps[1..] == seq(n - 1, _ => Accept(AcceptFails)) + rest;
      BehindFails(Next(s, Accept(AcceptFails)), n - 1, rest);
    }
  }

  /** A run that loses ownership exists: a client stays while 0x7ffffffd accepts fail behind their id, the next one
      connects under its id, and closes. */
  lemma SomeRunBreaks()
    ensures exists steps :: Legal(INITIAL, steps) && !HarmlessRun(INITIAL, steps)
  {
    InitialOwned();
    var s1, n := Next(INITIAL, Accept(Connected)), ID_COUNT - 1;
    IdsKept(INITIAL, Accept(Connected));
    FailsUseIds(s1, n);
    var s2 := AfterFails(s1, n);
    NthId(s2);
    var ctx := HeadContext(s2);
    var s3 := Next(s2, Accept(Connected));
    assert s3.orphans == map[ctx := 1] && 1 in s3.clients;
    var rest := [Accept(Connected), OrphanClosed(ctx)];
    assert !Harmless(s3, rest[1]) && Legal(s3, rest[1..]) && !HarmlessRun(s3, rest[1..]);
    assert Legal(s2, rest) && !HarmlessRun(s2, rest);
    BehindFails(s1, n, rest);
    var steps := [Accept(Connected)] + (seq(n, _ => Accept(AcceptFails)) + rest);
    assert steps[1..] == seq(n, _ => Accept(AcceptFails)) + rest;
    assert Legal(INITIAL, steps) && !HarmlessRun(INITIAL, steps);
  }

  /** While ownership lasts the pool stays short and contexts are conserved; and it lasts in every run
      in which no client outstays the id window, without any orphan or leaked context. */
  lemma ContextsConserved(steps: seq<Step>)
    requires Legal(INITIAL, steps)
    ensures HarmlessRun(INITIAL, steps) ==>
      var s := Exec(INITIAL, steps);
      && Distinct(s.pool) && |s.pool| <= 21 && Apart(s, {})
      && (forall c <- s.pool :: c !in Outside(s, {}))
      && s.made == |s.pool| + |s.clients| + |s.dropping| + |s.freed| + |s.orphans| + |s.leaked|
    ensures WindowKept(INITIAL, steps) ==>
      HarmlessRun(INITIAL, steps) && Exec(INITIAL, steps).orphans == map[] && Exec(INITIAL, steps).leaked == {}
  {
    InitialOwned();
    if WindowKept(INITIAL, steps) {
      WindowIsHarmless(INITIAL, steps);
    }
    if HarmlessRun(INITIAL, steps) {
      HarmlessKeeps(INITIAL, steps);
      hide Legal, WindowKept, HarmlessRun;
      OutsideCount(Exec(INITIAL, steps));
    }
  }

  lemma InitialOwned()
    ensures Owned(INITIAL, {}) && IdsOk(INITIAL)
  {
    assert Registered(INITIAL.clients) == {};
  }
}

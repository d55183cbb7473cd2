/** The recycled uv_write requests of the client and of the server. */
module RequestPool {

  const MAXLISTSIZE: nat := 20

  /** Requests are numbered in order of allocation; `next` is the number of the next one. */
  datatype Pool = Pool(free: seq<nat>, flying: set<nat>, freed: set<nat>, next: nat) {

    /** The request a caller gets: the head of the free list, or a new one. */
    function Head(): nat {
      if free == [] then next else free[0]
    }

    function Take(): Pool {
      if free == [] then this.(next := next + 1) else this.(free := free[1..])
    }

    /** uv_write accepted the request. */
    function Launch(req: nat): Pool {
      this.(flying := flying + {req})
    }

    /** uv_write refused the request: it goes back without a look at the list's size. */
    function PutBack(req: nat): Pool {
      this.(free := free + [req])
    }

    /** The completion callback: back to the list, unless that is already over-long. */
    function Land(req: nat): Pool {
      if |free| > MAXLISTSIZE then this.(flying := flying - {req}, freed := freed + {req})
      else this.(flying := flying - {req}, free := free + [req])
    }
  }

  const EMPTY_POOL := Pool([], {}, {}, 0)

  ghost predicate Distinct(s: seq<nat>) {
    forall i, j :: 0 <= i < j < |s| ==> s[i] != s[j]
  }

  /** Every request ever allocated is in exactly one place: the free list, in flight, freed, or the
      one in the hand of the sending loop. The list has at most MAXLISTSIZE + 1 entries. */
  ghost predicate Accounted(p: Pool, hand: set<nat>) {
    && Distinct(p.free) && |p.free| <= MAXLISTSIZE + 1
    && |hand| <= 1 && (hand != {} ==> |p.free| <= MAXLISTSIZE)
    && (forall r <- p.free :: r < p.next && r !in p.flying && r !in p.freed && r !in hand)
    && (forall r <- p.flying :: r < p.next && r !in p.freed && r !in hand)
    && (forall r <- p.freed :: r < p.next && r !in hand)
    && (forall r <- hand :: r < p.next)
    && |p.free| + |p.flying| + |p.freed| + |hand| == p.next
  }

  lemma TakeKeeps(p: Pool)
    requires Accounted(p, {})
    ensures Accounted(p.Take(), {p.Head()})
    ensures p.Head() !in p.flying && p.Head() !in p.freed
    ensures p.free == [] ==> p.Head() == p.next && p.Take() == Pool([], p.flying, p.freed, p.next + 1)
    ensures p.free != [] ==> p.Head() == p.free[0] && p.Take() == Pool(p.free[1..], p.flying, p.freed, p.next)
  {
    if p.free != [] {
      assert p.free[0] in p.free;
      assert forall r <- p.free[1..] :: r in p.free;
    }
  }

  lemma LaunchKeeps(p: Pool, req: nat)
    requires Accounted(p, {req})
    ensures Accounted(p.Launch(req), {})
    ensures p.Launch(req) == Pool(p.free, p.flying + {req}, p.freed, p.next)
  {
  }

  lemma PutBackKeeps(p: Pool, req: nat)
    requires Accounted(p, {req})
    ensures Accounted(p.PutBack(req), {})
    ensures p.PutBack(req) == Pool(p.free + [req], p.flying, p.freed, p.next)
  {
    forall i | 0 <= i < |p.free|
      ensures p.free[i] != req
    {
      assert p.free[i] in p.free;
    }
  }

  lemma LandKeeps(p: Pool, req: nat)
    requires Accounted(p, {}) && req in p.flying
    ensures Accounted(p.Land(req), {})
    ensures |p.free| <= MAXLISTSIZE ==> p.Land(req) == Pool(p.free + [req], p.flying - {req}, p.freed, p.next)
    ensures |p.free| > MAXLISTSIZE ==> p.Land(req) == Pool(p.free, p.flying - {req}, p.freed + {req}, p.next)
  {
    forall i | 0 <= i < |p.free|
      ensures p.free[i] != req
    {
      assert p.free[i] in p.free;
    }
  }
}

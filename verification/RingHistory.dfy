/** The ring over whole histories of writes, reads and clears. */
module RingHistory {
  import opened Bytes
  import opened Ring

  datatype Op = Write(src: seq<byte>, count: int) | Read(count: int) | Clear

  /** What the class's methods do to the queue, one operation after the other. */
  function Apply(q: Queue, op: Op): (r: Queue)
    requires q.Valid()
    ensures r.Valid() && r.cap == q.cap
  {
    match op
    case Write(src, count) => q.Put(if count > |src| then [] else src[..q.Accepts(count)])
    case Read(count) => q.Drop(if count <= 0 then 0 else Min(count, |q.bytes|))
    case Clear => Queue(q.cap, 0, [])
  }

  function After(cap: nat, ops: seq<Op>): (q: Queue)
    requires cap > 0
    ensures q.Valid() && q.cap == cap
  {
    if ops == [] then Queue(cap, 0, []) else Apply(After(cap, ops[..|ops| - 1]), ops[|ops| - 1])
  }

  /** A ring described by its history alone: all it has taken since it was last cleared, and how many
      of those bytes have been read. */
  datatype Log = Log(taken: seq<byte>, read: nat)

  /** The same operations on the history: no positions, no array. */
  function LoggedOne(cap: nat, l: Log, op: Op): (m: Log)
    requires cap > 0 && l.read <= |l.taken| <= l.read + cap
    ensures m.read <= |m.taken| <= m.read + cap
  {
    var held := |l.taken| - l.read;
    match op
    case Clear => Log([], 0)
    case Read(count) => Log(l.taken, if count <= 0 then l.read else Min(l.read + count, |l.taken|))
    case Write(src, count) =>
      if count <= 0 || count > |src| || held == cap then l
      else if held == 0 then Log(l.taken + src[..Min(count, cap)], l.read)
      else if held + count < cap || (held + count == cap && l.read % cap + held < cap) then
        Log(l.taken + src[..count], l.read)
      else l
  }

  function Logged(cap: nat, ops: seq<Op>): (l: Log)
    requires cap > 0
    ensures l.read <= |l.taken| <= l.read + cap
  {
    if ops == [] then Log([], 0) else LoggedOne(cap, Logged(cap, ops[..|ops| - 1]), ops[|ops| - 1])
  }

  /** Over every sequence of writes, reads and clears the ring holds what it took since the last clear
      less what was read, and its oldest byte is at the total read since then, modulo the capacity. */
  lemma {:induction false} HistoryLaw(cap: nat, ops: seq<Op>)
    requires cap > 0
    ensures After(cap, ops) == Held(cap, Logged(cap, ops))
  {
    hide Apply, LoggedOne, Held;
    if ops == [] {
      NothingHeld(cap);
    } else {
      var front, op := ops[..|ops| - 1], ops[|ops| - 1];
      HistoryLaw(cap, front);
      OneLaw(cap, Logged(cap, front), op);
    }
  }

  /** The queue that a history leaves. */
  function Held(cap: nat, l: Log): (q: Queue)
    requires cap > 0 && l.read <= |l.taken| <= l.read + cap
    ensures q.Valid()
  {
    Queue(cap, l.read % cap, l.taken[l.read..])
  }

  lemma NothingHeld(cap: nat)
    requires cap > 0
    ensures Held(cap, Log([], 0)) == Queue(cap, 0, [])
  {
  }

  lemma OneLaw(cap: nat, l: Log, op: Op)
    requires cap > 0 && l.read <= |l.taken| <= l.read + cap
    ensures Apply(Held(cap, l), op) == Held(cap, LoggedOne(cap, l, op))
  {
    match op
    case Clear => NothingHeld(cap);
    case Read(count) => ReadLaw(cap, l, if count <= 0 then 0 else Min(count, |l.taken| - l.read));
    case Write(src, count) => WriteLaw(cap, l, src, count);
  }

  lemma WriteLaw(cap: nat, l: Log, src: seq<byte>, count: int)
    requires cap > 0 && l.read <= |l.taken| <= l.read + cap
    ensures Apply(Held(cap, l), Write(src, count)) == Held(cap, LoggedOne(cap, l, Write(src, count)))
  {
    var n := if count > |src| then 0 else Held(cap, l).Accepts(count);
    assert src[..0] == [];
    assert (l.taken + src[..n])[l.read..] == l.taken[l.read..] + src[..n];
    assert l.taken + [] == l.taken;
  }

  lemma ReadLaw(cap: nat, l: Log, n: nat)
    requires cap > 0 && l.read + n <= |l.taken| <= l.read + cap
    ensures Held(cap, l).Drop(n) == Held(cap, Log(l.taken, l.read + n))
  {
    assert l.taken[l.read..][n..] == l.taken[l.read + n..];
    AtMostOnceAround(l.read, n, cap);
  }

  /** A position that advances by at most the capacity goes around the end at most once. */
  lemma AtMostOnceAround(a: nat, n: nat, cap: nat)
    requires 0 < cap && n <= cap
    ensures var at := a % cap + n;
      (a + n) % cap == if at < cap then at else at - cap
  {
    var q, at := a / cap, a % cap + n;
    if at < cap {
      ModIs(a + n, q, at, cap);
    } else {
      assert cap * (q + 1) == cap * q + cap;
      ModIs(a + n, q + 1, at - cap, cap);
    }
  }

  lemma ModIs(x: int, q: int, r: int, cap: nat)
    requires 0 <= r < cap && x == cap * q + r
    ensures x % cap == r
  {
    SameRemainder(cap, x / cap, x % cap, q, r);
  }

  lemma SameRemainder(cap: nat, p: int, s: int, q: int, r: int)
    requires 0 <= r < cap && 0 <= s < cap && cap * p + s == cap * q + r
    ensures s == r
  {
    if p < q {
      Multiple(cap, q, p);
    } else if q < p {
      Multiple(cap, p, q);
    }
  }

  lemma Multiple(cap: nat, q: int, p: int)
    requires p < q
    ensures cap * q >= cap * p + cap
  {
    assert cap * q == cap * p + cap * (q - p);
    assert cap * (q - p) == cap + cap * (q - p - 1);
  }

  /** An exact fit around the end of the array is refused: in a ring of 10, after 6 bytes written and
      read and 6 more written, the 4 bytes of room are not enough for 4 bytes. */
  lemma ExactFitRefused(six: seq<byte>, four: seq<byte>)
    requires |six| == 6 && |four| == 4
    ensures var q := After(10, [Write(six, 6), Read(6), Write(six, 6)]);
      q == Queue(10, 6, six) && q.Accepts(4) == 0
    ensures After(10, [Write(six, 6), Read(6), Write(six, 6), Write(four, 4)]).bytes == six
  {
    var q0 := Queue(10, 0, []);
    assert six[..6] == six && six[6..] == [] && [] + six == six && four[..0] == [] && six + [] == six;
    var q1 := Apply(q0, Write(six, 6));
    assert q1 == Queue(10, 0, six);
    var q2 := Apply(q1, Read(6));
    assert q2 == Queue(10, 6, []);
    var q3 := Apply(q2, Write(six, 6));
    assert q3 == Queue(10, 6, six);
    assert Apply(q3, Write(four, 4)) == q3;
    var ops := [Write(six, 6), Read(6), Write(six, 6), Write(four, 4)];
    AfterFour(10, ops);
    assert ops[..3] == [Write(six, 6), Read(6), Write(six, 6)];
  }

  lemma AfterFour(cap: nat, ops: seq<Op>)
    requires cap > 0 && |ops| == 4
    ensures After(cap, ops[..3]) == Apply(Apply(Apply(Queue(cap, 0, []), ops[0]), ops[1]), ops[2])
    ensures After(cap, ops) == Apply(After(cap, ops[..3]), ops[3])
  {
    hide Apply;
    assert ops[..3][..2] == ops[..2] && ops[..2][..1] == ops[..1] && ops[..1][..0] == [];
    assert After(cap, ops[..1]) == Apply(Queue(cap, 0, []), ops[0]);
    assert After(cap, ops[..2]) == Apply(After(cap, ops[..1]), ops[1]);
  }
}

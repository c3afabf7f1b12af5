/** The two packet pools. Each is a ring of slots with a build index (the
    slot last handed out for an outbound packet) and a receive index (the
    slot assembling the inbound frame). An advance steps an index by one,
    steps once more if it landed on the other index, and only then wraps to
    0 -- so a wrap can land on the other index. */
module Pools {
  import opened Protocol
  import opened Packets

  datatype SizeClass = Small | Large

  function Capacity(c: SizeClass): nat {
    match c
    case Small => SmallCapacity
    case Large => LargeCapacity
  }

  function SlotCount(c: SizeClass): nat {
    match c
    case Small => SmallSlots
    case Large => LargeSlots
  }

  datatype Pool = Pool(slots: seq<Packet>, build: nat, recv: nat)

  /** Both indices name a slot, and every slot is a valid packet of at most
      the class's capacity. A slot is constructed with the class capacity; a
      frame start can copy a small packet, capacity included, into a large slot. */
  predicate PoolValid(pool: Pool, c: SizeClass) {
    && |pool.slots| == SlotCount(c)
    && pool.build < SlotCount(c)
    && pool.recv < SlotCount(c)
    && forall i :: 0 <= i < |pool.slots| ==> Valid(pool.slots[i]) && pool.slots[i].capacity <= Capacity(c)
  }

  datatype Pools = Pools(small: Pool, large: Pool)

  function Get(ps: Pools, c: SizeClass): Pool {
    match c
    case Small => ps.small
    case Large => ps.large
  }

  function With(ps: Pools, c: SizeClass, pool: Pool): (r: Pools)
    ensures Get(r, c) == pool
    ensures forall d :: d != c ==> Get(r, d) == Get(ps, d)
  {
    match c
    case Small => ps.(small := pool)
    case Large => ps.(large := pool)
  }

  predicate PoolsValid(ps: Pools) {
    PoolValid(ps.small, Small) && PoolValid(ps.large, Large)
  }

  /** The pools at start-up: every slot fresh, build index 0, receive index 1. */
  function InitialPools(): (r: Pools)
    ensures PoolsValid(r)
    ensures forall c :: Get(r, c).build == 0 && Get(r, c).recv == 1
    ensures forall c, i :: 0 <= i < SlotCount(c) ==> At(r, c, i) == Fresh(Capacity(c))
    ensures forall c :: Get(r, c).build != Get(r, c).recv
  {
    Pools(Pool(seq(SmallSlots, _ => Fresh(SmallCapacity)), 0, 1),
          Pool(seq(LargeSlots, _ => Fresh(LargeCapacity)), 0, 1))
  }

  /** The index the increment-then-skip step reaches before it is wrapped. */
  function Unwrapped(i: nat, other: nat): nat {
    if i + 1 == other then i + 2 else i + 1
  }

  /** One advance of an index, skipping the other index before wrapping.
      The result differs from the other index unless the step wrapped and the
      other index is 0: the skip protects only the unwrapped step. */
  function Advance(i: nat, other: nat, c: SizeClass): (r: nat)
    ensures r < SlotCount(c)
    ensures r == other <==> (SlotCount(c) <= Unwrapped(i, other) && other == 0)
    ensures Unwrapped(i, other) < SlotCount(c) ==> i < r
  {
    var next := i + 1;
    var skipped := if next == other then next + 1 else next;
    if skipped >= SlotCount(c) then 0 else skipped
  }

  /** Slot `i` of class `c`. */
  function At(ps: Pools, c: SizeClass, i: nat): (p: Packet)
    requires PoolsValid(ps) && i < SlotCount(c)
    ensures Valid(p) && p.capacity <= Capacity(c)
  {
    Get(ps, c).slots[i]
  }

  /** The packet in the receive slot of class `c`. */
  function Current(ps: Pools, c: SizeClass): (p: Packet)
    requires PoolsValid(ps)
    ensures Valid(p) && p.capacity <= Capacity(c)
  {
    At(ps, c, Get(ps, c).recv)
  }

  /** Overwrite slot `i` of class `c`; nothing else changes. */
  function Store(ps: Pools, c: SizeClass, i: nat, p: Packet): (r: Pools)
    requires PoolsValid(ps) && i < SlotCount(c)
    requires Valid(p) && p.capacity <= Capacity(c)
    ensures PoolsValid(r)
    ensures Get(r, c) == Get(ps, c).(slots := Get(ps, c).slots[i := p])
    ensures forall d :: d != c ==> Get(r, d) == Get(ps, d)
  {
    var pool := Get(ps, c);
    With(ps, c, pool.(slots := pool.slots[i := p]))
  }

  /** After a store, the slot holds the packet; every index and every other
      slot is as it was. */
  lemma StoreFrame(ps: Pools, c: SizeClass, i: nat, p: Packet)
    requires PoolsValid(ps) && i < SlotCount(c)
    requires Valid(p) && p.capacity <= Capacity(c)
    ensures At(Store(ps, c, i, p), c, i) == p
    ensures forall d :: Get(Store(ps, c, i, p), d).build == Get(ps, d).build
    ensures forall d :: Get(Store(ps, c, i, p), d).recv == Get(ps, d).recv
    ensures forall d, j: nat :: j < SlotCount(d) && (d != c || j != i) ==> At(Store(ps, c, i, p), d, j) == At(ps, d, j)
  {
    var r := Store(ps, c, i, p);
    forall d, j: nat | j < SlotCount(d) && (d != c || j != i)
      ensures At(r, d, j) == At(ps, d, j)
    {
      if d == c {
        assert Get(r, c).slots == Get(ps, c).slots[i := p];
      }
    }
  }

  /** Every slot other than slot `k` of class `b` and slot `n` of class
      `rc` holds in `r` what it holds in `ps`. */
  predicate OthersUnchanged(r: Pools, ps: Pools, b: SizeClass, k: nat, rc: SizeClass, n: nat)
    requires PoolsValid(r) && PoolsValid(ps)
  {
    forall d, j: nat :: j < SlotCount(d) && (d != b || j != k) && (d != rc || j != n) ==> At(r, d, j) == At(ps, d, j)
  }

  /** Storing twice into one slot leaves the second packet. */
  lemma StoreTwice(ps: Pools, c: SizeClass, i: nat, p: Packet, q: Packet)
    requires PoolsValid(ps) && i < SlotCount(c)
    requires Valid(p) && p.capacity <= Capacity(c) && Valid(q) && q.capacity <= Capacity(c)
    ensures Store(Store(ps, c, i, p), c, i, q) == Store(ps, c, i, q)
  {
    var pool := Get(ps, c);
    assert pool.slots[i := p][i := q] == pool.slots[i := q];
    match c
    case Small =>
    case Large =>
  }

  /** Writing back what a slot holds changes nothing. */
  lemma StoreSame(ps: Pools, c: SizeClass, i: nat)
    requires PoolsValid(ps) && i < SlotCount(c)
    ensures Store(ps, c, i, At(ps, c, i)) == ps
  {
    var pool := Get(ps, c);
    assert pool.slots[i := At(ps, c, i)] == pool.slots;
    match c
    case Small =>
    case Large =>
  }

  /** getNextAvailablePacket: advance the build index past the receive index
      and recycle the slot it lands on as a fresh packet, which is handed out
      in the build slot. The receive side is untouched. */
  function Acquire(ps: Pools, c: SizeClass): (r: Pools)
    requires PoolsValid(ps)
    ensures PoolsValid(r)
    ensures Get(r, c).build == Advance(Get(ps, c).build, Get(ps, c).recv, c)
    ensures Get(r, c).recv == Get(ps, c).recv
    ensures Get(r, c).slots[Get(r, c).build] == Fresh(Capacity(c))
    ensures forall i :: 0 <= i < SlotCount(c) && i != Get(r, c).build ==> Get(r, c).slots[i] == Get(ps, c).slots[i]
    ensures forall d :: d != c ==> Get(r, d) == Get(ps, d)
  {
    var pool := Get(ps, c);
    var b := Advance(pool.build, pool.recv, c);
    With(ps, c, Pool(pool.slots[b := Fresh(Capacity(c))], b, pool.recv))
  }

  /** A transmit without a pending request: acquire the next build slot of
      class `c` and fill it with `p`; nothing else in either pool moves. */
  function Post(ps: Pools, c: SizeClass, p: Packet): (r: Pools)
    requires PoolsValid(ps) && Valid(p) && p.capacity <= Capacity(c)
    ensures PoolsValid(r)
    ensures var n := Advance(Get(ps, c).build, Get(ps, c).recv, c);
      && Get(r, c).build == n && Get(r, c).recv == Get(ps, c).recv
      && At(r, c, n) == p
      && (forall d :: d != c ==> Get(r, d) == Get(ps, d))
      && OthersUnchanged(r, ps, c, n, c, n)
  {
    var acquired := Acquire(ps, c);
    StoreFrame(acquired, c, Get(acquired, c).build, p);
    Store(acquired, c, Get(acquired, c).build, p)
  }

  /** getReceivePacket: while the receive slot is still writeable it is kept
      as it is; once sealed, the receive index advances past the build index
      and the slot it lands on is recycled. Either way the slot handed back
      is writeable. */
  function Receive(ps: Pools, c: SizeClass): (r: Pools)
    requires PoolsValid(ps)
    ensures PoolsValid(r)
    ensures Current(r, c).writeable
    ensures Current(ps, c).writeable ==> r == ps
    ensures !Current(ps, c).writeable ==>
      && Get(r, c).recv == Advance(Get(ps, c).recv, Get(ps, c).build, c)
      && Get(r, c).build == Get(ps, c).build
      && Current(r, c) == Fresh(Capacity(c))
      && (forall i :: 0 <= i < SlotCount(c) && i != Get(r, c).recv ==> Get(r, c).slots[i] == Get(ps, c).slots[i])
    ensures forall d :: d != c ==> Get(r, d) == Get(ps, d)
  {
    var pool := Get(ps, c);
    if pool.slots[pool.recv].writeable then ps
    else
      var i := Advance(pool.recv, pool.build, c);
      With(ps, c, Pool(pool.slots[i := Fresh(Capacity(c))], pool.build, i))
  }

  /** A handler's writes once its build slot is acquired: the inbound packet
      in slot `k` of class `b`, its cursor moved by the handler's reads, and
      the response in the build slot of class `rc`. When the two are one
      slot, the handler read and wrote the same object: it holds the response
      with the cursor the reads left. */
  function Respond(ps: Pools, b: SizeClass, k: nat, request: Packet, rc: SizeClass, response: Packet): (r: Pools)
    requires PoolsValid(ps) && k < SlotCount(b)
    requires Valid(request) && request.capacity <= Capacity(b)
    requires Valid(response) && response.capacity <= Capacity(rc)
    ensures PoolsValid(r)
    ensures forall d :: Get(r, d).build == Get(ps, d).build && Get(r, d).recv == Get(ps, d).recv
    ensures rc == b && Get(ps, rc).build == k ==> At(r, b, k) == response.(cursor := request.cursor)
    ensures !(rc == b && Get(ps, rc).build == k) ==>
      At(r, b, k) == request && At(r, rc, Get(ps, rc).build) == response
    ensures OthersUnchanged(r, ps, b, k, rc, Get(ps, rc).build)
  {
    var n := Get(ps, rc).build;
    if rc == b && n == k then
      var merged := response.(cursor := request.cursor);
      StoreFrame(ps, b, k, merged);
      Store(ps, b, k, merged)
    else
      var kept := Store(ps, b, k, request);
      StoreFrame(ps, b, k, request);
      StoreFrame(kept, rc, n, response);
      Store(kept, rc, n, response)
  }

  /** A handler's writes seen from before it acquired its build slot: the
      build index of class `rc` takes one step, and apart from the inbound
      slot and the new build slot the pools are as they were. */
  lemma AcquireThenRespond(ps: Pools, b: SizeClass, k: nat, request: Packet, rc: SizeClass, response: Packet)
    requires PoolsValid(ps) && k < SlotCount(b)
    requires Valid(request) && request.capacity <= Capacity(b)
    requires Valid(response) && response.capacity <= Capacity(rc)
    ensures var n := Advance(Get(ps, rc).build, Get(ps, rc).recv, rc);
      var r := Respond(Acquire(ps, rc), b, k, request, rc, response);
      && Get(r, rc).build == n
      && (forall d :: d != rc ==> Get(r, d).build == Get(ps, d).build)
      && (forall d :: Get(r, d).recv == Get(ps, d).recv)
      && OthersUnchanged(r, ps, b, k, rc, n)
  {
    var acquired := Acquire(ps, rc);
    var n := Get(acquired, rc).build;
    var r := Respond(acquired, b, k, request, rc, response);
    forall d, j: nat | j < SlotCount(d) && (d != b || j != k) && (d != rc || j != n)
      ensures At(r, d, j) == At(ps, d, j)
    {
      assert At(r, d, j) == At(acquired, d, j);
    }
  }

  /** The conditional non-collision property of getNextAvailablePacket: the
      build slot it hands out is the receive slot exactly when the step
      wrapped and the receive index is 0. */
  lemma AcquireCollidesOnlyOnWrap(ps: Pools, c: SizeClass)
    requires PoolsValid(ps)
    ensures var pool := Get(ps, c);
      Get(Acquire(ps, c), c).build == pool.recv
      <==> (SlotCount(c) <= Unwrapped(pool.build, pool.recv) && pool.recv == 0)
  {
  }

  /** The same for getReceivePacket: after an advance, the receive slot is the
      build slot exactly when the step wrapped and the build index is 0. */
  lemma ReceiveCollidesOnlyOnWrap(ps: Pools, c: SizeClass)
    requires PoolsValid(ps) && !Current(ps, c).writeable
    ensures var pool := Get(ps, c);
      Get(Receive(ps, c), c).recv == pool.build
      <==> (SlotCount(c) <= Unwrapped(pool.recv, pool.build) && pool.build == 0)
  {
  }

  /** A small pool with build index 3 and receive index 0: the build step
      reaches 4, wraps to 0 and lands on the receive slot. */
  lemma AcquireCollisionExample()
    ensures var ps := InitialPools().(small := InitialPools().small.(build := 3, recv := 0));
      Get(Acquire(ps, Small), Small).build == 0 == Get(Acquire(ps, Small), Small).recv
  {
  }
}

/** The receive side of poll: a state machine fed one byte at a time. Bytes
    above 127 are frame markers (128 ends a frame, any other starts one and is
    its command); bytes below 128 are hexadecimal digits, and every second
    digit appends one byte to the inbound packet. */
module Receiver {
  import opened Protocol
  import opened Hex
  import opened Packets
  import opened Pools
  import opened Transmit
  import opened Commands

  /** The pending half of a digit pair: the firmware keeps the digit index
      and buffer in function statics, so a pending digit survives the start
      of a new frame. */
  datatype Phase = Even | Odd(high: bv8)

  /** The pools; the class whose receive slot the next poll binds (the
      firmware's i_recvPacketIsLarge); the slot, `slot` of class `bound`,
      that the running poll bound its packet reference to; the digit phase;
      and every frame sent so far. */
  datatype RxState = RxState(pools: Pools, receiving: SizeClass, bound: SizeClass, slot: nat,
                             phase: Phase, out: seq<seq<bv8>>)

  predicate StateValid(s: RxState) {
    PoolsValid(s.pools) && s.slot < SlotCount(s.bound)
  }

  /** Start-up: small receive slot 1, which is what the first poll binds. */
  function Initial(): (s: RxState)
    ensures StateValid(s)
  {
    RxState(InitialPools(), Small, Small, 1, Even, [])
  }

  /** The packet every byte of the running poll goes to. */
  function Inbound(s: RxState): (p: Packet)
    requires StateValid(s)
    ensures Valid(p) && p.capacity <= Capacity(s.bound)
  {
    At(s.pools, s.bound, s.slot)
  }

  /** echo and ret frames are received into a large packet, all others into a small one. */
  function ClassFor(code: bv8): SizeClass {
    if code == RecvRet || code == RecvEcho then Large else Small
  }

  predicate AllWellFormed(frames: seq<seq<bv8>>) {
    forall i :: 0 <= i < |frames| ==> WellFormedFrame(frames[i])
  }

  /** The copy-assignment of a packet into a slot of class `c`: every field
      is copied. A large packet copied into a small slot is cut to the small
      capacity (the firmware copies its capacity of 256 into a 64-byte
      buffer). */
  function CopyInto(p: Packet, c: SizeClass): (r: Packet)
    requires Valid(p)
    ensures Valid(r) && r.capacity <= Capacity(c)
    ensures r.command == p.command && r.writeable == p.writeable && r.cursor == p.cursor
    ensures r.data == Clip(p.data, Capacity(c))
    ensures p.capacity <= Capacity(c) ==> r == p
  {
    if p.capacity <= Capacity(c) then p
    else p.(capacity := Capacity(c), data := Clip(p.data, Capacity(c)))
  }

  /** The top of poll: the packet reference is bound to the receive slot of
      the current class, recycled first when it is sealed. */
  function Bind(s: RxState): (r: RxState)
    requires StateValid(s)
    ensures StateValid(r) && r.receiving == s.receiving && r.phase == s.phase && r.out == s.out
    ensures r.pools == Receive(s.pools, s.receiving)
    ensures r.bound == s.receiving && r.slot == Get(r.pools, s.receiving).recv
    ensures Inbound(r) == Current(r.pools, s.receiving) && Inbound(r).writeable
  {
    var ps := Receive(s.pools, s.receiving);
    s.(pools := ps, bound := s.receiving, slot := Get(ps, s.receiving).recv)
  }

  /** What a frame start copies into the bound slot: the receive slot of the
      code's class as getReceivePacket hands it back. */
  function Incoming(s: RxState, code: bv8): (p: Packet)
    requires StateValid(s)
    ensures Valid(p) && p.capacity <= Capacity(s.bound) && p.writeable
    ensures var c := ClassFor(code);
      !Current(s.pools, c).writeable ==>
        p == Fresh(if Capacity(c) <= Capacity(s.bound) then Capacity(c) else Capacity(s.bound))
    ensures var c := ClassFor(code);
      s.bound == c && s.slot == Get(s.pools, c).recv && Inbound(s).writeable ==> p == Inbound(s)
  {
    var c := ClassFor(code);
    CopyInto(Current(Receive(s.pools, c), c), s.bound)
  }

  /** A frame-start marker: select the code's class, take that class's
      receive slot (recycled when sealed), copy it into the bound slot and set
      the command there. The receive slot itself is not given the command
      unless it is the bound slot. The digit phase is left alone. */
  function StartFrame(s: RxState, code: bv8): (r: RxState)
    requires StateValid(s) && IsMarker(code) && code != RecvNoop
    ensures StateValid(r) && r.receiving == ClassFor(code) && r.phase == s.phase && r.out == s.out
    ensures r.bound == s.bound && r.slot == s.slot
    ensures Inbound(r) == SetCommand(Incoming(s, code), code as bv16) && Inbound(r).writeable
    ensures var ps := Receive(s.pools, ClassFor(code));
      forall d :: Get(r.pools, d).build == Get(ps, d).build && Get(r.pools, d).recv == Get(ps, d).recv
    ensures var c := ClassFor(code);
      s.bound != c || s.slot != Get(r.pools, c).recv ==> Current(r.pools, c) == Current(Receive(s.pools, c), c)
    ensures forall d, j: nat :: j < SlotCount(d) && (d != s.bound || j != s.slot) ==>
      At(r.pools, d, j) == At(Receive(s.pools, ClassFor(code)), d, j)
  {
    var c := ClassFor(code);
    var ps := Receive(s.pools, c);
    var copy := SetCommand(CopyInto(Current(ps, c), s.bound), code as bv16);
    StoreFrame(ps, s.bound, s.slot, copy);
    s.(pools := Store(ps, s.bound, s.slot, copy), receiving := c)
  }

  /** The end marker: seal the bound packet and run processCommand on it.
      When the response lands on the bound slot, the handler reads the reset
      response packet instead of the request. The bound slot ends sealed. */
  function EndFrame(s: RxState, vars: seq<Variable>): (r: RxState)
    requires StateValid(s)
    ensures StateValid(r) && r.receiving == s.receiving && r.phase == s.phase
    ensures r.bound == s.bound && r.slot == s.slot
    ensures var code := Inbound(s).command;
      r.out == s.out + Answer(code, if Overwrites(s.pools, s.bound, s.slot, code) then Fresh(Capacity(s.bound)) else End(Inbound(s)), vars)
    ensures !Inbound(r).writeable
    ensures AllWellFormed(s.out) ==> AllWellFormed(r.out)
  {
    var sealed := Store(s.pools, s.bound, s.slot, End(Inbound(s)));
    StoreFrame(s.pools, s.bound, s.slot, End(Inbound(s)));
    assert Overwrites(sealed, s.bound, s.slot, Inbound(s).command) == Overwrites(s.pools, s.bound, s.slot, Inbound(s).command);
    var d := Dispatch(sealed, s.bound, s.slot, vars);
    s.(pools := d.0, out := s.out + d.1)
  }

  /** A digit: ignored unless the bound packet's command is a marker;
      otherwise the first of a pair is kept and the second completes a byte
      that is put into the bound packet (and dropped by the put once it is
      sealed). */
  function Digit(s: RxState, b: bv8): (r: RxState)
    requires StateValid(s) && !IsMarker(b)
    ensures StateValid(r) && r.receiving == s.receiving && r.bound == s.bound && r.slot == s.slot && r.out == s.out
    ensures Inbound(s).command <= 127 ==> r == s
    ensures 127 < Inbound(s).command && s.phase == Even ==> r == s.(phase := Odd(b))
    ensures 127 < Inbound(s).command && s.phase.Odd? ==>
      r == s.(phase := Even, pools := Store(s.pools, s.bound, s.slot, PutByte(Inbound(s), DecodePair(s.phase.high, b))))
  {
    if 127 < Inbound(s).command then
      match s.phase
      case Even => s.(phase := Odd(b))
      case Odd(high) =>
        s.(phase := Even, pools := Store(s.pools, s.bound, s.slot, PutByte(Inbound(s), DecodePair(high, b))))
    else s
  }

  /** One byte of poll's loop. */
  function Step(s: RxState, vars: seq<Variable>, b: bv8): (r: RxState)
    requires StateValid(s)
    ensures StateValid(r) && r.bound == s.bound && r.slot == s.slot
    ensures |s.out| <= |r.out| <= |s.out| + 1 && r.out[..|s.out|] == s.out
    ensures AllWellFormed(s.out) ==> AllWellFormed(r.out)
    ensures |r.out| == |s.out| + 1 ==> b == RecvNoop
  {
    if IsMarker(b) then
      if b == RecvNoop then EndFrame(s, vars) else StartFrame(s, b)
    else Digit(s, b)
  }

  /** The loop of poll over the bytes available, in order. */
  function Run(s: RxState, vars: seq<Variable>, input: seq<bv8>): (r: RxState)
    requires StateValid(s)
    ensures StateValid(r) && r.bound == s.bound && r.slot == s.slot
    ensures |s.out| <= |r.out| && r.out[..|s.out|] == s.out
    ensures AllWellFormed(s.out) ==> AllWellFormed(r.out)
    decreases |input|
  {
    if input == [] then s
    else
      var t := Step(s, vars, input[0]);
      var r := Run(t, vars, input[1..]);
      assert r.out[..|s.out|] == r.out[..|t.out|][..|s.out|];
      r
  }

  /** poll: bind the packet reference, then run the loop over the bytes
      available. Every byte of one poll goes to the slot bound at its start,
      whatever frames start in between. */
  function Poll(s: RxState, vars: seq<Variable>, input: seq<bv8>): (r: RxState)
    requires StateValid(s)
    ensures StateValid(r)
    ensures r.bound == s.receiving && r.slot == Get(Receive(s.pools, s.receiving), s.receiving).recv
    ensures |s.out| <= |r.out| && r.out[..|s.out|] == s.out
    ensures AllWellFormed(s.out) ==> AllWellFormed(r.out)
  {
    Run(Bind(s), vars, input)
  }

  lemma {:induction false} RunAppend(s: RxState, vars: seq<Variable>, a: seq<bv8>, b: seq<bv8>)
    requires StateValid(s)
    ensures Run(s, vars, a + b) == Run(Run(s, vars, a), vars, b)
    decreases |a|
  {
    if a != [] {
      assert (a + b)[0] == a[0] && (a + b)[1..] == a[1..] + b;
      RunAppend(Step(s, vars, a[0]), vars, a[1..], b);
    } else {
      assert a + b == b;
    }
  }

  lemma RunPair(s: RxState, vars: seq<Variable>, x: bv8, y: bv8)
    requires StateValid(s)
    ensures Run(s, vars, [x, y]) == Step(Step(s, vars, x), vars, y)
  {
    assert [x, y][1..] == [y];
    assert Run(s, vars, [x, y]) == Run(Step(s, vars, x), vars, [y]);
    RunSingle(Step(s, vars, x), vars, y);
  }

  lemma RunSingle(s: RxState, vars: seq<Variable>, x: bv8)
    requires StateValid(s)
    ensures Run(s, vars, [x]) == Step(s, vars, x)
  {
    assert [x][1..] == [];
  }

  /** The two digits of one byte, fed in phase, append that byte. */
  lemma FirstDigit(t: RxState, vars: seq<Variable>, hi: bv8)
    requires StateValid(t) && t.phase == Even && 127 < Inbound(t).command && !IsMarker(hi)
    ensures Step(t, vars, hi) == t.(phase := Odd(hi))
  {
  }

  lemma SecondDigit(t: RxState, vars: seq<Variable>, lo: bv8)
    requires StateValid(t) && t.phase.Odd? && 127 < Inbound(t).command && !IsMarker(lo)
    ensures Step(t, vars, lo)
         == t.(phase := Even, pools := Store(t.pools, t.bound, t.slot, PutByte(Inbound(t), DecodePair(t.phase.high, lo))))
  {
  }

  /** The state once `d` is appended to the bound packet. */
  function Appended(s: RxState, d: seq<bv8>): (r: RxState)
    requires StateValid(s) && Fits(Inbound(s), |d|)
    ensures StateValid(r) && r == s.(pools := r.pools)
    ensures Inbound(r) == Inbound(s).(data := Inbound(s).data + d)
    ensures forall c :: Get(r.pools, c).build == Get(s.pools, c).build && Get(r.pools, c).recv == Get(s.pools, c).recv
    ensures OthersUnchanged(r.pools, s.pools, s.bound, s.slot, s.bound, s.slot)
  {
    var p := Inbound(s).(data := Inbound(s).data + d);
    StoreFrame(s.pools, s.bound, s.slot, p);
    s.(pools := Store(s.pools, s.bound, s.slot, p))
  }

  /** Appending nothing changes nothing; appending twice appends the concatenation. */
  lemma AppendedNothing(s: RxState)
    requires StateValid(s) && Inbound(s).writeable
    ensures Appended(s, []) == s
  {
    assert Inbound(s).(data := Inbound(s).data + []) == Inbound(s);
    StoreSame(s.pools, s.bound, s.slot);
  }

  lemma AppendedTwice(s: RxState, a: seq<bv8>, b: seq<bv8>)
    requires StateValid(s) && Fits(Inbound(s), |a| + |b|)
    ensures Appended(Appended(s, a), b) == Appended(s, a + b)
  {
    var p1 := Inbound(s).(data := Inbound(s).data + a);
    var p2 := p1.(data := p1.data + b);
    assert p2 == Inbound(s).(data := Inbound(s).data + (a + b));
    StoreTwice(s.pools, s.bound, s.slot, p1, p2);
  }

  lemma PairAppends(t: RxState, vars: seq<Variable>, b: bv8)
    requires StateValid(t) && t.phase == Even && 127 < Inbound(t).command
    requires Fits(Inbound(t), 1)
    ensures Run(t, vars, HexByte(b)) == Appended(t, [b])
  {
    var digits := HexByte(b);
    var hi, lo := digits[0], digits[1];
    FirstDigit(t, vars, hi);
    var t1 := t.(phase := Odd(hi));
    SecondDigit(t1, vars, lo);
    assert digits == [hi, lo];
    RunPair(t, vars, hi, lo);
  }

  /** A sequence is its prefix without the last element, then that element. */
  lemma SnocAppend(s: seq<bv8>)
    requires s != []
    ensures s[..|s| - 1] + [s[|s| - 1]] == s
  {
  }

  /** The last byte's digits, after the rest of a payload is reassembled. */
  lemma AppendLast(s: RxState, vars: seq<Variable>, payload: seq<bv8>)
    requires StateValid(s) && s.phase == Even && 127 < Inbound(s).command
    requires payload != [] && Fits(Inbound(s), |payload|)
    requires Run(s, vars, HexAll(payload[..|payload| - 1])) == Appended(s, payload[..|payload| - 1])
    ensures Run(s, vars, HexAll(payload)) == Appended(s, payload)
  {
    var init := payload[..|payload| - 1];
    var last := payload[|payload| - 1];
    assert HexAll(payload) == HexAll(init) + HexByte(last);
    RunAppend(s, vars, HexAll(init), HexByte(last));
    var t := Appended(s, init);
    PairAppends(t, vars, last);
    AppendedTwice(s, init, [last]);
    SnocAppend(payload);
  }

  /** The digits of a payload, fed inside a frame in phase, append exactly
      that payload to the bound packet and leave everything else as it was. */
  lemma {:induction false} PayloadReassembled(s: RxState, vars: seq<Variable>, payload: seq<bv8>)
    requires StateValid(s) && s.phase == Even && 127 < Inbound(s).command
    requires Fits(Inbound(s), |payload|)
    ensures Run(s, vars, HexAll(payload)) == Appended(s, payload)
    decreases |payload|
  {
    if payload == [] {
      AppendedNothing(s);
    } else {
      PayloadReassembled(s, vars, payload[..|payload| - 1]);
      AppendLast(s, vars, payload);
    }
  }

  /** A frame's command and digits, received in phase when the frame start
      copies in an empty packet with room, rebuild the sent packet in the
      bound slot. The pool indices are those the frame start left. */
  lemma FrameBodyRebuildsPacket(s: RxState, vars: seq<Variable>, code: bv8, payload: seq<bv8>)
    requires StateValid(s) && s.phase == Even && IsMarker(code) && code != RecvNoop
    requires var p := Incoming(s, code); p.data == [] && p.cursor == 0 && |payload| <= p.capacity
    ensures var t := Run(s, vars, [code] + HexAll(payload));
      && t.receiving == ClassFor(code) && t.phase == Even && t.out == s.out
      && Inbound(t) == Packet(code as bv16, Incoming(s, code).capacity, payload, true, 0)
      && var ps := Receive(s.pools, ClassFor(code));
         forall d :: Get(t.pools, d).build == Get(ps, d).build && Get(t.pools, d).recv == Get(ps, d).recv
  {
    RunAppend(s, vars, [code], HexAll(payload));
    RunSingle(s, vars, code);
    var t0 := StartFrame(s, code);
    assert Inbound(t0) == Packet(code as bv16, Incoming(s, code).capacity, [], true, 0);
    PayloadReassembled(t0, vars, payload);
  }

  /** A frame as send writes it, received in phase when the frame start
      copies in an empty packet with room, is answered as processCommand
      answers the sealed packet it describes -- or, when the response is
      built in the bound slot itself, as it answers the reset packet. */
  lemma FrameRoundTrip(s: RxState, vars: seq<Variable>, code: bv8, payload: seq<bv8>)
    requires StateValid(s) && s.phase == Even && IsMarker(code) && code != RecvNoop
    requires var p := Incoming(s, code); p.data == [] && p.cursor == 0 && |payload| <= p.capacity
    ensures var t := Run(s, vars, Frame(code, payload));
      && t.phase == Even && t.receiving == ClassFor(code) && !Inbound(t).writeable
      && t.out == s.out + Answer(code as bv16,
           if Overwrites(Receive(s.pools, ClassFor(code)), s.bound, s.slot, code as bv16) then Fresh(Capacity(s.bound))
           else Packet(code as bv16, Incoming(s, code).capacity, payload, false, 0), vars)
  {
    var body := [code] + HexAll(payload);
    assert Frame(code, payload) == body + [SendNoop];
    RunAppend(s, vars, body, [SendNoop]);
    FrameBodyRebuildsPacket(s, vars, code, payload);
    var t := Run(s, vars, body);
    assert Overwrites(t.pools, s.bound, s.slot, code as bv16)
        == Overwrites(Receive(s.pools, ClassFor(code)), s.bound, s.slot, code as bv16);
    RunSingle(t, vars, SendNoop);
  }

  /** Digits while the bound packet's command is not a marker (before any
      frame has started in it) are dropped without trace. */
  lemma {:induction false} StrayDigitsIgnored(s: RxState, vars: seq<Variable>, input: seq<bv8>)
    requires StateValid(s) && Inbound(s).command <= 127
    requires forall i :: 0 <= i < |input| ==> !IsMarker(input[i])
    ensures Run(s, vars, input) == s
    decreases |input|
  {
    if input != [] {
      assert Step(s, vars, input[0]) == s;
      StrayDigitsIgnored(s, vars, input[1..]);
    }
  }

  /** A digit left pending by an odd number of digits is paired with the first
      digit of the next frame: the start marker does not reset the phase. */
  lemma PhaseCarriesAcrossFrames(s: RxState, vars: seq<Variable>, code: bv8, digit: bv8)
    requires StateValid(s) && s.phase.Odd? && IsMarker(code) && code != RecvNoop && !IsMarker(digit)
    requires !Current(s.pools, ClassFor(code)).writeable
    ensures var t := Run(s, vars, [code, digit]);
      t.phase == Even && Inbound(t).data == [DecodePair(s.phase.high, digit)]
  {
    RunPair(s, vars, code, digit);
  }

  /** Polling with no bytes available sends nothing. */
  lemma PollWithoutInputSendsNothing(s: RxState, vars: seq<Variable>)
    requires StateValid(s)
    ensures Poll(s, vars, []).out == s.out
    ensures Poll(s, vars, []).phase == s.phase
  {
  }
}

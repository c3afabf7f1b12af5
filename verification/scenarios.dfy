/** Concrete runs of the link from start-up, each fixing one behaviour of
    the firmware on a specific byte sequence. */
module Scenarios {
  import opened Protocol
  import opened Hex
  import opened Packets
  import opened Pools
  import opened Transmit
  import opened Commands
  import opened Receiver

  /** A table whose entry 1 is a byte variable holding 42. */
  function Table(): seq<Variable> {
    [Variable(ByteVar, [97], 7, 0, 0, []), Variable(ByteVar, [98], 42, 0, 0, [])]
  }

  lemma GetByteRequestFrame()
    ensures Frame(131, [0, 0, 1]) == [131, 48, 48, 48, 48, 48, 49, 128]
  {
    assert HexByte(0) == [48, 48] && HexByte(1) == [48, 49];
    assert HexAll([0]) == HexAll([]) + HexByte(0);
    assert HexAll([0, 0]) == HexAll([0]) + HexByte(0);
    assert HexAll([0, 0, 1]) == HexAll([0, 0]) + HexByte(1);
  }

  /** The response getbyte builds for id 0 and index 1 of the table. */
  lemma GetByteResponse()
    ensures var h := Handle(131, Packet(131, SmallCapacity, [0, 0, 1], false, 0), Table());
      h.Reply? && h.response.data == [0, 42] && LowByte(h.response.command) == 130
  {
    var request := Packet(131, SmallCapacity, [0, 0, 1], false, 0);
    assert RetId(request) == 0 && VarIndex(request) == 1;
    assert Handle(131, request, Table()) == GetValue(request, Table(), Byte);
  }

  lemma GetByteResponseDigits()
    ensures HexAll([0, 42]) == [48, 48, 50, 65]
  {
    assert HexByte(0) == [48, 48] && HexByte(42) == [50, 65];
    assert HexAll([0]) == HexAll([]) + HexByte(0);
    assert [0, 42][..1] == [0];
    assert HexAll([0, 42]) == HexAll([0]) + HexByte(42);
  }

  lemma GetByteResponseFrame()
    ensures Frame(130, [0, 42]) == [130, 48, 48, 50, 65, 128]
  {
    GetByteResponseDigits();
    assert Frame(130, [0, 42]) == [130] + HexAll([0, 42]) + [128];
  }

  lemma GetByteAnswer()
    ensures Answer(131, Packet(131, SmallCapacity, [0, 0, 1], false, 0), Table()) == [[130, 48, 48, 50, 65, 128]]
  {
    var request := Packet(131, SmallCapacity, [0, 0, 1], false, 0);
    GetByteResponse();
    GetByteResponseFrame();
    var response := Handle(131, request, Table()).response;
    assert Answer(131, request, Table()) == [Encode(response)];
    assert Encode(response) == Frame(130, [0, 42]);
  }

  /** getbyte with correlation id 0 and index 1 is answered with one ret
      frame carrying id 0 and the value 42 as the digits "2A". */
  lemma GetByteExample()
    ensures Poll(Initial(), Table(), [131, 48, 48, 48, 48, 48, 49, 128]).out == [[130, 48, 48, 50, 65, 128]]
  {
    var s := Initial();
    assert Receive(s.pools, Small) == s.pools;
    assert Bind(s) == s;
    assert Incoming(s, 131) == Fresh(SmallCapacity);
    assert !Overwrites(s.pools, Small, 1, 131);
    GetByteRequestFrame();
    FrameRoundTrip(s, Table(), 131, [0, 0, 1]);
    GetByteAnswer();
  }

  /** An echo frame whose bytes arrive over three polls is lost. The first
      poll's start marker sets the command in the small slot that poll bound,
      not in the large receive slot; the second poll binds that large slot,
      whose command is 0, so the digits are dropped and the end marker seals a
      packet processCommand ignores. The third poll then recycles the sealed
      large receive slot 1, which steps to 2 and wraps onto build slot 0. */
  lemma SplitEchoIsLost()
    ensures var s1 := Poll(Initial(), [], [129]);
      var s2 := Poll(s1, [], [52, 49, 128]);
      var s3 := Poll(s2, [], [129]);
      && s3.out == []
      && Get(s3.pools, Large).build == 0 == Get(s3.pools, Large).recv
  {
    var s0 := Initial();
    assert Bind(s0) == s0 by {
      assert Receive(s0.pools, Small) == s0.pools;
    }
    RunSingle(s0, [], 129);
    var s1 := StartFrame(s0, 129);
    assert Receive(s0.pools, Large) == s0.pools;
    assert Get(s1.pools, Large) == Get(s0.pools, Large);
    assert s1.receiving == Large && s1.out == [];
    var b1 := Bind(s1);
    assert Receive(s1.pools, Large) == s1.pools;
    assert b1.bound == Large && b1.slot == 1 && Inbound(b1) == Fresh(LargeCapacity);
    StrayDigitsIgnored(b1, [], [52, 49]);
    assert [52, 49, 128] == [52, 49] + [128];
    RunAppend(b1, [], [52, 49], [128]);
    RunSingle(b1, [], 128);
    var s2 := EndFrame(b1, []);
    assert s2.out == [];
    assert Get(s2.pools, Large).build == 0 && Get(s2.pools, Large).recv == 1;
    assert !Current(s2.pools, Large).writeable;
    var b2 := Bind(s2);
    assert Get(b2.pools, Large).recv == 0;
    RunSingle(b2, [], 129);
    var s3 := StartFrame(b2, 129);
    assert Get(s3.pools, Large).build == 0 == Get(s3.pools, Large).recv;
  }

  /** A table whose entry 0 is a byte variable holding 5. */
  function Five(): seq<Variable> {
    [Variable(ByteVar, [97], 5, 0, 0, [])]
  }

  /** The reply to getbyte for id 0 and index 0 of that table. */
  lemma ZeroIdReply(cmd: Packet)
    requires Valid(cmd) && cmd.data == [] && cmd.cursor == 0
    ensures Answer(131, cmd, Five()) == [Frame(130, [0, 5])]
  {
    assert RetId(cmd) == 0 && VarIndex(cmd) == 0;
    var h := Handle(131, cmd, Five());
    assert h == GetValue(cmd, Five(), Byte);
    assert h.response.data == [0, 5];
  }

  /** A poll bound to small slot 1, between frames. */
  predicate OnSlotOne(t: RxState) {
    StateValid(t) && t.phase == Even && t.bound == Small && t.slot == 1
  }

  /** A getbyte frame with no payload is a frame start followed by the end
      marker. */
  lemma GetByteFrameSteps(s: RxState, vars: seq<Variable>)
    requires StateValid(s)
    ensures Run(s, vars, Frame(131, [])) == EndFrame(StartFrame(s, 131), vars)
  {
    assert Frame(131, []) == [131, 128];
    RunPair(s, vars, 131, 128);
  }

  /** Whether or not the handler's build slot lands on the bound slot, the
      request it reads is empty, so the reply carries id 0 and entry 0. */
  lemma EmptyGetByteReply(s: RxState)
    requires StateValid(s) && Incoming(s, 131).data == [] && Incoming(s, 131).cursor == 0
    ensures EndFrame(StartFrame(s, 131), Five()).out == s.out + [Frame(130, [0, 5])]
  {
    var b := StartFrame(s, 131);
    ZeroIdReply(End(Inbound(b)));
    ZeroIdReply(Fresh(Capacity(s.bound)));
  }

  /** The pool effect of a getbyte frame assembled in the bound small slot
      1: the small build index takes one step, and only the bound slot and
      the new build slot change. */
  lemma GetBytePools(s: RxState)
    requires StateValid(s) && s.bound == Small && s.slot == 1
    ensures var t := EndFrame(StartFrame(s, 131), Five());
      var ps := Receive(s.pools, Small);
      && Get(t.pools, Small).build == Advance(Get(ps, Small).build, Get(ps, Small).recv, Small)
      && Get(t.pools, Small).recv == Get(ps, Small).recv
      && forall j: nat :: j < SmallSlots && j != 1 && j != Get(t.pools, Small).build ==>
           At(t.pools, Small, j) == At(ps, Small, j)
  {
    var b := StartFrame(s, 131);
    var sealed := Store(b.pools, Small, 1, End(Inbound(b)));
    StoreFrame(b.pools, Small, 1, End(Inbound(b)));
    assert EndFrame(b, Five()).pools == Dispatch(sealed, Small, 1, Five()).0;
  }

  /** An empty getbyte frame fed to the bound small slot 1, when the frame
      start copies in an empty packet. */
  lemma EmptyGetByte(s: RxState)
    requires StateValid(s) && s.phase == Even && s.bound == Small && s.slot == 1
    requires Incoming(s, 131).data == [] && Incoming(s, 131).cursor == 0
    ensures var t := Run(s, Five(), Frame(131, []));
      var ps := Receive(s.pools, Small);
      && OnSlotOne(t)
      && t.out == s.out + [Frame(130, [0, 5])]
      && !Inbound(t).writeable
      && Get(t.pools, Small).build == Advance(Get(ps, Small).build, Get(ps, Small).recv, Small)
      && Get(t.pools, Small).recv == Get(ps, Small).recv
      && forall j: nat :: j < SmallSlots && j != 1 && j != Get(t.pools, Small).build ==>
           At(t.pools, Small, j) == At(ps, Small, j)
  {
    GetByteFrameSteps(s, Five());
    EmptyGetByteReply(s);
    GetBytePools(s);
  }

  lemma FirstGetByte()
    ensures var t := Run(Initial(), Five(), Frame(131, []));
      && OnSlotOne(t)
      && t.out == [Frame(130, [0, 5])]
      && Get(t.pools, Small).build == 2 && Get(t.pools, Small).recv == 1
      && !Current(t.pools, Small).writeable
      && At(t.pools, Small, 3) == Fresh(SmallCapacity)
  {
    var s0 := Initial();
    assert Receive(s0.pools, Small) == s0.pools;
    assert Incoming(s0, 131) == Fresh(SmallCapacity);
    EmptyGetByte(s0);
  }

  lemma SecondGetByte(t1: RxState)
    requires OnSlotOne(t1)
    requires Get(t1.pools, Small).build == 2 && Get(t1.pools, Small).recv == 1
    requires !Current(t1.pools, Small).writeable
    ensures var t := Run(t1, Five(), Frame(131, []));
      && OnSlotOne(t)
      && t.out == t1.out + [Frame(130, [0, 5])]
      && Get(t.pools, Small).build == 0 && Get(t.pools, Small).recv == 3
      && At(t.pools, Small, 3) == Fresh(SmallCapacity)
  {
    var ps := Receive(t1.pools, Small);
    assert Get(ps, Small).build == 2 && Get(ps, Small).recv == 3;
    assert At(ps, Small, 3) == Fresh(SmallCapacity);
    EmptyGetByte(t1);
  }

  /** The third frame, with id 7: its build slot is the bound slot 1. */
  lemma ThirdGetByte(t2: RxState)
    requires OnSlotOne(t2)
    requires Get(t2.pools, Small).build == 0 && Get(t2.pools, Small).recv == 3
    requires At(t2.pools, Small, 3) == Fresh(SmallCapacity)
    ensures Run(t2, Five(), Frame(131, [7, 0, 0])).out == t2.out + [Frame(130, [0, 5])]
  {
    assert Receive(t2.pools, Small) == t2.pools;
    assert Incoming(t2, 131) == Fresh(SmallCapacity);
    assert Overwrites(t2.pools, Small, 1, 131);
    FrameRoundTrip(t2, Five(), 131, [7, 0, 0]);
    ZeroIdReply(Fresh(SmallCapacity));
  }

  lemma FirstTwoGetBytes()
    ensures var t := Run(Initial(), Five(), Frame(131, []) + Frame(131, []));
      && OnSlotOne(t)
      && t.out == [Frame(130, [0, 5]), Frame(130, [0, 5])]
      && Get(t.pools, Small).build == 0 && Get(t.pools, Small).recv == 3
      && At(t.pools, Small, 3) == Fresh(SmallCapacity)
  {
    var a := Frame(131, []);
    var t1 := Run(Initial(), Five(), a);
    FirstGetByte();
    RunAppend(Initial(), Five(), a, a);
    assert Run(Initial(), Five(), a + a) == Run(t1, Five(), a);
    SecondGetByte(t1);
  }

  /** Three getbyte frames in one poll from start-up, the third with
      correlation id 7. The poll assembles all three in the small slot 1 it
      bound, while the receive index moves on to 3. The third handler's build
      slot steps from 0 to 1, the bound slot, and resets it before reading the
      request, so its reply carries id 0 instead of 7. */
  lemma OverwrittenRequest()
    ensures Poll(Initial(), Five(), Frame(131, []) + Frame(131, []) + Frame(131, [7, 0, 0])).out
         == [Frame(130, [0, 5]), Frame(130, [0, 5]), Frame(130, [0, 5])]
  {
    var s0 := Initial();
    assert Bind(s0) == s0 by {
      assert Receive(s0.pools, Small) == s0.pools;
    }
    var a := Frame(131, []);
    FirstTwoGetBytes();
    ThirdGetByte(Run(s0, Five(), a + a));
    RunAppend(s0, Five(), a + a, Frame(131, [7, 0, 0]));
  }

  /** getbyte reading a packet with id 7 and index 0 answers with id 7 and
      entry 0 of the table. */
  lemma IdSevenReply(cmd: Packet)
    requires Valid(cmd) && cmd.data == [7, 0, 0] && cmd.cursor == 0
    ensures Answer(131, cmd, Five()) == [Frame(130, [7, 5])]
  {
    assert RetId(cmd) == 7 && VarIndex(cmd) == 0;
    var h := Handle(131, cmd, Five());
    assert h == GetValue(cmd, Five(), Byte);
    assert h.response.data == [7, 5];
  }

  /** The first poll of a split getbyte frame: the start marker and the
      digits of the id land in the bound small slot 1, which is also the
      small receive slot. */
  lemma SplitGetByteFirstPoll()
    ensures var t0 := StartFrame(Initial(), 131);
      && Inbound(t0) == Packet(131, SmallCapacity, [], true, 0)
      && Poll(Initial(), Five(), [131, 48, 55]) == Appended(t0, [7])
  {
    var s0 := Initial();
    assert Bind(s0) == s0 by {
      assert Receive(s0.pools, Small) == s0.pools;
    }
    assert Incoming(s0, 131) == Fresh(SmallCapacity);
    var t0 := StartFrame(s0, 131);
    assert HexByte(7) == [48, 55];
    assert [131, 48, 55] == [131] + HexByte(7);
    RunAppend(s0, Five(), [131], HexByte(7));
    RunSingle(s0, Five(), 131);
    PairAppends(t0, Five(), 7);
  }

  lemma ZeroIndexDigits()
    ensures HexAll([0, 0]) == [48, 48, 48, 48]
  {
    assert HexByte(0) == [48, 48];
    assert HexAll([0]) == HexAll([]) + HexByte(0);
    assert HexAll([0, 0]) == HexAll([0]) + HexByte(0);
  }

  /** Digits that follow bytes already appended in an earlier poll extend
      the same packet. */
  lemma DigitsContinue(t0: RxState, vars: seq<Variable>, id: seq<bv8>, index: seq<bv8>)
    requires StateValid(t0) && t0.phase == Even && 127 < Inbound(t0).command
    requires Fits(Inbound(t0), |id| + |index|)
    ensures Run(Appended(t0, id), vars, HexAll(index)) == Appended(t0, id + index)
  {
    PayloadReassembled(Appended(t0, id), vars, index);
    AppendedTwice(t0, id, index);
  }

  /** The index digits of the second poll append two zero bytes after the id. */
  lemma SplitGetByteIndexDigits(t0: RxState, vars: seq<Variable>)
    requires StateValid(t0) && t0.phase == Even && 127 < Inbound(t0).command
    requires Fits(Inbound(t0), 3)
    ensures Run(Appended(t0, [7]), vars, [48, 48, 48, 48]) == Appended(t0, [7, 0, 0])
  {
    var id: seq<bv8>, index: seq<bv8> := [7], [0, 0];
    ZeroIndexDigits();
    DigitsContinue(t0, vars, id, index);
    assert id + index == [7, 0, 0];
  }

  /** The end marker seals the request in small slot 1; the reply's build
      slot is 2, so getbyte reads the request and answers with id 7. */
  lemma SplitGetByteEnd(t0: RxState)
    requires StateValid(t0) && t0.bound == Small && t0.slot == 1 && t0.out == []
    requires Get(t0.pools, Small).build == 0 && Get(t0.pools, Small).recv == 1
    requires Inbound(t0) == Packet(131, SmallCapacity, [], true, 0)
    ensures Step(Appended(t0, [7, 0, 0]), Five(), 128).out == [Frame(130, [7, 5])]
  {
    var s2 := Appended(t0, [7, 0, 0]);
    assert !Overwrites(s2.pools, Small, 1, 131);
    IdSevenReply(End(Inbound(s2)));
  }

  /** The second poll binds the same slot, since it is still writeable, and
      completes the frame there. */
  lemma SplitGetByteSecondPoll(t0: RxState)
    requires StateValid(t0) && t0.phase == Even && t0.receiving == Small
    requires t0.bound == Small && t0.slot == 1 && t0.out == []
    requires Get(t0.pools, Small).build == 0 && Get(t0.pools, Small).recv == 1
    requires Inbound(t0) == Packet(131, SmallCapacity, [], true, 0)
    ensures Poll(Appended(t0, [7]), Five(), [48, 48, 48, 48, 128]).out == [Frame(130, [7, 5])]
  {
    var s1 := Appended(t0, [7]);
    assert Receive(s1.pools, Small) == s1.pools;
    assert Bind(s1) == s1;
    assert [48, 48, 48, 48, 128] == [48, 48, 48, 48] + [128];
    RunAppend(s1, Five(), [48, 48, 48, 48], [128]);
    SplitGetByteIndexDigits(t0, Five());
    RunSingle(Appended(t0, [7, 0, 0]), Five(), 128);
    SplitGetByteEnd(t0);
  }

  /** A getbyte frame split over two polls is answered whole when both
      polls bind the same slot: the small receive slot 1 is still writeable
      when the second poll starts, so the reply carries id 7. */
  lemma SplitGetByteKept()
    ensures Poll(Poll(Initial(), Five(), [131, 48, 55]), Five(), [48, 48, 48, 48, 128]).out
         == [Frame(130, [7, 5])]
  {
    SplitGetByteFirstPoll();
    var t0 := StartFrame(Initial(), 131);
    assert Get(t0.pools, Small).build == 0 && Get(t0.pools, Small).recv == 1;
    SplitGetByteSecondPoll(t0);
  }

  /** The markers 129 and then 131 in one poll from start-up: the first
      copies the fresh large receive slot into the bound small slot 1, the
      second switches back to the small class, whose receive slot is that
      same writeable slot 1, and copies it onto itself. */
  lemma SwitchBackMarkers()
    ensures var t0 := StartFrame(StartFrame(Initial(), 129), 131);
      && t0.phase == Even && t0.receiving == Small && t0.bound == Small && t0.slot == 1 && t0.out == []
      && Get(t0.pools, Small).build == 0 && Get(t0.pools, Small).recv == 1
      && Inbound(t0) == Packet(131, SmallCapacity, [], true, 0)
  {
    var s0 := Initial();
    assert Receive(s0.pools, Large) == s0.pools;
    assert Incoming(s0, 129) == Packet(0, SmallCapacity, [], true, 0);
    var a := StartFrame(s0, 129);
    assert Current(a.pools, Small) == Inbound(a);
    assert Receive(a.pools, Small) == a.pools;
  }

  /** The two markers on their own, from start-up. */
  lemma SwitchBackMarkerSteps(vars: seq<Variable>)
    ensures Run(Initial(), vars, [129, 131]) == StartFrame(StartFrame(Initial(), 129), 131)
  {
    RunPair(Initial(), vars, 129, 131);
  }

  /** Markers that leave an empty writeable packet in the bound slot,
      followed by the digits of one byte, append that byte there. */
  lemma MarkersThenDigits(s0: RxState, t0: RxState, vars: seq<Variable>, m: seq<bv8>, b: bv8)
    requires StateValid(s0) && Run(s0, vars, m) == t0
    requires StateValid(t0) && t0.phase == Even
    requires Inbound(t0) == Packet(131, SmallCapacity, [], true, 0)
    ensures Run(s0, vars, m + HexByte(b)) == Appended(t0, [b])
  {
    RunAppend(s0, vars, m, HexByte(b));
    PairAppends(t0, vars, b);
  }

  /** The first poll of that frame: the two markers, then the id digits,
      which land in the bound small slot 1. */
  lemma SwitchBackFirstPoll(vars: seq<Variable>)
    ensures Poll(Initial(), vars, [129, 131, 48, 55]) == Appended(StartFrame(StartFrame(Initial(), 129), 131), [7])
  {
    InitialBound();
    SwitchBackMarkers();
    SwitchBackMarkerSteps(vars);
    SevenAfterMarkers();
    MarkersThenDigits(Initial(), StartFrame(StartFrame(Initial(), 129), 131), vars, [129, 131], 7);
  }

  /** A poll from start-up binds the small receive slot 1 as it is. */
  lemma InitialBound()
    ensures Bind(Initial()) == Initial()
  {
    var s0 := Initial();
    assert Receive(s0.pools, Small) == s0.pools;
  }

  lemma SevenAfterMarkers()
    ensures [129, 131, 48, 55] == [129, 131] + HexByte(7)
  {
    assert HexByte(7) == [48, 55];
  }

  /** A getbyte frame whose start marker follows an echo marker in the same
      poll, and whose index digits arrive in the next poll, is answered with
      id 7: both polls stay bound to small slot 1. */
  lemma SwitchBackKept()
    ensures Poll(Poll(Initial(), Five(), [129, 131, 48, 55]), Five(), [48, 48, 48, 48, 128]).out
         == [Frame(130, [7, 5])]
  {
    SwitchBackFirstPoll(Five());
    SwitchBackMarkers();
    SplitGetByteSecondPoll(StartFrame(StartFrame(Initial(), 129), 131));
  }

  /** A poll with no bytes available still recycles a sealed receive slot:
      after a complete getbyte frame the small receive index skips the build slot 2
      and moves from 1 to 3. */
  lemma EmptyPollMovesReceiveIndex()
    ensures var s := Run(Initial(), [], [131, 128]);
      && Get(s.pools, Small).recv == 1
      && Get(Poll(s, [], []).pools, Small).recv == 3
      && Poll(s, [], []).out == s.out
  {
    var s0 := Initial();
    var s1 := Step(s0, [], 131);
    assert s1 == StartFrame(s0, 131);
    var s2 := Step(s1, [], 128);
    assert s2 == EndFrame(s1, []);
    assert Get(s2.pools, Small).recv == 1 && Get(s2.pools, Small).build == 2;
    assert !Current(s2.pools, Small).writeable;
    RunPair(s0, [], 131, 128);
  }
}

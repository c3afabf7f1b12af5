/** The command dispatcher and its handlers. Each handler reads its fields
    from the inbound packet with the sequential gets, builds one response
    packet in a freshly recycled pool slot, seals it and sends it. */
module Commands {
  import opened Protocol
  import opened Packets
  import opened Pools
  import opened Transmit

  /** The declared type of a variable. */
  datatype VarType = ByteVar | ShortVar | IntVar | FloatVar | StringVar

  /** The tag getvars writes for a type: the enumeration order, 0 to 4. */
  function Tag(t: VarType): (r: bv8)
    ensures r < 5
  {
    match t
    case ByteVar => 0
    case ShortVar => 1
    case IntVar => 2
    case FloatVar => 3
    case StringVar => 4
  }

  /** One entry of the variable table. The handlers ignore the declared type
      and read through the entry's pointer at their own width, so the entry
      carries what each width reads there; `name` and `text` are the bytes
      from the pointer on, as far as the first zero byte. */
  datatype Variable = Variable(kind: VarType, name: seq<bv8>, byteValue: bv8, wordValue: bv16,
                               dwordValue: bv32, text: seq<bv8>)

  /** What strlen sees: the bytes before the first zero. */
  function CString(s: seq<bv8>): (r: seq<bv8>)
    ensures |r| <= |s| && r == s[..|r|]
    ensures forall i :: 0 <= i < |r| ==> r[i] != 0
    ensures |r| < |s| ==> s[|r|] == 0
    decreases |s|
  {
    if s == [] || s[0] == 0 then [] else [s[0]] + CString(s[1..])
  }

  function ValueOf(v: Variable, k: Kind): (r: Value)
    ensures KindOf(r) == k
  {
    match k
    case Byte => U8(v.byteValue)
    case Short => U16(v.wordValue)
    case Int => U32(v.dwordValue)
  }

  /** A handler's outcome: the inbound packet with its cursor where the reads
      left it, the class of the response and the sealed response. */
  datatype Reply = NoReply | Reply(request: Packet, size: SizeClass, response: Packet)

  function Response(c: SizeClass, code: bv8): Packet {
    SetCommand(Fresh(Capacity(c)), code as bv16)
  }

  /** The correlation id and variable index every getter reads first. */
  function RetId(cmd: Packet): bv8 {
    GetByteAt(cmd, cmd.cursor)
  }

  function VarIndex(cmd: Packet): nat {
    GetShortAt(cmd, cmd.cursor + 1) as nat
  }

  /** The sequential gets of a getter's header read the correlation id and
      the index, and leave the cursor three bytes further on. */
  lemma ReadHeader(cmd: Packet)
    ensures ReadByte(cmd).0 == RetId(cmd)
    ensures ReadShort(ReadByte(cmd).1).0 as nat == VarIndex(cmd)
    ensures ReadShort(ReadByte(cmd).1).1 == cmd.(cursor := cmd.cursor + 3)
  {
    var q := cmd.(cursor := cmd.cursor + 1);
    assert ReadByte(cmd).1 == q;
    assert GetShortAt(q, q.cursor) == GetShortAt(cmd, cmd.cursor + 1);
  }

  /** A response packet holding just the correlation id. */
  lemma ResponseHead(c: SizeClass, code: bv8, id: bv8)
    ensures PutByte(Response(c, code), id) == Packet(code as bv16, Capacity(c), [id], true, 0)
  {
  }

  /** com_echo: the inbound payload, byte for byte, in a large logstr packet. */
  function Echo(cmd: Packet): (r: Reply)
    ensures r.Reply? && r.size == Large && r.request == cmd
    ensures r.response.command == SendLogStr as bv16 && !r.response.writeable
    ensures r.response.data == Clip(cmd.data, LargeCapacity)
    ensures |cmd.data| <= LargeCapacity ==> r.response.data == cmd.data
  {
    Reply(cmd, Large, End(PutBytes(Response(Large, SendLogStr), cmd.data)))
  }

  /** com_getbyte, com_getword and com_getdword: reply with the correlation
      id and the variable read at the handler's width, or zero for an index
      past the table, in a small ret packet. */
  function GetValue(cmd: Packet, vars: seq<Variable>, k: Kind): (r: Reply)
    ensures r.Reply? && r.size == Small && r.request == cmd.(cursor := cmd.cursor + 3)
    ensures r.response.command == SendRet as bv16 && !r.response.writeable
    ensures |r.response.data| == 1 + Width(k) && r.response.data[0] == RetId(cmd)
    ensures GetAt(r.response, 1, k) == if VarIndex(cmd) < |vars| then ValueOf(vars[VarIndex(cmd)], k) else Zero(k)
  {
    var id := ReadByte(cmd);
    var index := ReadShort(id.1);
    var value := if (index.0 as nat) < |vars| then ValueOf(vars[index.0 as nat], k) else Zero(k);
    var head := PutByte(Response(Small, SendRet), id.0);
    ResponseHead(Small, SendRet, id.0);
    ReadHeader(cmd);
    assert KindOf(value) == k && Fits(head, Width(k));
    var full := Put(head, value);
    PutReadsBack(head, value);
    assert full.data == [id.0] + BigEndian(value) && GetAt(full, 1, k) == value;
    Reply(index.1, Small, End(full))
  }

  /** Text followed by its terminating zero, when both fit. */
  lemma PutTerminated(p: Packet, text: seq<bv8>)
    requires Valid(p) && Fits(p, |text| + 1)
    ensures PutByte(PutBytes(p, text), 0).data == p.data + text + [0]
  {
    assert Clip(text, Room(p)) == text;
  }

  /** The capped length both getstring and logstr compute. */
  function Capped(text: seq<bv8>): (r: seq<bv8>)
    ensures r == Clip(text, LargeCapacity - 2)
  {
    var len := if |text| > LargeCapacity - 2 then LargeCapacity - 2 else |text|;
    text[..len]
  }

  /** com_getstring: the correlation id, the variable's text cut to the
      capacity less two, and a terminating zero, in a large ret packet. */
  function GetString(cmd: Packet, vars: seq<Variable>): (r: Reply)
    ensures r.Reply? && r.size == Large && r.request == cmd.(cursor := cmd.cursor + 3)
    ensures r.response.command == SendRet as bv16 && !r.response.writeable
    ensures r.response.data == [RetId(cmd)]
      + (if VarIndex(cmd) < |vars| then Clip(CString(vars[VarIndex(cmd)].text), LargeCapacity - 2) else [])
      + [0]
  {
    var id := ReadByte(cmd);
    var index := ReadShort(id.1);
    var head := PutByte(Response(Large, SendRet), id.0);
    ResponseHead(Large, SendRet, id.0);
    ReadHeader(cmd);
    if (index.0 as nat) < |vars| then
      var text := Capped(CString(vars[index.0 as nat].text));
      PutTerminated(head, text);
      Reply(index.1, Large, End(PutByte(PutBytes(head, text), 0)))
    else
      Reply(index.1, Large, End(PutByte(head, 0)))
  }

  /** The directory getvars writes: per entry, its tag, its name and a zero. */
  function Directory(vars: seq<Variable>): seq<bv8>
    decreases |vars|
  {
    if vars == [] then []
    else [Tag(vars[0].kind)] + CString(vars[0].name) + [0] + Directory(vars[1..])
  }

  /** The getvars loop, entry by entry; bytes past the capacity are dropped
      by putByte. The loop works out a capped length but never uses it. */
  function PutDirectory(p: Packet, vars: seq<Variable>): (r: Packet)
    requires Valid(p)
    ensures r == PutBytes(p, Directory(vars))
    decreases |vars|
  {
    if vars == [] then p
    else
      var name := CString(vars[0].name);
      var q := PutByte(PutBytes(PutByte(p, Tag(vars[0].kind)), name), 0);
      PutBytesAppend(p, [Tag(vars[0].kind)], name);
      PutBytesAppend(p, [Tag(vars[0].kind)] + name, [0]);
      PutBytesAppend(p, [Tag(vars[0].kind)] + name + [0], Directory(vars[1..]));
      PutDirectory(q, vars[1..])
  }

  /** com_getvars: the correlation id and the directory, cut at the capacity
      of a large ret packet. */
  function GetVars(cmd: Packet, vars: seq<Variable>): (r: Reply)
    ensures r.Reply? && r.size == Large && r.request == cmd.(cursor := cmd.cursor + 1)
    ensures r.response.command == SendRet as bv16 && !r.response.writeable
    ensures r.response.data == Clip([RetId(cmd)] + Directory(vars), LargeCapacity)
  {
    var id := ReadByte(cmd);
    var head := PutByte(Response(Large, SendRet), id.0);
    PutBytesAppend(Response(Large, SendRet), [id.0], Directory(vars));
    Reply(id.1, Large, End(PutDirectory(head, vars)))
  }

  /** The inbound codes processCommand answers. */
  predicate Answered(code: bv16) {
    code == RecvEcho as bv16 || (RecvGetByte as bv16 <= code <= RecvGetVars as bv16)
  }

  /** The class of the response a code is answered with: getbyte, getword
      and getdword reply in a small packet, echo, getstring and getvars in a
      large one. */
  function ResponseClass(code: bv16): SizeClass {
    if RecvGetByte as bv16 <= code <= RecvGetDword as bv16 then Small else Large
  }

  /** processCommand: the switch on the command code and the handler it
      selects, run on the packet `cmd` the handler reads from; no-op, ret and
      every unknown code send nothing. */
  function Handle(code: bv16, cmd: Packet, vars: seq<Variable>): (r: Reply)
    requires Valid(cmd)
    ensures r.Reply? <==> Answered(code)
    ensures r.Reply? ==>
      && r.request == cmd.(cursor := r.request.cursor) && cmd.cursor <= r.request.cursor
      && Valid(r.response) && r.response.capacity == Capacity(r.size) && !r.response.writeable
      && IsMarker(LowByte(r.response.command))
      && r.size == ResponseClass(code)
  {
    if code == RecvEcho as bv16 then Echo(cmd)
    else if code == RecvGetByte as bv16 then GetValue(cmd, vars, Byte)
    else if code == RecvGetWord as bv16 then GetValue(cmd, vars, Short)
    else if code == RecvGetDword as bv16 then GetValue(cmd, vars, Int)
    else if code == RecvGetString as bv16 then GetString(cmd, vars)
    else if code == RecvGetVars as bv16 then GetVars(cmd, vars)
    else NoReply
  }

  /** The frames processCommand sends for a code and the packet its handler
      reads: none, or the encoded response. */
  function Answer(code: bv16, cmd: Packet, vars: seq<Variable>): seq<seq<bv8>>
    requires Valid(cmd)
  {
    match Handle(code, cmd, vars)
    case NoReply => []
    case Reply(_, _, response) => [Encode(response)]
  }

  /** The build slot a reply to `code` takes is slot `k` of class `b`: every
      handler acquires its response packet before it reads the inbound one,
      so it then reads the freshly reset response. */
  predicate Overwrites(ps: Pools, b: SizeClass, k: nat, code: bv16)
    requires PoolsValid(ps)
  {
    var rc := ResponseClass(code);
    Answered(code) && rc == b && Advance(Get(ps, rc).build, Get(ps, rc).recv, rc) == k
  }

  /** The packet the handler for the command in slot `k` of class `b`
      reads: that packet, or the reset response when it is built there. */
  function Seen(ps: Pools, b: SizeClass, k: nat): (p: Packet)
    requires PoolsValid(ps) && k < SlotCount(b)
    ensures Valid(p)
  {
    if Overwrites(ps, b, k, At(ps, b, k).command) then Fresh(Capacity(b)) else At(ps, b, k)
  }

  /** processCommand on the sealed packet in slot `k` of class `b`. The
      switch reads the command first; the handler then acquires the next
      build slot of the response class, reads the inbound packet (moving its
      cursor) and builds, seals and sends the response. */
  function Dispatch(ps: Pools, b: SizeClass, k: nat, vars: seq<Variable>): (r: (Pools, seq<seq<bv8>>))
    requires PoolsValid(ps) && k < SlotCount(b)
    ensures PoolsValid(r.0)
    ensures r.1 == Answer(At(ps, b, k).command, Seen(ps, b, k), vars)
    ensures forall i :: 0 <= i < |r.1| ==> WellFormedFrame(r.1[i])
    ensures !Answered(At(ps, b, k).command) ==> r.0 == ps
    ensures Answered(At(ps, b, k).command) ==>
      var code := At(ps, b, k).command;
      var rc := ResponseClass(code);
      var n := Advance(Get(ps, rc).build, Get(ps, rc).recv, rc);
      var h := Handle(code, Seen(ps, b, k), vars);
      && Get(r.0, rc).build == n
      && (forall d :: d != rc ==> Get(r.0, d).build == Get(ps, d).build)
      && (forall d :: Get(r.0, d).recv == Get(ps, d).recv)
      && (Overwrites(ps, b, k, code) ==> At(r.0, b, k) == h.response.(cursor := h.request.cursor))
      && (!Overwrites(ps, b, k, code) ==> At(r.0, b, k) == h.request && At(r.0, rc, n) == h.response)
      && OthersUnchanged(r.0, ps, b, k, rc, n)
  {
    var code := At(ps, b, k).command;
    if !Answered(code) then (ps, [])
    else
      var rc := ResponseClass(code);
      var acquired := Acquire(ps, rc);
      var seen := At(acquired, b, k);
      assert seen == Seen(ps, b, k);
      var h := Handle(code, seen, vars);
      FramesAreWellFormed(LowByte(h.response.command), h.response.data);
      AcquireThenRespond(ps, b, k, h.request, rc, h.response);
      (Respond(acquired, b, k, h.request, rc, h.response), [Encode(h.response)])
  }

  /** The packet com_logstr builds: the message's text cut to the capacity
      less two and a terminating zero, sealed, with the logstr command. */
  function LogMessage(message: seq<bv8>): (p: Packet)
    ensures p == Packet(SendLogStr as bv16, LargeCapacity, Clip(CString(message), LargeCapacity - 2) + [0], false, 0)
  {
    var text := Capped(CString(message));
    PutTerminated(Response(Large, SendLogStr), text);
    End(PutByte(PutBytes(Response(Large, SendLogStr), text), 0))
  }

  /** com_logstr: a device-side log message sent in a large logstr packet,
      which takes the next large build slot -- the receive slot itself when
      the step wraps onto it. */
  function LogStr(ps: Pools, message: seq<bv8>): (r: (Pools, seq<bv8>))
    requires PoolsValid(ps)
    ensures PoolsValid(r.0)
    ensures r.1 == Frame(SendLogStr, LogMessage(message).data) && WellFormedFrame(r.1)
    ensures var n := Advance(Get(ps, Large).build, Get(ps, Large).recv, Large);
      && Get(r.0, Large).build == n && Get(r.0, Large).recv == Get(ps, Large).recv
      && At(r.0, Large, n) == LogMessage(message)
      && Get(r.0, Small) == Get(ps, Small)
      && OthersUnchanged(r.0, ps, Large, n, Large, n)
  {
    var response := LogMessage(message);
    assert LowByte(response.command) == SendLogStr;
    FramesAreWellFormed(SendLogStr, response.data);
    (Post(ps, Large, response), Encode(response))
  }

  lemma {:induction false} DirectoryEndsInZero(vars: seq<Variable>)
    requires vars != []
    ensures |Directory(vars)| >= 2 && Directory(vars)[|Directory(vars)| - 1] == 0
    decreases |vars|
  {
    if vars[1..] != [] {
      DirectoryEndsInZero(vars[1..]);
    }
  }

  /** When the whole directory fits, getvars sends all of it and its last
      byte is the final entry's terminating zero. */
  lemma GetVarsCompleteWhenItFits(cmd: Packet, vars: seq<Variable>)
    requires vars != [] && 1 + |Directory(vars)| <= LargeCapacity
    ensures GetVars(cmd, vars).response.data == [RetId(cmd)] + Directory(vars)
    ensures var d := GetVars(cmd, vars).response.data; d[|d| - 1] == 0
  {
    DirectoryEndsInZero(vars);
  }

  /** getvars never applies its capped length: one entry whose name is 300
      letters fills the packet with name bytes, and the terminating zero is
      dropped. */
  lemma GetVarsLosesTerminator(cmd: Packet)
    ensures var vars := [Variable(ByteVar, seq(300, _ => 65), 0, 0, 0, [])];
      var d := GetVars(cmd, vars).response.data;
      |d| == LargeCapacity && d[|d| - 1] == 65
  {
    var name: seq<bv8> := seq(300, _ => 65);
    var vars := [Variable(ByteVar, name, 0, 0, 0, [])];
    assert CString(name) == name;
    assert Directory(vars) == [0] + name + [0];
    var all := [RetId(cmd)] + Directory(vars);
    assert all[255] == name[253];
  }
}

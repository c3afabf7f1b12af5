/** The transmit encoder: a packet goes out as its command's low byte, the
    two hexadecimal digits of each payload byte, and the end marker. */
module Transmit {
  import opened Protocol
  import opened Hex
  import opened Packets

  /** The digits of a payload, two per byte, in order. */
  function HexAll(d: seq<bv8>): (r: seq<bv8>)
    ensures |r| == 2 * |d|
    ensures forall i :: 0 <= i < |r| ==> IsHexDigit(r[i]) && !IsMarker(r[i])
    decreases |d|
  {
    if d == [] then []
    else
      var init := HexAll(d[..|d| - 1]);
      var last := HexByte(d[|d| - 1]);
      assert forall i :: 0 <= i < |d| - 1 ==> d[..|d| - 1][i] == d[i];
      init + last
  }

  /** Digit pair `i` decodes to payload byte `i`. */
  lemma {:induction false} HexAllDecodes(d: seq<bv8>, i: nat)
    requires i < |d|
    ensures DecodePair(HexAll(d)[2 * i], HexAll(d)[2 * i + 1]) == d[i]
    decreases |d|
  {
    var init := d[..|d| - 1];
    assert HexAll(d) == HexAll(init) + HexByte(d[|d| - 1]);
    if i < |d| - 1 {
      HexAllDecodes(init, i);
    }
  }

  /** The bytes of one frame as `send` writes them. */
  function Frame(code: bv8, payload: seq<bv8>): (r: seq<bv8>)
    ensures |r| == 2 * |payload| + 2
    ensures r[0] == code && r[|r| - 1] == SendNoop
    ensures forall i :: 0 < i < |r| - 1 ==> !IsMarker(r[i])
  {
    var digits := HexAll(payload);
    assert forall i :: 0 < i < 2 * |payload| + 1 ==> ([code] + digits + [SendNoop])[i] == digits[i - 1];
    [code] + digits + [SendNoop]
  }

  /** The low byte of a 16-bit command, as the (uint8) cast keeps it. */
  function LowByte(command: bv16): (r: bv8)
    ensures r as bv16 == command & 0xFF
  {
    (command & 0xFF) as bv8
  }

  function Encode(p: Packet): seq<bv8> {
    Frame(LowByte(p.command), p.data)
  }

  /** What a well-formed frame looks like on the wire: a marker, an even
      number of bytes below 128, and the end marker. */
  predicate WellFormedFrame(f: seq<bv8>) {
    && 2 <= |f| && |f| % 2 == 0
    && IsMarker(f[0]) && f[|f| - 1] == SendNoop
    && forall i :: 0 < i < |f| - 1 ==> !IsMarker(f[i])
  }

  /** send: the loop over the payload writes exactly the frame `Encode` describes. */
  method Send(p: Packet) returns (wire: seq<bv8>)
    ensures wire == Encode(p)
    ensures IsMarker(LowByte(p.command)) ==> WellFormedFrame(wire)
  {
    wire := [LowByte(p.command)];
    var i := 0;
    while i < |p.data|
      invariant 0 <= i <= |p.data|
      invariant wire == [LowByte(p.command)] + HexAll(p.data[..i])
    {
      ghost var d := p.data[..i + 1];
      assert d[..|d| - 1] == p.data[..i] && d[|d| - 1] == p.data[i];
      assert HexAll(d) == HexAll(p.data[..i]) + HexByte(p.data[i]);
      wire := wire + HexByte(p.data[i]);
      i := i + 1;
    }
    assert p.data[..i] == p.data;
    wire := wire + [SendNoop];
    if IsMarker(LowByte(p.command)) {
      FramesAreWellFormed(LowByte(p.command), p.data);
    }
  }

  /** Every frame whose code is a marker is well formed. */
  lemma FramesAreWellFormed(code: bv8, payload: seq<bv8>)
    requires IsMarker(code)
    ensures WellFormedFrame(Frame(code, payload))
  {
  }

  /** A sealed packet's size() counts the frame's raw bytes: the command
      byte, one per payload byte and the end byte. On the wire each payload
      byte takes two digits, so the frame is twice as long, less two. */
  lemma EncodedLength(p: Packet)
    requires !p.writeable
    ensures |Encode(p)| == 2 * Size(p) - 2
  {
  }
}

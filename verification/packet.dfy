/** The packet: an append-only byte buffer tagged with a 16-bit command,
    written by typed puts and read by indexed or cursor-based gets.
    Multi-byte values are stored most significant byte first. */
module Packets {
  import opened Protocol

  /** `data` holds exactly the bytes written so far, so its length is the
      packet's length. The cursor is the position of the next sequential get;
      the firmware declares it `mutable`, so even the const getters move it. */
  datatype Packet = Packet(command: bv16, capacity: nat, data: seq<bv8>, writeable: bool, cursor: nat)

  /** The length never exceeds the capacity, and both fit their 16-bit fields. */
  predicate Valid(p: Packet) {
    |p.data| <= p.capacity < FieldLimit
  }

  /** A packet as constructed or recycled: command 0, empty, writeable, cursor 0. */
  function Fresh(capacity: nat): Packet {
    Packet(0, capacity, [], true, 0)
  }

  function SetCommand(p: Packet, command: bv16): Packet {
    p.(command := command)
  }

  /** A typed value, and the widths the packet reads and writes. */
  datatype Value = U8(b: bv8) | U16(w: bv16) | U32(d: bv32)
  datatype Kind = Byte | Short | Int

  function KindOf(v: Value): Kind {
    match v
    case U8(_) => Byte
    case U16(_) => Short
    case U32(_) => Int
  }

  function Width(k: Kind): nat {
    match k
    case Byte => 1
    case Short => 2
    case Int => 4
  }

  function Zero(k: Kind): Value {
    match k
    case Byte => U8(0)
    case Short => U16(0)
    case Int => U32(0)
  }

  /** The canonical (big-endian) bytes of a value. */
  function BigEndian(v: Value): (r: seq<bv8>)
    ensures |r| == Width(KindOf(v))
  {
    match v
    case U8(b) => [b]
    case U16(w) => [(w >> 8) as bv8, (w & 0xFF) as bv8]
    case U32(d) => [(d >> 24) as bv8, ((d >> 16) & 0xFF) as bv8, ((d >> 8) & 0xFF) as bv8, (d & 0xFF) as bv8]
  }

  function ShortOf(b0: bv8, b1: bv8): bv16 {
    ((b0 as bv16) << 8) | (b1 as bv16)
  }

  function IntOf(b0: bv8, b1: bv8, b2: bv8, b3: bv8): bv32 {
    ((b0 as bv32) << 24) | ((b1 as bv32) << 16) | ((b2 as bv32) << 8) | (b3 as bv32)
  }

  /** Assembling a word from its big-endian bytes gives the word back, and
      the other way round. */
  lemma ShortRoundTrip(w: bv16, b0: bv8, b1: bv8)
    ensures ShortOf(BigEndian(U16(w))[0], BigEndian(U16(w))[1]) == w
    ensures BigEndian(U16(ShortOf(b0, b1))) == [b0, b1]
  {
  }

  lemma IntRoundTrip(d: bv32, b0: bv8, b1: bv8, b2: bv8, b3: bv8)
    ensures IntOf(BigEndian(U32(d))[0], BigEndian(U32(d))[1], BigEndian(U32(d))[2], BigEndian(U32(d))[3]) == d
    ensures BigEndian(U32(IntOf(b0, b1, b2, b3))) == [b0, b1, b2, b3]
  {
  }

  /** Whether `n` more bytes may be written. */
  predicate Fits(p: Packet, n: nat) {
    p.writeable && |p.data| + n <= p.capacity
  }

  /** The shared rule of putByte, putShort and putInt: append the value's
      bytes when the packet is writeable and has room, otherwise do nothing. */
  function Put(p: Packet, v: Value): (r: Packet)
    ensures Valid(p) ==> Valid(r)
    ensures r.command == p.command && r.capacity == p.capacity
    ensures r.writeable == p.writeable && r.cursor == p.cursor
    ensures Fits(p, Width(KindOf(v))) ==> r.data == p.data + BigEndian(v)
    ensures !Fits(p, Width(KindOf(v))) ==> r == p
  {
    if !p.writeable || |p.data| + Width(KindOf(v)) > p.capacity then p
    else p.(data := p.data + BigEndian(v))
  }

  /** A value put into a packet with room is read back at the old length. */
  lemma PutReadsBack(p: Packet, v: Value)
    requires Fits(p, Width(KindOf(v)))
    ensures GetAt(Put(p, v), |p.data|, KindOf(v)) == v
  {
    var r := Put(p, v);
    assert r.data[|p.data|..|p.data| + Width(KindOf(v))] == BigEndian(v);
    DecodeBigEndian(r, |p.data|, v);
  }

  function PutByte(p: Packet, b: bv8): (r: Packet)
    ensures Fits(p, 1) ==> r.data == p.data + [b]
    ensures !Fits(p, 1) ==> r == p
    ensures r == p.(data := r.data)
  {
    Put(p, U8(b))
  }

  /** putShort stores the high byte first; reading back at the old length
      gives the word. */
  function PutShort(p: Packet, w: bv16): (r: Packet)
    ensures Fits(p, 2) ==> |r.data| == |p.data| + 2 && r.data[..|p.data|] == p.data
    ensures Fits(p, 2) ==> r.data[|p.data|] == (w >> 8) as bv8 && GetShortAt(r, |p.data|) == w
    ensures !Fits(p, 2) ==> r == p
    ensures r == p.(data := r.data)
  {
    if Fits(p, 2) then PutReadsBack(p, U16(w)); Put(p, U16(w)) else Put(p, U16(w))
  }

  /** putInt stores the most significant byte first; reading back at the old
      length gives the double word. */
  function PutInt(p: Packet, d: bv32): (r: Packet)
    ensures Fits(p, 4) ==> |r.data| == |p.data| + 4 && r.data[..|p.data|] == p.data
    ensures Fits(p, 4) ==> r.data[|p.data|] == (d >> 24) as bv8 && GetIntAt(r, |p.data|) == d
    ensures !Fits(p, 4) ==> r == p
    ensures r == p.(data := r.data)
  {
    if Fits(p, 4) then PutReadsBack(p, U32(d)); Put(p, U32(d)) else Put(p, U32(d))
  }

  /** The bytes of `s` beyond the room left are dropped. */
  function Clip(s: seq<bv8>, n: nat): (r: seq<bv8>)
    ensures |r| <= n && |r| <= |s| && r == s[..|r|]
    ensures |s| <= n ==> r == s
  {
    if |s| <= n then s else s[..n]
  }

  /** The room a valid packet has left. */
  function Room(p: Packet): nat
    requires Valid(p)
  {
    p.capacity - |p.data|
  }

  /** A loop of putByte over `s`: the prefix that fits is appended, the rest
      is silently dropped; a sealed packet is left alone. */
  function PutBytes(p: Packet, s: seq<bv8>): (r: Packet)
    requires Valid(p)
    ensures Valid(r) && r == p.(data := r.data)
    ensures p.writeable ==> r.data == p.data + Clip(s, Room(p))
    ensures !p.writeable ==> r == p
    decreases |s|
  {
    if s == [] then p
    else
      var q := PutByte(p, s[0]);
      ClipCons(s, Room(p));
      assert p.writeable && 0 < Room(p) ==> Room(q) == Room(p) - 1;
      assert p.writeable && Room(p) == 0 ==> q == p;
      PutBytes(q, s[1..])
  }

  lemma ClipCons(s: seq<bv8>, n: nat)
    requires s != []
    ensures 0 < n ==> Clip(s, n) == [s[0]] + Clip(s[1..], n - 1)
    ensures n == 0 ==> Clip(s, n) == [] == Clip(s[1..], n)
  {
  }

  lemma ClipAppend(a: seq<bv8>, b: seq<bv8>, n: nat)
    ensures |a| <= n ==> Clip(a + b, n) == a + Clip(b, n - |a|)
    ensures n < |a| ==> Clip(a + b, n) == Clip(a, n)
  {
    if |a| <= n {
      assert (a + b)[..|a| + |Clip(b, n - |a|)|] == a + Clip(b, n - |a|);
    } else {
      assert (a + b)[..n] == a[..n];
    }
  }

  /** Putting two byte runs one after the other is putting their concatenation. */
  lemma PutBytesAppend(p: Packet, a: seq<bv8>, b: seq<bv8>)
    requires Valid(p)
    ensures PutBytes(PutBytes(p, a), b) == PutBytes(p, a + b)
  {
    var q := PutBytes(p, a);
    if p.writeable {
      var room := Room(p);
      ClipAppend(a, b, room);
      assert q.data == p.data + Clip(a, room) && q.writeable;
      assert Room(q) == room - |Clip(a, room)|;
      if |a| <= room {
        ConcatAssoc(p.data, a, Clip(b, room - |a|));
      } else {
        assert Clip(b, Room(q)) == [];
      }
    }
  }

  lemma ConcatAssoc(x: seq<bv8>, y: seq<bv8>, z: seq<bv8>)
    ensures (x + y) + z == x + (y + z)
  {
  }

  /** getByte(index): zero when the index is not inside the length. */
  function GetByteAt(p: Packet, i: nat): (r: bv8)
    ensures i < |p.data| ==> r == p.data[i]
    ensures |p.data| <= i ==> r == 0
  {
    if i >= |p.data| then 0 else p.data[i]
  }

  /** getShort(index): the word whose big-endian bytes sit at `i`, or zero
      when fewer than two bytes remain. */
  function GetShortAt(p: Packet, i: nat): (r: bv16)
    ensures i + 2 <= |p.data| ==> BigEndian(U16(r)) == p.data[i..i + 2]
    ensures |p.data| < i + 2 ==> r == 0
  {
    if i + 1 >= |p.data| then 0
    else
      ShortRoundTrip(0, p.data[i], p.data[i + 1]);
      assert p.data[i..i + 2] == [p.data[i], p.data[i + 1]];
      ShortOf(p.data[i], p.data[i + 1])
  }

  /** getInt(index): the double word whose big-endian bytes sit at `i`, or
      zero when fewer than four bytes remain. */
  function GetIntAt(p: Packet, i: nat): (r: bv32)
    ensures i + 4 <= |p.data| ==> BigEndian(U32(r)) == p.data[i..i + 4]
    ensures |p.data| < i + 4 ==> r == 0
  {
    if i + 3 >= |p.data| then 0
    else
      IntRoundTrip(0, p.data[i], p.data[i + 1], p.data[i + 2], p.data[i + 3]);
      assert p.data[i..i + 4] == [p.data[i], p.data[i + 1], p.data[i + 2], p.data[i + 3]];
      IntOf(p.data[i], p.data[i + 1], p.data[i + 2], p.data[i + 3])
  }

  function GetAt(p: Packet, i: nat, k: Kind): (r: Value)
    ensures KindOf(r) == k
  {
    match k
    case Byte => U8(GetByteAt(p, i))
    case Short => U16(GetShortAt(p, i))
    case Int => U32(GetIntAt(p, i))
  }

  /** A value is read back from the bytes that encode it. */
  lemma DecodeBigEndian(p: Packet, i: nat, v: Value)
    requires i + Width(KindOf(v)) <= |p.data|
    requires p.data[i..i + Width(KindOf(v))] == BigEndian(v)
    ensures GetAt(p, i, KindOf(v)) == v
  {
    match v
    case U8(b) =>
      assert p.data[i] == p.data[i..i + 1][0];
    case U16(w) =>
      assert p.data[i] == BigEndian(v)[0] && p.data[i + 1] == BigEndian(v)[1];
      ShortRoundTrip(w, 0, 0);
    case U32(d) =>
      assert p.data[i] == BigEndian(v)[0] && p.data[i + 1] == BigEndian(v)[1];
      assert p.data[i + 2] == BigEndian(v)[2] && p.data[i + 3] == BigEndian(v)[3];
      IntRoundTrip(d, 0, 0, 0, 0);
  }

  /** The sequential gets: read at the cursor and move it by the width,
      whether or not the read was inside the length. */
  function Read(p: Packet, k: Kind): (r: (Value, Packet))
    ensures KindOf(r.0) == k
    ensures r.1 == p.(cursor := p.cursor + Width(k))
    ensures r.0 == GetAt(p, p.cursor, k)
    ensures p.cursor + Width(k) <= |p.data| ==> BigEndian(r.0) == p.data[p.cursor..p.cursor + Width(k)]
    ensures |p.data| < p.cursor + Width(k) ==> r.0 == Zero(k)
  {
    (GetAt(p, p.cursor, k), p.(cursor := p.cursor + Width(k)))
  }

  function ReadByte(p: Packet): (bv8, Packet) {
    var r := Read(p, Byte); (r.0.b, r.1)
  }

  function ReadShort(p: Packet): (bv16, Packet) {
    var r := Read(p, Short); (r.0.w, r.1)
  }

  function ReadInt(p: Packet): (bv32, Packet) {
    var r := Read(p, Int); (r.0.d, r.1)
  }

  function ResetGetPtr(p: Packet): Packet {
    p.(cursor := 0)
  }

  function SetGetPtr(p: Packet, i: nat): Packet {
    p.(cursor := i)
  }

  /** isEnd: the cursor has reached the length, so every further sequential
      get yields zero. */
  function IsEnd(p: Packet): (r: bool)
    ensures r ==> forall k :: Read(p, k).0 == Zero(k)
    ensures !r ==> p.cursor < |p.data| && Read(p, Byte).0 == U8(p.data[p.cursor])
  {
    p.cursor >= |p.data|
  }

  /** size(): the bytes of the frame so far, one for the command, one per
      payload byte, and one for the end marker once sealed. */
  function Size(p: Packet): (r: nat)
    ensures r == |p.data| + (if p.writeable then 1 else 2)
  {
    if p.writeable then 1 + |p.data| else 1 + |p.data| + 1
  }

  /** end(): seal the packet; from then on every put is a no-op. */
  function End(p: Packet): (r: Packet)
    ensures !r.writeable && r.data == p.data && r.command == p.command
    ensures r.capacity == p.capacity && r.cursor == p.cursor
    ensures p.writeable ==> Size(r) == Size(p) + 1
  {
    p.(writeable := false)
  }

  /** Once sealed, every put leaves the packet as it is. */
  lemma SealedIgnoresPuts(p: Packet, v: Value)
    ensures Put(End(p), v) == End(p)
  {
  }

  /** The puts of a sequence of values, in order. */
  function PutAll(p: Packet, vs: seq<Value>): Packet
    decreases |vs|
  {
    if vs == [] then p else PutAll(Put(p, vs[0]), vs[1..])
  }

  /** The sequential gets of a sequence of widths, in order. */
  function ReadAll(p: Packet, ks: seq<Kind>): (seq<Value>, Packet)
    decreases |ks|
  {
    if ks == [] then ([], p)
    else
      var first := Read(p, ks[0]);
      var rest := ReadAll(first.1, ks[1..]);
      ([first.0] + rest.0, rest.1)
  }

  function Encoded(vs: seq<Value>): seq<bv8>
    decreases |vs|
  {
    if vs == [] then [] else BigEndian(vs[0]) + Encoded(vs[1..])
  }

  function Kinds(vs: seq<Value>): (r: seq<Kind>)
    ensures |r| == |vs|
    ensures forall i :: 0 <= i < |vs| ==> r[i] == KindOf(vs[i])
    decreases |vs|
  {
    if vs == [] then [] else [KindOf(vs[0])] + Kinds(vs[1..])
  }

  lemma {:induction false} PutAllAppends(p: Packet, vs: seq<Value>)
    requires Fits(p, |Encoded(vs)|)
    ensures PutAll(p, vs) == p.(data := p.data + Encoded(vs))
    decreases |vs|
  {
    if vs != [] {
      assert Encoded(vs) == BigEndian(vs[0]) + Encoded(vs[1..]);
      var q := Put(p, vs[0]);
      assert q == p.(data := p.data + BigEndian(vs[0]));
      assert Fits(q, |Encoded(vs[1..])|);
      PutAllAppends(q, vs[1..]);
      assert p.data + BigEndian(vs[0]) + Encoded(vs[1..]) == p.data + Encoded(vs);
    }
  }

  /** One step of the sequential gets over the widths of `vs`. */
  lemma ReadAllUnfold(p: Packet, vs: seq<Value>)
    requires vs != []
    ensures var first := Read(p, KindOf(vs[0]));
      && ReadAll(p, Kinds(vs)).0 == [first.0] + ReadAll(first.1, Kinds(vs[1..])).0
      && ReadAll(p, Kinds(vs)).1 == ReadAll(first.1, Kinds(vs[1..])).1
  {
    var ks := Kinds(vs);
    assert ks[0] == KindOf(vs[0]) && ks[1..] == Kinds(vs[1..]);
  }

  /** The encoding of a non-empty run: the first value's bytes, then the rest. */
  lemma EncodedCons(vs: seq<Value>)
    requires vs != []
    ensures Encoded(vs) == BigEndian(vs[0]) + Encoded(vs[1..])
    ensures |Encoded(vs)| == Width(KindOf(vs[0])) + |Encoded(vs[1..])|
  {
  }

  /** A window of a window is a window of the whole. */
  lemma Subwindow(s: seq<bv8>, a: nat, b: nat, i: nat, j: nat)
    requires a <= b <= |s| && i <= j <= b - a
    ensures s[a + i..a + j] == s[a..b][i..j]
  {
    assert forall k :: 0 <= k < j - i ==> s[a..b][i..j][k] == s[a + i + k];
  }

  /** A value's bytes followed by a tail at the cursor: the next sequential
      get returns the value, and the tail follows the moved cursor. */
  lemma ReadFirst(p: Packet, v: Value, tail: seq<bv8>)
    requires p.cursor + Width(KindOf(v)) + |tail| <= |p.data|
    requires p.data[p.cursor..p.cursor + Width(KindOf(v)) + |tail|] == BigEndian(v) + tail
    ensures Read(p, KindOf(v)) == (v, p.(cursor := p.cursor + Width(KindOf(v))))
    ensures p.data[p.cursor + Width(KindOf(v))..p.cursor + Width(KindOf(v)) + |tail|] == tail
  {
    var w := Width(KindOf(v));
    var n := w + |tail|;
    var e := BigEndian(v) + tail;
    Subwindow(p.data, p.cursor, p.cursor + n, 0, w);
    assert e[0..w] == BigEndian(v);
    DecodeBigEndian(p, p.cursor, v);
    Subwindow(p.data, p.cursor, p.cursor + n, w, n);
    assert e[w..n] == tail;
  }

  /** One step of the sequential gets: the first value, then the rest. */
  lemma ReadAllStep(p: Packet, vs: seq<Value>)
    requires vs != []
    requires Read(p, KindOf(vs[0])).0 == vs[0]
    requires ReadAll(Read(p, KindOf(vs[0])).1, Kinds(vs[1..])).0 == vs[1..]
    ensures ReadAll(p, Kinds(vs)).0 == vs
    ensures ReadAll(p, Kinds(vs)).1 == ReadAll(Read(p, KindOf(vs[0])).1, Kinds(vs[1..])).1
  {
    ReadAllUnfold(p, vs);
    assert [vs[0]] + vs[1..] == vs;
  }

  lemma {:induction false} ReadAllDecodes(p: Packet, vs: seq<Value>)
    requires p.cursor + |Encoded(vs)| <= |p.data|
    requires p.data[p.cursor..p.cursor + |Encoded(vs)|] == Encoded(vs)
    ensures ReadAll(p, Kinds(vs)).0 == vs
    ensures ReadAll(p, Kinds(vs)).1 == p.(cursor := p.cursor + |Encoded(vs)|)
    decreases |vs|
  {
    if vs != [] {
      EncodedCons(vs);
      ReadFirst(p, vs[0], Encoded(vs[1..]));
      var q := p.(cursor := p.cursor + Width(KindOf(vs[0])));
      ReadAllDecodes(q, vs[1..]);
      ReadAllStep(p, vs);
    } else {
      assert Kinds(vs) == [] && Encoded(vs) == [];
      assert p.(cursor := p.cursor + 0) == p;
    }
  }

  /** Values put into a packet, while they fit, are read back in the same
      order by sequential gets of the same widths, after which the cursor
      sits at the end. */
  lemma ReadBack(capacity: nat, vs: seq<Value>)
    requires |Encoded(vs)| <= capacity < FieldLimit
    ensures ReadAll(PutAll(Fresh(capacity), vs), Kinds(vs)).0 == vs
    ensures IsEnd(ReadAll(PutAll(Fresh(capacity), vs), Kinds(vs)).1)
  {
    PutAllAppends(Fresh(capacity), vs);
    var p := PutAll(Fresh(capacity), vs);
    assert p.data[0..|Encoded(vs)|] == Encoded(vs);
    ReadAllDecodes(p, vs);
  }

  /** Sequential gets move only the cursor: the packet they leave behind is
      the one they started from with another cursor. */
  lemma {:induction false} ReadAllMovesCursorOnly(p: Packet, ks: seq<Kind>)
    ensures ReadAll(p, ks).1 == p.(cursor := ReadAll(p, ks).1.cursor)
    ensures p.cursor <= ReadAll(p, ks).1.cursor
    decreases |ks|
  {
    if ks != [] {
      ReadAllMovesCursorOnly(Read(p, ks[0]).1, ks[1..]);
    }
  }

  /** resetGetPtr rewinds: after any run of sequential gets, a reset makes
      the same run return the same values again. */
  lemma Rewind(p: Packet, ks: seq<Kind>)
    ensures ReadAll(ResetGetPtr(ReadAll(ResetGetPtr(p), ks).1), ks) == ReadAll(ResetGetPtr(p), ks)
  {
    ReadAllMovesCursorOnly(ResetGetPtr(p), ks);
    assert ResetGetPtr(ReadAll(ResetGetPtr(p), ks).1) == ResetGetPtr(p);
  }

  /** setGetPtr: the next sequential get reads at the index, and the packet
      is at its end exactly when the index is at or past the length. */
  lemma SeekReads(p: Packet, i: nat, k: Kind)
    ensures Read(SetGetPtr(p, i), k).0 == GetAt(p, i, k)
    ensures IsEnd(SetGetPtr(p, i)) <==> |p.data| <= i
  {
  }
}

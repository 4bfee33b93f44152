/** The message a worker hands to another worker when a key change moves a
    row across partitions. Java's `ByteBuffer` is big-endian by default, so a
    short occupies two bytes, high byte first, and an int four.

    Layout for a table of `n` columns (`w == n - 4` overflow columns), in
    16-bit slots: slots `0 .. w-1` hold col4 .. col(n-1), slot `w` holds col1,
    slot `w+1` holds col2 cut down to a short, and slots `w+2, w+3` hold col3
    as a full int. The message is `2 * n` bytes long. */
module Wire {
  import opened Common

  type Byte = x: int | 0 <= x < 256

  /** The non-key fields of a row in transit. */
  datatype MovedRow = MovedRow(rest: seq<int>, col1: int, col2: int, col3: int)

  /** `ByteBuffer.putShort`: two bytes, high first, of the value modulo 2^16. */
  function ShortBytes(s: int): (b: seq<Byte>)
    requires IsShort(s)
    ensures |b| == 2
  {
    var u := s % 0x1_0000;
    [u / 0x100, u % 0x100]
  }

  /** `ByteBuffer.getShort`: two bytes, high first, read as a signed short. */
  function ShortOf(hi: Byte, lo: Byte): (s: int)
    ensures IsShort(s)
  {
    var u := hi * 0x100 + lo;
    if u >= 0x8000 then u - 0x1_0000 else u
  }

  /** `ByteBuffer.putInt`: four bytes, high first, of the value modulo 2^32. */
  function IntBytes(x: int): (b: seq<Byte>)
    requires IsInt32(x)
    ensures |b| == 4
  {
    var u := x % 0x1_0000_0000;
    var u1 := u / 0x100;
    var u2 := u1 / 0x100;
    [u2 / 0x100, u2 % 0x100, u1 % 0x100, u % 0x100]
  }

  /** `ByteBuffer.getInt`: four bytes, high first, read as a signed int. */
  function IntOf(b0: Byte, b1: Byte, b2: Byte, b3: Byte): (x: int)
    ensures IsInt32(x)
  {
    var u := b0 * 0x100_0000 + b1 * 0x1_0000 + b2 * 0x100 + b3;
    if u >= 0x8000_0000 then u - 0x1_0000_0000 else u
  }

  lemma ShortRoundTrip(s: int)
    requires IsShort(s)
    ensures ShortOf(ShortBytes(s)[0], ShortBytes(s)[1]) == s
  {
  }

  lemma IntRoundTrip(x: int)
    requires IsInt32(x)
    ensures var b := IntBytes(x); IntOf(b[0], b[1], b[2], b[3]) == x
  {
    var u := x % 0x1_0000_0000;
    var u1 := u / 0x100;
    var u2 := u1 / 0x100;
    assert u == u1 * 0x100 + u % 0x100;
    assert u1 == u2 * 0x100 + u1 % 0x100;
    assert u2 == (u2 / 0x100) * 0x100 + u2 % 0x100;
    assert x >= 0 ==> u == x;
    assert x < 0 ==> u == x + 0x1_0000_0000;
  }

  /** The overflow columns written slot after slot, as `asShortBuffer().put` does. */
  function ShortsBytes(s: seq<int>): (b: seq<Byte>)
    requires AllShorts(s)
    ensures |b| == 2 * |s|
  {
    if s == [] then [] else ShortsBytes(s[..|s| - 1]) + ShortBytes(s[|s| - 1])
  }

  /** The short in 16-bit slot `i` of a message. */
  function SlotAt(m: seq<Byte>, i: nat): int
    requires 2 * i + 2 <= |m|
  {
    ShortOf(m[2 * i], m[2 * i + 1])
  }

  /** The first `k` 16-bit slots of a message, read as shorts (`asShortBuffer().get(i)`). */
  function Slots(m: seq<Byte>, k: nat): (s: seq<int>)
    requires 2 * k <= |m|
    ensures |s| == k && AllShorts(s)
  {
    seq(k, i requires 0 <= i < k => SlotAt(m, i))
  }

  /** The message the source worker builds for a row leaving its partition. */
  function Encode(row: MovedRow): (m: seq<Byte>)
    requires AllShorts(row.rest) && IsShort(row.col1) && IsInt32(row.col3)
    ensures |m| == 2 * (|row.rest| + 4)
  {
    ShortsBytes(row.rest) + ShortBytes(row.col1) + ShortBytes(ToShort(row.col2)) + IntBytes(row.col3)
  }

  /** What the receiving worker reads back from a message of a table with
      `w + 4` columns. */
  function Decode(m: seq<Byte>, w: nat): (row: MovedRow)
    requires |m| == 2 * (w + 4)
    ensures |row.rest| == w && AllShorts(row.rest) && IsShort(row.col1) && IsShort(row.col2)
  {
    MovedRow(Slots(m, w), SlotAt(m, w), SlotAt(m, w + 1),
             IntOf(m[2 * (w + 2)], m[2 * (w + 2) + 1], m[2 * (w + 2) + 2], m[2 * (w + 2) + 3]))
  }

  lemma {:induction false} ShortsBytesSlot(s: seq<int>, tail: seq<Byte>, i: nat)
    requires AllShorts(s) && i < |s|
    ensures SlotAt(ShortsBytes(s) + tail, i) == s[i]
    decreases |s|
  {
    var n := |s| - 1;
    var m := ShortsBytes(s) + tail;
    assert ShortsBytes(s) == ShortsBytes(s[..n]) + ShortBytes(s[n]);
    if i == n {
      assert m[2 * i] == ShortBytes(s[n])[0] && m[2 * i + 1] == ShortBytes(s[n])[1];
      ShortRoundTrip(s[n]);
    } else {
      assert m == ShortsBytes(s[..n]) + (ShortBytes(s[n]) + tail);
      ShortsBytesSlot(s[..n], ShortBytes(s[n]) + tail, i);
    }
  }

  /** Decoding an encoded row gives back the overflow columns, col1 and col3
      unchanged and col2 cut down to 16 bits. */
  lemma DecodeEncode(row: MovedRow)
    requires AllShorts(row.rest) && IsShort(row.col1) && IsInt32(row.col3)
    ensures Decode(Encode(row), |row.rest|) == row.(col2 := ToShort(row.col2))
  {
    var w := |row.rest|;
    var m := Encode(row);
    var d := Decode(m, w);
    var head := ShortsBytes(row.rest);
    var tail := ShortBytes(row.col1) + ShortBytes(ToShort(row.col2)) + IntBytes(row.col3);
    assert m == head + tail;
    forall i | 0 <= i < w
      ensures d.rest[i] == row.rest[i]
    {
      ShortsBytesSlot(row.rest, tail, i);
    }
    ShortRoundTrip(row.col1);
    ShortRoundTrip(ToShort(row.col2));
    IntRoundTrip(row.col3);
    assert m[2 * w..] == tail;
  }

  /** A moved row keeps every non-key field exactly when its col2 fits in 16 bits. */
  lemma DecodeEncodeExact(row: MovedRow)
    requires AllShorts(row.rest) && IsShort(row.col1) && IsInt32(row.col3)
    ensures Decode(Encode(row), |row.rest|) == row <==> IsShort(row.col2)
  {
    DecodeEncode(row);
  }

  /** The receiver's running sum over slots `0 .. w+1` covers the overflow
      columns, col1 and col2 of the decoded row. */
  lemma SlotsOfDecode(m: seq<Byte>, w: nat)
    requires |m| == 2 * (w + 4)
    ensures var row := Decode(m, w);
            Sum(Slots(m, w + 2)) == Sum(row.rest) + row.col1 + row.col2
  {
    var row := Decode(m, w);
    assert Slots(m, w + 2) == row.rest + [row.col1] + [row.col2];
    SumAppend(row.rest + [row.col1], row.col2);
    SumAppend(row.rest, row.col1);
  }

  /** The sender's running sum over the first `|rest|` slots of its message
      covers exactly the overflow columns. */
  lemma SlotsOfEncode(row: MovedRow)
    requires AllShorts(row.rest) && IsShort(row.col1) && IsInt32(row.col3)
    ensures Slots(Encode(row), |row.rest|) == row.rest
  {
    DecodeEncode(row);
  }

  /** The message fields of a stored row `[col0, col1, col2, col3, col4, ...]`. */
  function Outgoing(row: seq<int>): MovedRow
    requires |row| >= 4
  {
    MovedRow(row[4..], row[1], row[2], row[3])
  }

  /** The stored row a received message becomes under key `key`. */
  function Arrived(key: int, m: MovedRow): (row: seq<int>)
    ensures |row| == 4 + |m.rest| && row[0] == key && row[4..] == m.rest
  {
    [key, m.col1, m.col2, m.col3] + m.rest
  }

  /** A row that leaves one partition and arrives in another under its new
      key keeps every other field exactly when its col2 fits in 16 bits. */
  lemma Migrate(row: seq<int>, key: int)
    requires |row| >= 4 && IsShort(row[1]) && AllShorts(row[4..]) && IsInt32(row[3])
    ensures Arrived(key, Decode(Encode(Outgoing(row)), |row| - 4)) == row[0 := key] <==> IsShort(row[2])
  {
    var out := Outgoing(row);
    DecodeEncode(out);
    var got := Arrived(key, Decode(Encode(out), |row| - 4));
    if IsShort(row[2]) {
      assert got == row[0 := key];
    } else {
      assert got[2] != row[0 := key][2];
    }
  }
}

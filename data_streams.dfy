/**
 * The byte layout of java.io.DataOutputStream.writeUTF / writeLong and of the
 * matching DataInputStream.readUTF / readLong, which frame every message
 * between the client, the coordinator and the storage nodes.
 *
 * writeUTF writes a 2-byte big-endian length followed by the string in
 * modified UTF-8; writeLong writes 8 bytes, big-endian two's complement.
 * Reading works on the bytes the peer has sent and not yet consumed and
 * returns what is left; None stands for the EOFException (too few bytes).
 * The decoder accepts ASCII strings only (bytes 1..127).
 */
module DataStreams {
  import opened Sequences
  import opened Wrappers

  newtype byte = b: int | 0 <= b < 256
  type Bytes = seq<byte>

  const LONG_MIN: int := -0x8000_0000_0000_0000
  const LONG_MAX: int := 0x7FFF_FFFF_FFFF_FFFF
  const TWO_TO_64: int := 0x1_0000_0000_0000_0000
  /** writeUTF refuses (UTFDataFormatException) an encoding longer than this. */
  const UTF_MAX: int := 0xFFFF

  function Pow256(n: nat): (p: nat)
    ensures p >= 1
  {
    if n == 0 then 1 else 256 * Pow256(n - 1)
  }

  /** The low n bytes of v, most significant first. */
  function BigEndian(v: nat, n: nat): (b: Bytes)
    ensures |b| == n
  {
    if n == 0 then [] else BigEndian(v / 256, n - 1) + [(v % 256) as byte]
  }

  /** The unsigned value of bytes read most significant first. */
  function BigEndianValue(b: Bytes): (v: nat)
    ensures v < Pow256(|b|)
  {
    if b == [] then 0
    else
      var high := BigEndianValue(b[..|b| - 1]);
      assert high * 256 + b[|b| - 1] as int < Pow256(|b| - 1) * 256 by {
        assert high <= Pow256(|b| - 1) - 1;
      }
      high * 256 + b[|b| - 1] as int
  }

  lemma {:induction false} BigEndianRoundTrip(v: nat, n: nat)
    requires v < Pow256(n)
    ensures BigEndianValue(BigEndian(v, n)) == v
  {
    if n > 0 {
      var high, low := v / 256, v % 256;
      var b := BigEndian(v, n);
      assert b == BigEndian(high, n - 1) + [low as byte];
      assert b[..n - 1] == BigEndian(high, n - 1);
      DropLowDigit(v, Pow256(n - 1));
      BigEndianRoundTrip(high, n - 1);
      assert BigEndianValue(b) == BigEndianValue(b[..n - 1]) * 256 + b[n - 1] as int;
      assert v == high * 256 + low;
    }
  }

  lemma DropLowDigit(v: nat, p: nat)
    requires v < 256 * p
    ensures v / 256 < p
  {
  }

  /** Reading a longer big-endian number: the first bytes are the high digits. */
  lemma {:induction false} BigEndianValueAppend(a: Bytes, b: Bytes)
    ensures BigEndianValue(a + b) == BigEndianValue(a) * Pow256(|b|) + BigEndianValue(b)
    decreases |b|
  {
    if b == [] {
      assert a + b == a;
    } else {
      var ab := a + b;
      assert ab[..|ab| - 1] == a + b[..|b| - 1];
      BigEndianValueAppend(a, b[..|b| - 1]);
      ShiftDigit(BigEndianValue(a), Pow256(|b| - 1), BigEndianValue(b[..|b| - 1]), b[|b| - 1] as int);
    }
  }

  lemma ShiftDigit(high: int, p: int, low: int, digit: int)
    ensures (high * p + low) * 256 + digit == high * (256 * p) + (low * 256 + digit)
  {
  }

  /** The two bytes of a 16-bit length. */
  lemma BigEndianTwo(v: nat)
    requires v < 0x10000
    ensures BigEndian(v, 2) == [(v / 256) as byte, (v % 256) as byte]
  {
    assert BigEndian(v / 256, 1) == [((v / 256) % 256) as byte];
  }

  /** The value of four bytes, most significant first. */
  lemma BigEndianValueFour(b: Bytes)
    requires |b| == 4
    ensures BigEndianValue(b) == b[0] as int * 0x100_0000 + b[1] as int * 0x1_0000 + b[2] as int * 0x100 + b[3] as int
  {
    var b1, b2, b3 := b[..1], b[..2], b[..3];
    assert b1[..0] == [];
    assert BigEndianValue(b1) == b[0] as int;
    assert b2[..1] == b1;
    assert BigEndianValue(b2) == BigEndianValue(b1) * 256 + b[1] as int;
    assert b3[..2] == b2;
    assert BigEndianValue(b3) == BigEndianValue(b2) * 256 + b[2] as int;
    assert b[..3] == b3;
  }

  /** Eight bytes read as two halves of four. */
  lemma SplitFourFour(a: Bytes, b: Bytes)
    requires |a| == 4 && |b| == 4
    ensures BigEndianValue(a + b) == BigEndianValue(a) * 0x1_0000_0000 + BigEndianValue(b)
    ensures BigEndianValue(b) < 0x1_0000_0000
  {
    BigEndianValueAppend(a, b);
    assert Pow256(4) == 0x1_0000_0000;
  }

  /** Eight bytes read as a 2-byte head and a 6-byte tail. */
  lemma SplitTwoSix(a: Bytes, b: Bytes)
    requires |a| == 2 && |b| == 6
    ensures BigEndianValue(a + b) == BigEndianValue(a) * 0x1_0000_0000_0000 + BigEndianValue(b)
    ensures BigEndianValue(b) < 0x1_0000_0000_0000
  {
    BigEndianValueAppend(a, b);
    assert Pow256(6) == 0x1_0000_0000_0000;
  }

  // ---------------------------------------------------------------- longs

  /** DataOutputStream.writeLong: 8 bytes, big-endian two's complement. */
  function WriteLong(v: int): (b: Bytes)
    ensures |b| == 8
  {
    BigEndian(v % TWO_TO_64, 8)
  }

  /** DataInputStream.readLong: the value and the bytes after it, or None at end of stream. */
  function ReadLong(b: Bytes): (r: Option<(int, Bytes)>)
    ensures r.Some? <==> |b| >= 8
    ensures r.Some? ==> LONG_MIN <= r.value.0 <= LONG_MAX && r.value.1 == b[8..]
  {
    if |b| < 8 then None
    else
      var u := BigEndianValue(b[..8]);
      assert Pow256(8) == TWO_TO_64;
      Some((if u > LONG_MAX then u - TWO_TO_64 else u, b[8..]))
  }

  lemma ReadWriteLong(v: int, rest: Bytes)
    requires LONG_MIN <= v <= LONG_MAX
    ensures ReadLong(WriteLong(v) + rest) == Some((v, rest))
  {
    assert Pow256(8) == TWO_TO_64;
    BigEndianRoundTrip(v % TWO_TO_64, 8);
    var b := WriteLong(v) + rest;
    assert b[..8] == WriteLong(v);
    assert b[8..] == rest;
  }

  /** A long below 2^32 is written with four zero bytes first. */
  lemma SmallLongHighBytes(v: nat)
    requires v < 0x1_0000_0000
    ensures WriteLong(v)[..4] == [0, 0, 0, 0]
  {
    assert Pow256(8) == TWO_TO_64;
    assert v % TWO_TO_64 == v;
    BigEndianRoundTrip(v, 8);
    HighBytesZero(WriteLong(v));
  }

  /** Eight bytes whose value is below 2^32 start with four zero bytes. */
  lemma HighBytesZero(w: Bytes)
    requires |w| == 8 && BigEndianValue(w) < 0x1_0000_0000
    ensures w[..4] == [0, 0, 0, 0]
  {
    var high := w[..4];
    assert high + w[4..] == w;
    SplitFourFour(high, w[4..]);
    var hv := BigEndianValue(high);
    assert hv * 0x1_0000_0000 < 0x1_0000_0000;
    assert hv == 0;
    BigEndianValueFour(high);
    assert high[0] == 0 && high[1] == 0 && high[2] == 0 && high[3] == 0;
  }

  lemma {:induction false} BigEndianZero(n: nat)
    ensures forall k :: 0 <= k < n ==> BigEndian(0, n)[k] == 0
  {
    if n > 0 {
      BigEndianZero(n - 1);
    }
  }

  /** A long below 256 is written as seven zero bytes and itself. */
  lemma ByteLong(v: nat)
    requires v < 256
    ensures WriteLong(v) == [0, 0, 0, 0, 0, 0, 0, v as byte]
    ensures WriteLong(v)[4..] == [0, 0, 0, v as byte]
  {
    BigEndianZero(7);
    assert WriteLong(v) == BigEndian(0, 7) + [v as byte];
  }

  // ---------------------------------------------------------------- strings

  /** The three-byte modified UTF-8 form of one UTF-16 code unit. */
  function Three(u: nat): Bytes
    requires u < 0x10000
  {
    [(0xE0 + u / 4096) as byte, (0x80 + (u / 64) % 64) as byte, (0x80 + u % 64) as byte]
  }

  /**
   * Modified UTF-8 of one character: U+0001..U+007F in one byte, U+0000 and
   * U+0080..U+07FF in two, the rest of the BMP in three, and a supplementary
   * character as its two UTF-16 surrogates of three bytes each.
   */
  function EncodeChar(c: char): (b: Bytes)
    ensures 1 <= |b| <= 6
    ensures |b| == 1 <==> 0 < c as int < 0x80
  {
    var v := c as int;
    if 0 < v < 0x80 then [v as byte]
    else if v < 0x800 then [(0xC0 + v / 64) as byte, (0x80 + v % 64) as byte]
    else if v < 0x10000 then Three(v)
    else Three(0xD800 + (v - 0x10000) / 1024) + Three(0xDC00 + (v - 0x10000) % 1024)
  }

  /** The encodings of the characters, one after the other. */
  function EncodeChars(s: string): (b: Bytes)
    ensures |s| <= |b| <= 6 * |s|
  {
    Flatten(CharCodes(s))
  }

  function CharCodes(s: string): (parts: seq<Bytes>)
    ensures |parts| == |s|
    ensures forall k :: 0 <= k < |s| ==> parts[k] == EncodeChar(s[k])
  {
    seq(|s|, k requires 0 <= k < |s| => EncodeChar(s[k]))
  }

  function Flatten(parts: seq<Bytes>): (b: Bytes)
    ensures (forall k :: 0 <= k < |parts| ==> 1 <= |parts[k]| <= 6) ==> |parts| <= |b| <= 6 * |parts|
  {
    if parts == [] then [] else parts[0] + Flatten(parts[1..])
  }

  /** writeUTF succeeds only when the encoding fits the 2-byte length prefix. */
  predicate Writable(s: string) {
    |EncodeChars(s)| <= UTF_MAX
  }

  /** DataOutputStream.writeUTF. */
  function WriteUtf(s: string): (b: Bytes)
    requires Writable(s)
    ensures |b| == 2 + |EncodeChars(s)|
  {
    BigEndian(|EncodeChars(s)|, 2) + EncodeChars(s)
  }

  predicate IsAscii(s: string) {
    forall k :: 0 <= k < |s| ==> 0 < s[k] as int < 0x80
  }

  /** A name the model can read from and write to a stream. */
  predicate IsWireName(s: string) {
    IsAscii(s) && |s| <= UTF_MAX
  }

  function AsciiBytes(s: string): (b: Bytes)
    requires IsAscii(s)
    ensures |b| == |s|
  {
    seq(|s|, k requires 0 <= k < |s| => s[k] as int as byte)
  }

  predicate AllAsciiBytes(b: Bytes) {
    forall k :: 0 <= k < |b| ==> 0 < b[k] < 0x80
  }

  function AsciiChars(b: Bytes): (s: string)
    requires AllAsciiBytes(b)
    ensures |s| == |b| && IsAscii(s)
  {
    seq(|b|, k requires 0 <= k < |b| => b[k] as int as char)
  }

  lemma {:induction false} AsciiEncoding(s: string)
    requires IsAscii(s)
    ensures EncodeChars(s) == AsciiBytes(s)
  {
    if s != [] {
      AsciiEncoding(s[1..]);
      assert CharCodes(s)[1..] == CharCodes(s[1..]);
      assert AsciiBytes(s) == [s[0] as int as byte] + AsciiBytes(s[1..]);
    }
  }

  lemma AsciiWritable(s: string)
    requires IsWireName(s)
    ensures Writable(s) && WriteUtf(s) == BigEndian(|s|, 2) + AsciiBytes(s)
  {
    AsciiEncoding(s);
  }

  /**
   * DataInputStream.readUTF: the string and the bytes after it; None when
   * the stream ends first or the bytes are not ASCII.
   */
  function ReadUtf(b: Bytes): (r: Option<(string, Bytes)>)
    ensures r.Some? ==> IsWireName(r.value.0)
    ensures r.Some? ==> |r.value.1| + 2 <= |b| && r.value.1 == b[|b| - |r.value.1|..]
  {
    if |b| < 2 then None
    else
      var n := BigEndianValue(b[..2]);
      if |b| < 2 + n || !AllAsciiBytes(b[2..2 + n]) then None
      else Some((AsciiChars(b[2..2 + n]), b[2 + n..]))
  }

  lemma ReadWriteUtf(s: string, rest: Bytes)
    requires IsWireName(s)
    ensures Writable(s)
    ensures ReadUtf(WriteUtf(s) + rest) == Some((s, rest))
  {
    AsciiWritable(s);
    BigEndianRoundTrip(|s|, 2);
    var b := WriteUtf(s) + rest;
    assert b[..2] == BigEndian(|s|, 2);
    assert b[2..2 + |s|] == AsciiBytes(s);
    assert AsciiChars(AsciiBytes(s)) == s;
    assert b[2 + |s|..] == rest;
  }

  /** The writeUTF frames of several strings, one after the other. */
  function WriteUtfs(xs: seq<string>): Bytes
    requires forall k :: 0 <= k < |xs| ==> Writable(xs[k])
  {
    if xs == [] then [] else WriteUtf(xs[0]) + WriteUtfs(xs[1..])
  }

  /** readUTF repeated until the stream is exhausted. */
  function ReadUtfs(b: Bytes): Option<seq<string>>
    decreases |b|
  {
    if b == [] then Some([])
    else match ReadUtf(b)
      case None => None
      case Some((s, rest)) =>
        match ReadUtfs(rest)
        case None => None
        case Some(more) => Some([s] + more)
  }

  /** The frames of a non-empty list: the first string's frame, then the rest's. */
  lemma WriteUtfsFirst(xs: seq<string>, tail: Bytes)
    requires xs != [] && forall k :: 0 <= k < |xs| ==> Writable(xs[k])
    ensures WriteUtfs(xs) + tail == WriteUtf(xs[0]) + (WriteUtfs(xs[1..]) + tail)
  {
    var head, rest := WriteUtf(xs[0]), WriteUtfs(xs[1..]);
    assert WriteUtfs(xs) == head + rest;
    AppendAssociative(head, rest, tail);
  }

  /** The frames of a list with one more string at the end: that string's frame comes last. */
  lemma {:induction false} WriteUtfsLast(xs: seq<string>, x: string)
    requires forall k :: 0 <= k < |xs| ==> Writable(xs[k])
    requires Writable(x)
    ensures WriteUtfs(xs + [x]) == WriteUtfs(xs) + WriteUtf(x)
    decreases |xs|
  {
    if xs == [] {
      assert [] + [x] == [x];
      assert WriteUtfs([x]) == WriteUtf(x) + WriteUtfs([]);
    } else {
      var ys := xs + [x];
      assert ys[0] == xs[0] && ys[1..] == xs[1..] + [x];
      WriteUtfsLast(xs[1..], x);
      AppendAssociative(WriteUtf(xs[0]), WriteUtfs(xs[1..]), WriteUtf(x));
    }
  }

  lemma {:induction false} ReadWriteUtfs(xs: seq<string>)
    requires forall k :: 0 <= k < |xs| ==> IsWireName(xs[k])
    ensures forall k :: 0 <= k < |xs| ==> Writable(xs[k])
    ensures ReadUtfs(WriteUtfs(xs)) == Some(xs)
  {
    forall k | 0 <= k < |xs| ensures Writable(xs[k]) {
      AsciiWritable(xs[k]);
    }
    if xs != [] {
      var b := WriteUtfs(xs);
      assert b == WriteUtf(xs[0]) + WriteUtfs(xs[1..]);
      ReadWriteUtf(xs[0], WriteUtfs(xs[1..]));
      ReadWriteUtfs(xs[1..]);
      assert |b| >= 2;
      assert [xs[0]] + xs[1..] == xs;
    }
  }

  /**
   * Four bytes followed by a writeLong of a length below 4 GiB, read as a
   * long: the four bytes become the high half, since the length's own high
   * half is zero; the rest starts in the middle of the length.
   */
  lemma MisreadFourBytesAsLong(head: Bytes, content: Bytes)
    requires |head| == 4 && BigEndianValue(head) < 0x8000_0000 && |content| < 0x1_0000_0000
    ensures ReadLong(head + WriteLong(|content|) + content) ==
            Some((BigEndianValue(head) * 0x1_0000_0000, WriteLong(|content|)[4..] + content))
  {
    SmallLongHighBytes(|content|);
    MisreadFourBytes(head, WriteLong(|content|), content);
  }

  lemma MisreadFourBytes(head: Bytes, w: Bytes, rest: Bytes)
    requires |head| == 4 && BigEndianValue(head) < 0x8000_0000
    requires |w| == 8 && w[..4] == [0, 0, 0, 0]
    ensures ReadLong(head + w + rest) == Some((BigEndianValue(head) * 0x1_0000_0000, w[4..] + rest))
  {
    var b := head + w + rest;
    assert b[..8] == head + [0, 0, 0, 0];
    assert b[8..] == w[4..] + rest;
    SplitFourFour(head, [0, 0, 0, 0]);
    BigEndianValueFour([0, 0, 0, 0]);
  }

  /**
   * A writeUTF frame of at least six ASCII characters read as a long: its
   * length prefix becomes the high 16 bits of a positive number of at least
   * |s| * 2^48, and the rest starts at the seventh character.
   */
  lemma MisreadUtfAsLong(s: string)
    requires IsWireName(s) && 6 <= |s| < 0x8000
    ensures Writable(s)
    ensures var r := ReadLong(WriteUtf(s));
      && r.Some? && r.value.1 == WriteUtf(s)[8..] && |r.value.1| == |s| - 6
      && r.value.0 >= |s| * 0x1_0000_0000_0000
  {
    AsciiWritable(s);
    var b := WriteUtf(s);
    BigEndianTwo(|s|);
    assert b[..2] == BigEndian(|s|, 2);
    assert BigEndianValue(b[..2]) == |s| by {
      assert b[..2][..1] == [(|s| / 256) as byte];
    }
    assert b[..8] == b[..2] + b[2..8];
    SplitTwoSix(b[..2], b[2..8]);
  }
}

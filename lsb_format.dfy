/**
 * The bit format shared by the encoder and the decoder: every payload bit is stored in the least
 * significant bit of one cover byte, most significant payload bit first. A payload byte takes 8 cover
 * bytes, a length field 32. Bits 1..7 of every cover byte are kept.
 */
module LsbFormat {
  import opened Types

  /** The BMP header that is copied verbatim before the embedded fields start. */
  const HEADER_SIZE: nat := 54
  /** Cover bytes that carry one payload byte. */
  const BYTE_UNIT: nat := 8
  /** Cover bytes that carry one 32-bit length field. */
  const SIZE_UNIT: nat := 32
  const TWO_32: nat := 0x1_0000_0000

  /** Cover bytes taken by the embedded fields: magic, extension length, extension, payload length, payload. */
  function EmbeddedLength(magicLen: nat, extLen: nat, payloadLen: nat): nat
  {
    BYTE_UNIT * magicLen + SIZE_UNIT + BYTE_UNIT * extLen + SIZE_UNIT + BYTE_UNIT * payloadLen
  }

  function Pow2(k: nat): (p: nat)
    ensures p >= 1
  {
    if k == 0 then 1 else 2 * Pow2(k - 1)
  }

  /** Bit `k` of `v`, as `(v >> k) & 1` gives it for a C integer (an arithmetic shift is a floor division). */
  function Bit(v: int, k: nat): (b: nat)
    ensures b <= 1
  {
    (v / Pow2(k)) % 2
  }

  /** Bit 0 of a cover byte, as `image_buffer[i] & 0x01`. */
  function Lsb(b: byte): (r: nat)
    ensures r <= 1
  {
    (b & 1) as nat
  }

  /** `(d >> k) & 1` on a payload byte: its bit `k` as a byte. */
  function ByteBit(d: byte, k: nat): (b: byte)
    requires k < 8
    ensures b <= 1
  {
    (d >> k) & 1
  }

  /** The LSBs of `w` read most significant first: what the shift-or loops of the decoder accumulate. */
  function LsbValue(w: seq<byte>): (v: nat)
    ensures v < Pow2(|w|)
  {
    if w == [] then 0 else 2 * LsbValue(w[..|w| - 1]) + Lsb(w[|w| - 1])
  }

  /** The byte whose unsigned value is `v`. */
  function ByteOf(v: nat): (d: byte)
    requires v < 256
    ensures d as int == v
  {
    if v == 0 then 0 else ByteIncrement(ByteOf(v - 1)); ByteOf(v - 1) + 1
  }

  lemma ByteIncrement(x: byte)
    requires x as int < 255
    ensures (x + 1) as int == x as int + 1
  {
  }

  /** One step of `decode_byte_from_lsb`: shifting in a bit doubles the value and adds the bit. */
  lemma ByteShiftIn(x: byte, b: byte)
    requires x as int < 128 && b <= 1
    ensures ((x << 1) | b) as int == 2 * (x as int) + b as int
  {
  }

  lemma ByteBound(d: byte)
    ensures 0 <= d as int < 256
  {
  }

  lemma ByteInjective(a: byte, b: byte)
    requires a as int == b as int
    ensures a == b
  {
  }

  // ---------------------------------------------------------------------------------------------
  // Sequence facts

  lemma AppendAssoc(a: seq<byte>, b: seq<byte>, c: seq<byte>)
    ensures a + b + c == a + (b + c)
  {
  }

  lemma AppendFive(s: seq<byte>, a: seq<byte>, b: seq<byte>, c: seq<byte>, d: seq<byte>, e: seq<byte>)
    ensures s + a + b + c + d + e == s + (a + b + c + d + e)
  {
  }

  lemma SliceOfSlice(s: seq<byte>, a: nat, b: nat, i: nat, j: nat)
    requires a <= b <= |s| && i <= j <= b - a
    ensures s[a..b][i..j] == s[a + i..a + j]
  {
    assert forall k :: 0 <= k < j - i ==> s[a..b][i..j][k] == s[a + i + k];
  }

  /** Two equally long byte sequences that agree in bits 1..7 of every byte: they differ at most in bit 0. */
  predicate DiffersOnlyInLsb(a: seq<byte>, b: seq<byte>)
  {
    |a| == |b| && forall k :: 0 <= k < |a| ==> a[k] & 0xFE == b[k] & 0xFE
  }

  lemma DiffersOnlyInLsbConcat(a1: seq<byte>, b1: seq<byte>, a2: seq<byte>, b2: seq<byte>)
    requires DiffersOnlyInLsb(a1, b1) && DiffersOnlyInLsb(a2, b2)
    ensures DiffersOnlyInLsb(a1 + a2, b1 + b2)
  {
    forall k | 0 <= k < |a1 + a2|
      ensures (a1 + a2)[k] & 0xFE == (b1 + b2)[k] & 0xFE
    {
      if k >= |a1| {
        assert (a1 + a2)[k] == a2[k - |a1|] && (b1 + b2)[k] == b2[k - |a1|];
      }
    }
  }

  /** One payload byte decoded from an 8-byte window. */
  function LsbByte(w: seq<byte>): (d: byte)
    requires |w| == BYTE_UNIT
    ensures d as int == LsbValue(w)
  {
    var v := LsbValue(w);
    assert v < 256 by { Pow2Of32(); }
    ByteOf(v)
  }

  /** `n` payload bytes decoded from consecutive 8-byte windows at the start of `w`. */
  function LsbBytes(w: seq<byte>, n: nat): (r: seq<byte>)
    requires BYTE_UNIT * n <= |w|
    ensures |r| == n
  {
    seq(n, j requires 0 <= j < n => LsbByte(w[8 * j..8 * j + 8]))
  }

  /** The 8-byte window after `encode_byte_to_lsb(d, w)`. */
  function EncodedByte(d: byte, w: seq<byte>): (r: seq<byte>)
    requires |w| == BYTE_UNIT
    ensures |r| == BYTE_UNIT
  {
    seq(BYTE_UNIT, i requires 0 <= i < BYTE_UNIT => (w[i] & 0xFE) | ByteBit(d, 7 - i))
  }

  /** The 32-byte window after `encode_size_to_lsb(v, w)`, for a C `int` v. */
  function EncodedSize(v: int, w: seq<byte>): (r: seq<byte>)
    requires |w| == SIZE_UNIT
    ensures |r| == SIZE_UNIT
  {
    seq(SIZE_UNIT, i requires 0 <= i < SIZE_UNIT => WithLsb(w[i], Bit(v, 31 - i)))
  }

  /** Two adjacent windows of `src` that differ only in LSBs from `a` and `b` join into one. */
  lemma DiffersOnlyInLsbJoin(a: seq<byte>, b: seq<byte>, src: seq<byte>, i: nat, j: nat, k: nat)
    requires i <= j <= k <= |src|
    requires DiffersOnlyInLsb(a, src[i..j]) && DiffersOnlyInLsb(b, src[j..k])
    ensures DiffersOnlyInLsb(a + b, src[i..k])
  {
    DiffersOnlyInLsbConcat(a, src[i..j], b, src[j..k]);
    assert src[i..j] + src[j..k] == src[i..k];
  }

  /** After `encode_byte_to_lsb`, bit 0 of cover byte i is bit 7 - i of the payload byte (MSB first). */
  lemma EncodedByteBits(d: byte, w: seq<byte>)
    requires |w| == BYTE_UNIT
    ensures forall i :: 0 <= i < BYTE_UNIT ==> Lsb(EncodedByte(d, w)[i]) == Bit(d as int, 7 - i)
  {
    ByteBits(d);
  }

  /** `encode_byte_to_lsb` keeps bits 1..7 of every cover byte. */
  lemma EncodedByteKeepsHighBits(d: byte, w: seq<byte>)
    requires |w| == BYTE_UNIT
    ensures DiffersOnlyInLsb(EncodedByte(d, w), w)
  {
  }

  /** After `encode_size_to_lsb`, bit 0 of cover byte i is bit 31 - i of the size (MSB first). */
  lemma EncodedSizeBits(v: int, w: seq<byte>)
    requires |w| == SIZE_UNIT
    ensures forall i :: 0 <= i < SIZE_UNIT ==> Lsb(EncodedSize(v, w)[i]) == Bit(v, 31 - i)
  {
  }

  /** `encode_size_to_lsb` keeps bits 1..7 of every cover byte. */
  lemma EncodedSizeKeepsHighBits(v: int, w: seq<byte>)
    requires |w| == SIZE_UNIT
    ensures DiffersOnlyInLsb(EncodedSize(v, w), w)
  {
  }

  /** `(c & 0xFE) | b` for a bit `b`. */
  function WithLsb(c: byte, b: nat): (r: byte)
    requires b <= 1
    ensures r & 0xFE == c & 0xFE && Lsb(r) == b
  {
    (c & 0xFE) | (b as byte)
  }

  /** The cover after one `encode_byte_to_lsb` per payload byte over consecutive 8-byte windows. */
  function EncodedBytes(data: seq<byte>, cover: seq<byte>): (r: seq<byte>)
    requires |cover| == BYTE_UNIT * |data|
    ensures |r| == |cover|
    decreases |data|
  {
    if data == [] then [] else EncodedByte(data[0], cover[..8]) + EncodedBytes(data[1..], cover[8..])
  }

  /** Encoding a run of payload bytes keeps bits 1..7 of every cover byte. */
  lemma {:induction false} EncodedBytesKeepHighBits(data: seq<byte>, cover: seq<byte>)
    requires |cover| == BYTE_UNIT * |data|
    ensures DiffersOnlyInLsb(EncodedBytes(data, cover), cover)
  {
    if data != [] {
      EncodedByteKeepsHighBits(data[0], cover[..8]);
      EncodedBytesKeepHighBits(data[1..], cover[8..]);
      DiffersOnlyInLsbConcat(EncodedByte(data[0], cover[..8]), cover[..8], EncodedBytes(data[1..], cover[8..]), cover[8..]);
      assert cover == cover[..8] + cover[8..];
    }
  }

  /** Encoding one byte more over the next window of `s`, from `b` to `c`, extends the run encoded from `a`. */
  lemma EncodedBytesStep(s: seq<byte>, data: seq<byte>, a: nat, b: nat, c: nat, i: nat)
    requires i < |data| && b == a + BYTE_UNIT * i && c == b + BYTE_UNIT && c <= |s|
    ensures EncodedBytes(data[..i + 1], s[a..c]) == EncodedBytes(data[..i], s[a..b]) + EncodedByte(data[i], s[b..c])
  {
    EncodedBytesAppend(data[..i], s[a..b], data[i], s[b..c]);
    assert data[..i + 1] == data[..i] + [data[i]];
    assert s[a..c] == s[a..b] + s[b..c];
  }

  /** One more bit shifted in at the end doubles the MSB-first value and adds the bit. */
  lemma LsbValueStep(w: seq<byte>, i: nat)
    requires i < |w|
    ensures LsbValue(w[..i + 1]) == 2 * LsbValue(w[..i]) + Lsb(w[i])
  {
    assert w[..i + 1][..i] == w[..i];
  }

  /** Decoding one more 8-byte window of `src` at `p` appends one byte. */
  lemma LsbBytesStep(src: seq<byte>, p: nat, i: nat, b: nat, c: nat)
    requires b == p + BYTE_UNIT * i && c == b + BYTE_UNIT && c <= |src|
    ensures LsbBytes(src[p..c], i + 1) == LsbBytes(src[p..b], i) + [LsbByte(src[b..c])]
  {
    var x, y := LsbBytes(src[p..c], i + 1), LsbBytes(src[p..b], i) + [LsbByte(src[b..c])];
    forall j | 0 <= j < i + 1
      ensures x[j] == y[j]
    {
      SliceOfSlice(src, p, c, 8 * j, 8 * j + 8);
      if j < i {
        SliceOfSlice(src, p, b, 8 * j, 8 * j + 8);
      }
    }
  }

  /** The bytes encoded over a cover decode back from it, when nothing follows. */
  lemma EncodedBytesDecode(data: seq<byte>, cover: seq<byte>)
    requires |cover| == BYTE_UNIT * |data|
    ensures LsbBytes(EncodedBytes(data, cover), |data|) == data
  {
    BytesRoundTrip(data, cover, []);
    assert EncodedBytes(data, cover) + [] == EncodedBytes(data, cover);
  }

  // ---------------------------------------------------------------------------------------------
  // Arithmetic behind the codec

  lemma MulNonneg(a: int, b: int)
    requires a >= 0 && b >= 0
    ensures a * b >= 0
  {
  }

  lemma DivModUnique(v: int, d: int, q: int, r: int)
    requires d > 0 && 0 <= r < d && v == d * q + r
    ensures v / d == q && v % d == r
  {
    var q', r' := v / d, v % d;
    var t := q - q';
    assert d * t == r' - r by {
      assert v == d * q' + r';
      assert d * q - d * q' == d * t;
    }
    if t >= 1 {
      MulNonneg(d, t - 1);
    } else if t <= -1 {
      MulNonneg(d, -t - 1);
    }
  }

  /** Dividing by 2 and then by `p` is dividing by `2 * p`, and the remainders compose. */
  lemma HalveThenDivide(v: int, p: int)
    requires p > 0
    ensures v / (2 * p) == (v / 2) / p
    ensures v % (2 * p) == 2 * ((v / 2) % p) + v % 2
  {
    var q, r := v / 2, v % 2;
    var q2, r2 := q / p, q % p;
    assert v == (2 * p) * q2 + (2 * r2 + r) by {
      assert q == p * q2 + r2;
    }
    MulNonneg(2, r2);
    DivModUnique(v, 2 * p, q2, 2 * r2 + r);
  }

  lemma BitOfHalf(v: int, k: nat)
    ensures Bit(v, k + 1) == Bit(v / 2, k)
  {
    HalveThenDivide(v, Pow2(k));
  }

  lemma LowBit(d: byte)
    ensures ByteBit(d, 0) as nat == Bit(d as int, 0)
  {
    assert ByteBit(d, 0) == d & 1;
    assert Bit(d as int, 0) == d as int % 2;
    LowBitValue(d);
  }

  lemma LowBitValue(d: byte)
    ensures (d & 1) as int == d as int % 2
  {
    assert d == ((d >> 1) << 1) | (d & 1);
  }

  lemma HalfByte(d: byte)
    ensures (d >> 1) as int == d as int / 2
  {
  }

  lemma ShiftOnce(d: byte, k: nat)
    requires 1 <= k < 8
    ensures ByteBit(d, k) == ByteBit(d >> 1, k - 1)
  {
  }

  /** `(d >> k) & 1` on a byte is bit k of its value. */
  lemma {:induction false} ShiftBit(d: byte, k: nat)
    requires k < 8
    ensures ByteBit(d, k) as nat == Bit(d as int, k)
  {
    if k == 0 {
      LowBit(d);
    } else {
      ShiftBit(d >> 1, k - 1);
      ShiftOnce(d, k);
      HalfByte(d);
      BitOfHalf(d as int, k - 1);
    }
  }

  lemma ByteBits(d: byte)
    ensures forall k :: 0 <= k < 8 ==> ByteBit(d, k) as nat == Bit(d as int, k)
  {
    forall k | 0 <= k < 8 ensures ByteBit(d, k) as nat == Bit(d as int, k) {
      ShiftBit(d, k);
    }
  }

  // ---------------------------------------------------------------------------------------------
  // Round trips

  /** A window whose LSBs spell the low |w| bits of `v`, MSB first, decodes to `v` modulo 2^|w|. */
  lemma {:induction false} LsbValueOfBits(w: seq<byte>, v: int)
    requires forall i :: 0 <= i < |w| ==> Lsb(w[i]) == Bit(v, |w| - 1 - i)
    ensures LsbValue(w) == v % Pow2(|w|)
  {
    if w != [] {
      var n := |w|;
      var p := w[..n - 1];
      forall i | 0 <= i < |p|
        ensures Lsb(p[i]) == Bit(v / 2, |p| - 1 - i)
      {
        BitOfHalf(v, n - 2 - i);
      }
      LsbValueOfBits(p, v / 2);
      HalveThenDivide(v, Pow2(n - 1));
    }
  }

  lemma {:induction false} Pow2Add(a: nat, b: nat)
    ensures Pow2(a + b) == Pow2(a) * Pow2(b)
  {
    if a > 0 {
      Pow2Add(a - 1, b);
    }
  }

  lemma Pow2Below8(i: nat)
    requires i < 8
    ensures Pow2(i) <= 128
    decreases 7 - i
  {
    if i < 7 {
      Pow2Below8(i + 1);
    } else {
      Pow2Of32();
    }
  }

  lemma Pow2Of32()
    ensures Pow2(8) == 256 && Pow2(32) == TWO_32
  {
    assert Pow2(2) == 4;
    Pow2Add(2, 2);
    Pow2Add(4, 4);
    Pow2Add(8, 8);
    Pow2Add(16, 16);
  }

  /** decode_byte_from_lsb inverts encode_byte_to_lsb, whatever the cover window held. */
  lemma ByteRoundTrip(d: byte, w: seq<byte>)
    requires |w| == BYTE_UNIT
    ensures LsbByte(EncodedByte(d, w)) == d
  {
    var r := EncodedByte(d, w);
    EncodedByteBits(d, w);
    LsbValueOfBits(r, d as int);
    Pow2Of32();
    assert LsbValue(r) == d as int by {
      ByteBound(d);
      DivModUnique(d as int, 256, 0, d as int);
    }
    ByteInjective(LsbByte(r), d);
  }

  /** decode_size_from_lsb inverts encode_size_to_lsb modulo 2^32, so every non-negative `int` comes back. */
  lemma SizeRoundTrip(v: int, w: seq<byte>)
    requires |w| == SIZE_UNIT
    ensures LsbValue(EncodedSize(v, w)) == v % TWO_32
    ensures 0 <= v < TWO_32 ==> LsbValue(EncodedSize(v, w)) == v
  {
    EncodedSizeBits(v, w);
    LsbValueOfBits(EncodedSize(v, w), v);
    Pow2Of32();
  }

  /** Window `j` of an encoded region is `encode_byte_to_lsb` of payload byte `j` over cover window `j`. */
  lemma {:induction false} EncodedBytesWindow(data: seq<byte>, cover: seq<byte>, j: nat)
    requires |cover| == BYTE_UNIT * |data| && j < |data|
    ensures EncodedBytes(data, cover)[8 * j..8 * j + 8] == EncodedByte(data[j], cover[8 * j..8 * j + 8])
  {
    if j > 0 {
      EncodedBytesWindow(data[1..], cover[8..], j - 1);
      assert cover[8..][8 * (j - 1)..8 * (j - 1) + 8] == cover[8 * j..8 * j + 8];
    }
  }

  /** Encoding one more byte over the next window extends the encoded region by that window. */
  lemma {:induction false} EncodedBytesAppend(data: seq<byte>, cover: seq<byte>, d: byte, w: seq<byte>)
    requires |cover| == BYTE_UNIT * |data| && |w| == BYTE_UNIT
    ensures EncodedBytes(data + [d], cover + w) == EncodedBytes(data, cover) + EncodedByte(d, w)
  {
    if data == [] {
      assert data + [d] == [d] && cover + w == w;
      assert w[..8] == w;
    } else {
      assert (data + [d])[1..] == data[1..] + [d];
      assert (cover + w)[8..] == cover[8..] + w;
      assert (cover + w)[..8] == cover[..8];
      EncodedBytesAppend(data[1..], cover[8..], d, w);
    }
  }

  /** Decoding |data| bytes from an encoded region, whatever follows it, gives `data` back. */
  lemma BytesRoundTrip(data: seq<byte>, cover: seq<byte>, rest: seq<byte>)
    requires |cover| == BYTE_UNIT * |data|
    ensures LsbBytes(EncodedBytes(data, cover) + rest, |data|) == data
  {
    var e := EncodedBytes(data, cover) + rest;
    forall j | 0 <= j < |data|
      ensures LsbBytes(e, |data|)[j] == data[j]
    {
      var w := e[8 * j..8 * j + 8];
      assert LsbBytes(e, |data|)[j] == LsbByte(w);
      EncodedBytesWindow(data, cover, j);
      assert w == EncodedBytes(data, cover)[8 * j..8 * j + 8];
      ByteRoundTrip(data[j], cover[8 * j..8 * j + 8]);
    }
  }
}

/**
 * The encoder and the decoder together: a stego image written by `do_encoding` decodes, with the same
 * magic string, to the secret file's extension and contents, under the output name the decoder builds.
 */
module RoundTrip {
  import opened Types
  import opened CStrings
  import opened LsbFormat
  import Encode
  import Decode

  /** A slice that lies inside the first part of a concatenation. */
  lemma SliceIn(a: seq<byte>, b: seq<byte>, i: nat, j: nat)
    requires i <= j <= |a|
    ensures (a + b)[i..j] == a[i..j]
  {
    assert forall k :: 0 <= k < j - i ==> (a + b)[i..j][k] == a[i + k];
  }

  /** A slice that lies inside the second part of a concatenation. */
  lemma SliceAfter(a: seq<byte>, b: seq<byte>, i: nat, j: nat)
    requires |a| <= i <= j <= |a| + |b|
    ensures (a + b)[i..j] == b[i - |a|..j - |a|]
  {
    assert forall k :: 0 <= k < j - i ==> (a + b)[i..j][k] == b[i - |a| + k];
  }

  /** Five fields laid end to end between a prefix and a tail can be sliced back out at their offsets. */
  lemma {:induction false} FieldSlices(img: seq<byte>, pre: seq<byte>, f1: seq<byte>, f2: seq<byte>, f3: seq<byte>,
                                       f4: seq<byte>, f5: seq<byte>, tail: seq<byte>,
                                       q1: nat, q2: nat, q3: nat, q4: nat, q5: nat)
    requires img == pre + (f1 + f2 + f3 + f4 + f5) + tail
    requires q1 == |pre| + |f1| && q2 == q1 + |f2| && q3 == q2 + |f3| && q4 == q3 + |f4| && q5 == q4 + |f5|
    ensures img[|pre|..q1] == f1 && img[q1..q2] == f2 && img[q2..q3] == f3 && img[q3..q4] == f4 && img[q4..q5] == f5
  {
    var a := |pre|;
    var s2, s3, s4 := f1 + f2, f1 + f2 + f3, f1 + f2 + f3 + f4;
    var fields := s4 + f5;
    // Down to the embedded fields.
    FieldsIn(img, pre, fields, tail, a, q1);
    FieldsIn(img, pre, fields, tail, q1, q2);
    FieldsIn(img, pre, fields, tail, q2, q3);
    FieldsIn(img, pre, fields, tail, q3, q4);
    FieldsIn(img, pre, fields, tail, q4, q5);
    // Then into each one.
    SliceAfter(s4, f5, q4 - a, q5 - a);
    SliceIn(s4, f5, q3 - a, q4 - a);
    SliceAfter(s3, f4, q3 - a, q4 - a);
    SliceIn(s4, f5, q2 - a, q3 - a);
    SliceIn(s3, f4, q2 - a, q3 - a);
    SliceAfter(s2, f3, q2 - a, q3 - a);
    SliceIn(s4, f5, q1 - a, q2 - a);
    SliceIn(s3, f4, q1 - a, q2 - a);
    SliceIn(s2, f3, q1 - a, q2 - a);
    SliceAfter(f1, f2, q1 - a, q2 - a);
    SliceIn(s4, f5, 0, q1 - a);
    SliceIn(s3, f4, 0, q1 - a);
    SliceIn(s2, f3, 0, q1 - a);
    SliceIn(f1, f2, 0, q1 - a);
  }

  /** A slice of the image inside its embedded region is the matching slice of the fields. */
  lemma FieldsIn(img: seq<byte>, pre: seq<byte>, fields: seq<byte>, tail: seq<byte>, i: nat, j: nat)
    requires img == pre + fields + tail && |pre| <= i <= j <= |pre| + |fields|
    ensures img[i..j] == fields[i - |pre|..j - |pre|]
  {
    SliceIn(pre + fields, tail, i, j);
    SliceAfter(pre, fields, i, j);
  }

  /** Each field of the stego image sits at its offset, encoded over the source bytes found there. */
  lemma {:induction false} StegoFields(src: seq<byte>, magic: seq<byte>, ext: seq<byte>, payload: seq<byte>,
                                       p1: nat, p2: nat, p3: nat, p4: nat, p5: nat)
    requires |src| >= HEADER_SIZE + EmbeddedLength(|magic|, |ext|, |payload|)
    requires p1 == HEADER_SIZE + BYTE_UNIT * |magic| && p2 == p1 + SIZE_UNIT && p3 == p2 + BYTE_UNIT * |ext|
    requires p4 == p3 + SIZE_UNIT && p5 == p4 + BYTE_UNIT * |payload|
    ensures var img := Encode.StegoImage(src, magic, ext, payload);
            && img[HEADER_SIZE..p1] == EncodedBytes(magic, src[HEADER_SIZE..p1])
            && img[p1..p2] == EncodedSize(|ext|, src[p1..p2])
            && img[p2..p3] == EncodedBytes(ext, src[p2..p3])
            && img[p3..p4] == EncodedSize(|payload|, src[p3..p4])
            && img[p4..p5] == EncodedBytes(payload, src[p4..p5])
  {
    var img := Encode.StegoImage(src, magic, ext, payload);
    Encode.EmbeddedFieldsLayout(src, magic, ext, payload, p1, p2, p3, p4, p5);
    var f1, f2, f3 := EncodedBytes(magic, src[HEADER_SIZE..p1]), EncodedSize(|ext|, src[p1..p2]), EncodedBytes(ext, src[p2..p3]);
    var f4, f5 := EncodedSize(|payload|, src[p3..p4]), EncodedBytes(payload, src[p4..p5]);
    assert img == src[..HEADER_SIZE] + (f1 + f2 + f3 + f4 + f5) + src[p5..];
    FieldSlices(img, src[..HEADER_SIZE], f1, f2, f3, f4, f5, src[p5..], p1, p2, p3, p4, p5);
  }

  /** The outcome the decoder must reach on a stego image carrying extension `ext` and `payload`. */
  function Expected(userName: seq<byte>, ext: seq<byte>, payload: seq<byte>): Decode.DecodeResult
    requires NoNul(userName) && NoNul(ext)
  {
    match Decode.OutputFileName(userName, ext)
    case None => Decode.Failed(Decode.NameTooLong)
    case Some(name) => Decode.Decoded(name, ext, payload)
  }

  /** `n` bytes encoded over the source at `p` decode back from the image. */
  lemma {:induction false} WindowsDecode(img: seq<byte>, src: seq<byte>, p: nat, data: seq<byte>)
    requires p + BYTE_UNIT * |data| <= |img| && p + BYTE_UNIT * |data| <= |src|
    requires img[p..p + BYTE_UNIT * |data|] == EncodedBytes(data, src[p..p + BYTE_UNIT * |data|])
    ensures Decode.DecodedWindows(img, p, |data|) == data
  {
    EncodedBytesDecode(data, src[p..p + BYTE_UNIT * |data|]);
  }

  /** A length encoded over the source at `p` decodes back from the image. */
  lemma {:induction false} LengthDecodes(img: seq<byte>, src: seq<byte>, p: nat, n: nat)
    requires p + SIZE_UNIT <= |img| && p + SIZE_UNIT <= |src| && n <= Encode.INT_MAX
    requires img[p..p + SIZE_UNIT] == EncodedSize(n, src[p..p + SIZE_UNIT])
    ensures LsbValue(img[p..p + SIZE_UNIT]) == n
  {
    Pow2Of32();
    SizeRoundTrip(n, src[p..p + SIZE_UNIT]);
  }

  /**
   * An image holding the five fields at their offsets, encoded over some source bytes, decodes with the
   * magic string to the extension and the payload under the name built from them, whatever the rest
   * of the image holds.
   */
  lemma {:induction false} DecodeLaidOut(img: seq<byte>, src: seq<byte>, magic: seq<byte>, ext: seq<byte>,
                                         payload: seq<byte>, userName: seq<byte>,
                                         p1: nat, p2: nat, p3: nat, p4: nat, p5: nat)
    requires NoNul(magic) && NoNul(userName) && NoNul(ext)
    requires 1 <= |ext| <= Decode.MAX_EXTN_SIZE && |payload| <= Encode.INT_MAX
    requires p1 == HEADER_SIZE + BYTE_UNIT * |magic| && p2 == p1 + SIZE_UNIT && p3 == p2 + BYTE_UNIT * |ext|
    requires p4 == p3 + SIZE_UNIT && p5 == p4 + BYTE_UNIT * |payload|
    requires p5 <= |img| && p5 <= |src|
    requires img[HEADER_SIZE..p1] == EncodedBytes(magic, src[HEADER_SIZE..p1])
    requires img[p1..p2] == EncodedSize(|ext|, src[p1..p2])
    requires img[p2..p3] == EncodedBytes(ext, src[p2..p3])
    requires img[p3..p4] == EncodedSize(|payload|, src[p3..p4])
    requires img[p4..p5] == EncodedBytes(payload, src[p4..p5])
    ensures Decode.DecodeImage(img, magic, userName) == Expected(userName, ext, payload)
  {
    MagicDecodes(img, src, magic, userName, p1);
    ExtnSizeDecodes(img, src, |ext|, userName, p1, p2);
    var name := Decode.OutputFileName(userName, ext);
    ExtnDecodes(img, src, ext, userName, p2, p3);
    if name.Some? {
      PayloadDecodes(img, src, payload, name.value, ext, p3, p4, p5);
    }
  }

  /** The magic string encoded at offset 54 is recognised: decoding goes on at the extension length. */
  lemma {:induction false} MagicDecodes(img: seq<byte>, src: seq<byte>, magic: seq<byte>, userName: seq<byte>, p1: nat)
    requires NoNul(magic) && NoNul(userName)
    requires p1 == HEADER_SIZE + BYTE_UNIT * |magic| && p1 <= |img| && p1 <= |src|
    requires img[HEADER_SIZE..p1] == EncodedBytes(magic, src[HEADER_SIZE..p1])
    ensures Decode.DecodeImage(img, magic, userName) == Decode.DecodeExtnSizeField(img, p1, userName)
  {
    WindowsDecode(img, src, HEADER_SIZE, magic);
    Decode.MagicStage(img, magic, userName);
  }

  /** An extension length in [1, 4] encoded at `p1` is read back: decoding goes on at the extension. */
  lemma {:induction false} ExtnSizeDecodes(img: seq<byte>, src: seq<byte>, n: nat, userName: seq<byte>, p1: nat, p2: nat)
    requires NoNul(userName) && 1 <= n <= Decode.MAX_EXTN_SIZE
    requires p2 == p1 + SIZE_UNIT && p2 <= |img| && p2 <= |src|
    requires img[p1..p2] == EncodedSize(n, src[p1..p2])
    ensures Decode.DecodeExtnSizeField(img, p1, userName) == Decode.DecodeExtnField(img, p2, n, userName)
  {
    LengthDecodes(img, src, p1, n);
    Decode.ExtnSizeStage(img, p1, userName);
  }

  /** The extension encoded at `p2` is read back and names the output file, when the name fits. */
  lemma {:induction false} ExtnDecodes(img: seq<byte>, src: seq<byte>, ext: seq<byte>, userName: seq<byte>, p2: nat, p3: nat)
    requires NoNul(userName) && NoNul(ext) && 1 <= |ext| <= Decode.MAX_EXTN_SIZE
    requires p3 == p2 + BYTE_UNIT * |ext| && p3 <= |img| && p3 <= |src|
    requires img[p2..p3] == EncodedBytes(ext, src[p2..p3])
    ensures var name := Decode.OutputFileName(userName, ext);
            && (name.None? ==> Decode.DecodeExtnField(img, p2, |ext|, userName) == Decode.Failed(Decode.NameTooLong))
            && (name.Some? ==> Decode.DecodeExtnField(img, p2, |ext|, userName) == Decode.DecodeSizeField(img, p3, name.value, ext))
  {
    assert p3 == Decode.FieldEnd(p2, |ext|);
    WindowsDecode(img, src, p2, ext);
    CStringPrefix(ext);
  }

  /** The payload length and the payload encoded from `p3` on are read back in full. */
  lemma {:induction false} PayloadDecodes(img: seq<byte>, src: seq<byte>, payload: seq<byte>, fileName: seq<byte>,
                                          ext: seq<byte>, p3: nat, p4: nat, p5: nat)
    requires |payload| <= Encode.INT_MAX
    requires p4 == p3 + SIZE_UNIT && p5 == p4 + BYTE_UNIT * |payload| && p5 <= |img| && p5 <= |src|
    requires img[p3..p4] == EncodedSize(|payload|, src[p3..p4])
    requires img[p4..p5] == EncodedBytes(payload, src[p4..p5])
    ensures Decode.DecodeSizeField(img, p3, fileName, ext) == Decode.Decoded(fileName, ext, payload)
  {
    LengthDecodes(img, src, p3, |payload|);
    WindowsDecode(img, src, p4, payload);
  }

  /**
   * Decoding a stego image with the magic string it was encoded with gives back the extension and
   * the payload exactly, under the name built from the user's name and that extension; it fails only
   * when that name would not fit.
   */
  lemma {:induction false} EncodeThenDecode(src: seq<byte>, magic: seq<byte>, ext: seq<byte>, payload: seq<byte>,
                                            userName: seq<byte>)
    requires NoNul(magic) && NoNul(userName) && NoNul(ext)
    requires 1 <= |ext| <= Decode.MAX_EXTN_SIZE && |payload| <= Encode.INT_MAX
    requires |src| >= HEADER_SIZE + EmbeddedLength(|magic|, |ext|, |payload|)
    ensures Decode.DecodeImage(Encode.StegoImage(src, magic, ext, payload), magic, userName) == Expected(userName, ext, payload)
  {
    var p1 := HEADER_SIZE + BYTE_UNIT * |magic|;
    var p2 := p1 + SIZE_UNIT;
    var p3 := p2 + BYTE_UNIT * |ext|;
    var p4 := p3 + SIZE_UNIT;
    var p5 := p4 + BYTE_UNIT * |payload|;
    StegoFields(src, magic, ext, payload, p1, p2, p3, p4, p5);
    DecodeLaidOut(Encode.StegoImage(src, magic, ext, payload), src, magic, ext, payload, userName, p1, p2, p3, p4, p5);
  }

  /**
   * The encoder's stored extension always satisfies the decoder's length check: a validated secret
   * name yields 2 to 4 extension bytes without NUL.
   */
  lemma StoredExtensionDecodable(secretName: seq<byte>)
    requires DotSuffix(secretName).Some? && Encode.IsAllowedExtension(DotSuffix(secretName).value)
    ensures 1 <= |Encode.StoredExtension(secretName)| <= Decode.MAX_EXTN_SIZE
    ensures NoNul(Encode.StoredExtension(secretName))
  {
    Encode.ValidatedExtension(secretName);
  }

  /**
   * When `check_capacity` passes over the pixel data that follows the header, the embedded fields fit
   * in the source image with 86 bytes to spare: the capacity counts only pixel bytes, yet the demand
   * includes the 54 header bytes, and `sizeof(long)` reserves 64 bytes for a field written in 32.
   */
  lemma CapacityMeansFit(srcLen: nat, capacity: nat, magicLen: nat, extLen: nat, payloadLen: nat)
    requires srcLen >= HEADER_SIZE + capacity
    requires Encode.RequiredCapacity(magicLen, extLen, payloadLen) <= capacity
    ensures EmbeddedLength(magicLen, extLen, payloadLen) + HEADER_SIZE + SIZE_UNIT <= capacity
    ensures srcLen >= HEADER_SIZE + EmbeddedLength(magicLen, extLen, payloadLen) + HEADER_SIZE + SIZE_UNIT
  {
  }

  /**
   * The whole pipeline on a validated secret name: a stego image from `do_encoding` decodes to the
   * secret file's extension and contents; with no output name given, into "output" plus that
   * extension.
   */
  lemma {:induction false} EncodeThenDecodeDefaultName(src: seq<byte>, magic: seq<byte>, secretName: seq<byte>, payload: seq<byte>)
    requires NoNul(magic) && |payload| <= Encode.INT_MAX
    requires DotSuffix(secretName).Some? && Encode.IsAllowedExtension(DotSuffix(secretName).value)
    requires |src| >= HEADER_SIZE + EmbeddedLength(|magic|, |Encode.StoredExtension(secretName)|, |payload|)
    ensures var ext := Encode.StoredExtension(secretName);
            Decode.DecodeImage(Encode.StegoImage(src, magic, ext, payload), magic, [])
              == Decode.Decoded(Decode.DEFAULT_STEM + ext, ext, payload)
  {
    var ext := Encode.StoredExtension(secretName);
    StoredExtensionDecodable(secretName);
    EncodeThenDecode(src, magic, ext, payload, []);
    Decode.DefaultOutputName(ext);
  }
}

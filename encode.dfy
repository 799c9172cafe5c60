/**
 * The encoder (encode.c): validates the command line, checks that the cover image can hold the secret
 * file, and writes the stego image through a forward-only cursor over the source image: the 54-byte
 * header verbatim, then the magic string, the extension length, the extension, the payload length and
 * the payload in the LSBs of the next cover bytes, then the rest of the source verbatim.
 */
module Encode {
  import opened Types
  import opened CStrings
  import opened LsbFormat

  /**
   * `sizeof(int)` and `sizeof(long)`, assuming an LP64 target (64-bit Linux or macOS). On an LLP64
   * target `long` has 4 bytes and `check_capacity` would reserve 32 bytes for the size field instead of 64.
   */
  const INT_SIZE: nat := 4
  const LONG_SIZE: nat := 8
  /** One past the largest `unsigned int`, and one past the largest `int`. */
  const UINT_LIMIT: nat := 0x1_0000_0000
  const INT_MIN: int := -0x8000_0000
  const INT_MAX: int := 0x7FFF_FFFF
  /** `char extn_secret_file[5]`: at most 4 characters and the terminating NUL. */
  const EXTN_BUF_SIZE: nat := 5

  const BMP_EXT: seq<byte> := [0x2E, 0x62, 0x6D, 0x70]  // ".bmp"
  const TXT_EXT: seq<byte> := [0x2E, 0x74, 0x78, 0x74]  // ".txt"
  const C_EXT: seq<byte> := [0x2E, 0x63]                 // ".c"
  const H_EXT: seq<byte> := [0x2E, 0x68]                 // ".h"
  const SH_EXT: seq<byte> := [0x2E, 0x73, 0x68]          // ".sh"
  const PY_EXT: seq<byte> := [0x2E, 0x70, 0x79]          // ".py"
  /** "steg.bmp", the stego image name when none is given. */
  const DEFAULT_STEGO_NAME: seq<byte> := [0x73, 0x74, 0x65, 0x67, 0x2E, 0x62, 0x6D, 0x70]

  /** The secret file extensions the encoder accepts. */
  predicate IsAllowedExtension(ext: seq<byte>)
  {
    ext == TXT_EXT || ext == C_EXT || ext == H_EXT || ext == SH_EXT || ext == PY_EXT
  }

  /** A file name whose text from its last '.' on is exactly ".bmp". */
  predicate HasBmpExtension(name: seq<byte>)
  {
    DotSuffix(name) == Some(BMP_EXT)
  }

  /** The source image argument passes: present and ending in ".bmp" (a NULL argument is `None`). */
  predicate SourceArgValid(src: Option<seq<byte>>)
  {
    src.Some? && HasBmpExtension(src.value)
  }

  /** The secret file argument passes: present, with a last '.' that starts an allowed extension. */
  predicate SecretArgValid(secret: Option<seq<byte>>)
  {
    secret.Some? && DotSuffix(secret.value).Some? && IsAllowedExtension(DotSuffix(secret.value).value)
  }

  /** The conditions under which `read_and_validate_encode_args` succeeds. */
  predicate EncodeArgsValid(src: Option<seq<byte>>, secret: Option<seq<byte>>, stego: Option<seq<byte>>)
  {
    SourceArgValid(src) && SecretArgValid(secret) && (stego.Some? ==> HasBmpExtension(stego.value))
  }

  /** The extension the encoder stores: the secret name's last-dot suffix, cut to fit `extn_secret_file`. */
  function StoredExtension(secretName: seq<byte>): (ext: seq<byte>)
    requires DotSuffix(secretName).Some?
    ensures var suffix := DotSuffix(secretName).value;
            ext <= suffix && |ext| == if |suffix| < EXTN_BUF_SIZE then |suffix| else EXTN_BUF_SIZE - 1
    ensures ext[0] == DOT
  {
    Truncate(DotSuffix(secretName).value, EXTN_BUF_SIZE - 1)
  }

  /**
   * A secret name that passes validation gives a stored extension of 2 to 4 characters that starts
   * with '.', holds no NUL and is exactly the name's ending: the cut to 4 characters never bites.
   */
  lemma ValidatedExtension(secretName: seq<byte>)
    requires DotSuffix(secretName).Some? && IsAllowedExtension(DotSuffix(secretName).value)
    ensures StoredExtension(secretName) == DotSuffix(secretName).value
    ensures 2 <= |StoredExtension(secretName)| <= EXTN_BUF_SIZE - 1
    ensures StoredExtension(secretName)[0] == DOT && NoNul(StoredExtension(secretName))
    ensures secretName == secretName[..|secretName| - |StoredExtension(secretName)|] + StoredExtension(secretName)
  {
    var ext := DotSuffix(secretName).value;
    assert |ext| <= 4 && NoNul(ext);
  }

  /** The image bytes `check_capacity` demands: the header, then 8 cover bytes per byte of the magic
      string, of an `int`, of the extension, of a `long` and of the secret file. */
  function RequiredCapacity(magicLen: nat, extLen: nat, secretSize: nat): (r: nat)
    ensures r == HEADER_SIZE + EmbeddedLength(magicLen, extLen, secretSize) + (LONG_SIZE - INT_SIZE) * 8
  {
    HEADER_SIZE + magicLen * 8 + INT_SIZE * 8 + extLen * 8 + LONG_SIZE * 8 + secretSize * 8
  }

  /**
   * The embedded region `do_encoding` writes after the header: the magic string, the extension
   * length, the extension, the payload length and the payload, each over the next source bytes
   * from offset 54 on.
   */
  function EmbeddedFields(src: seq<byte>, magic: seq<byte>, ext: seq<byte>, payload: seq<byte>): (r: seq<byte>)
    requires |src| >= HEADER_SIZE + EmbeddedLength(|magic|, |ext|, |payload|)
    ensures |r| == EmbeddedLength(|magic|, |ext|, |payload|)
  {
    var p1 := HEADER_SIZE + BYTE_UNIT * |magic|;
    var p2 := p1 + SIZE_UNIT;
    var p3 := p2 + BYTE_UNIT * |ext|;
    var p4 := p3 + SIZE_UNIT;
    var p5 := p4 + BYTE_UNIT * |payload|;
    EncodedBytes(magic, src[HEADER_SIZE..p1]) + EncodedSize(|ext|, src[p1..p2]) + EncodedBytes(ext, src[p2..p3])
      + EncodedSize(|payload|, src[p3..p4]) + EncodedBytes(payload, src[p4..p5])
  }

  /** EmbeddedFields spelled out at given field boundaries p1..p5. */
  lemma {:induction false} EmbeddedFieldsLayout(src: seq<byte>, magic: seq<byte>, ext: seq<byte>, payload: seq<byte>,
                                                p1: nat, p2: nat, p3: nat, p4: nat, p5: nat)
    requires |src| >= HEADER_SIZE + EmbeddedLength(|magic|, |ext|, |payload|)
    requires p1 == HEADER_SIZE + BYTE_UNIT * |magic| && p2 == p1 + SIZE_UNIT && p3 == p2 + BYTE_UNIT * |ext|
    requires p4 == p3 + SIZE_UNIT && p5 == p4 + BYTE_UNIT * |payload|
    ensures EmbeddedFields(src, magic, ext, payload)
              == EncodedBytes(magic, src[HEADER_SIZE..p1]) + EncodedSize(|ext|, src[p1..p2]) + EncodedBytes(ext, src[p2..p3])
                 + EncodedSize(|payload|, src[p3..p4]) + EncodedBytes(payload, src[p4..p5])
  {
  }

  /** The stego image `do_encoding` writes: the source's 54-byte header, the embedded fields, then
      the rest of the source verbatim. */
  function StegoImage(src: seq<byte>, magic: seq<byte>, ext: seq<byte>, payload: seq<byte>): (r: seq<byte>)
    requires |src| >= HEADER_SIZE + EmbeddedLength(|magic|, |ext|, |payload|)
    ensures |r| == |src|
  {
    src[..HEADER_SIZE] + EmbeddedFields(src, magic, ext, payload) + src[HEADER_SIZE + EmbeddedLength(|magic|, |ext|, |payload|)..]
  }

  /** The embedded fields change only bit 0 of the source bytes they are written over. */
  lemma {:induction false} EmbeddedFieldsDifferOnlyInLsb(src: seq<byte>, magic: seq<byte>, ext: seq<byte>, payload: seq<byte>)
    requires |src| >= HEADER_SIZE + EmbeddedLength(|magic|, |ext|, |payload|)
    ensures DiffersOnlyInLsb(EmbeddedFields(src, magic, ext, payload),
                             src[HEADER_SIZE..HEADER_SIZE + EmbeddedLength(|magic|, |ext|, |payload|)])
  {
    var p0 := HEADER_SIZE;
    var p1 := p0 + BYTE_UNIT * |magic|;
    var p2 := p1 + SIZE_UNIT;
    var p3 := p2 + BYTE_UNIT * |ext|;
    var p4 := p3 + SIZE_UNIT;
    var p5 := p4 + BYTE_UNIT * |payload|;
    EmbeddedFieldsLayout(src, magic, ext, payload, p1, p2, p3, p4, p5);
    var f1, f2, f3 := EncodedBytes(magic, src[p0..p1]), EncodedSize(|ext|, src[p1..p2]), EncodedBytes(ext, src[p2..p3]);
    var f4, f5 := EncodedSize(|payload|, src[p3..p4]), EncodedBytes(payload, src[p4..p5]);
    EncodedBytesKeepHighBits(magic, src[p0..p1]);
    EncodedSizeKeepsHighBits(|ext|, src[p1..p2]);
    EncodedBytesKeepHighBits(ext, src[p2..p3]);
    EncodedSizeKeepsHighBits(|payload|, src[p3..p4]);
    EncodedBytesKeepHighBits(payload, src[p4..p5]);
    DiffersOnlyInLsbJoin(f1, f2, src, p0, p1, p2);
    DiffersOnlyInLsbJoin(f1 + f2, f3, src, p0, p2, p3);
    DiffersOnlyInLsbJoin(f1 + f2 + f3, f4, src, p0, p3, p4);
    DiffersOnlyInLsbJoin(f1 + f2 + f3 + f4, f5, src, p0, p4, p5);
  }

  /**
   * The stego image is as long as the source and differs from it only in bit 0 of bytes, and only
   * inside the embedded region [54, 54 + EmbeddedLength): the header and the tail are copied unchanged.
   */
  lemma {:induction false} StegoImageDiffersOnlyInLsb(src: seq<byte>, magic: seq<byte>, ext: seq<byte>, payload: seq<byte>)
    requires |src| >= HEADER_SIZE + EmbeddedLength(|magic|, |ext|, |payload|)
    ensures DiffersOnlyInLsb(StegoImage(src, magic, ext, payload), src)
    ensures forall k :: 0 <= k < |src| && (k < HEADER_SIZE || k >= HEADER_SIZE + EmbeddedLength(|magic|, |ext|, |payload|))
              ==> StegoImage(src, magic, ext, payload)[k] == src[k]
  {
    var p5 := HEADER_SIZE + EmbeddedLength(|magic|, |ext|, |payload|);
    var fields := EmbeddedFields(src, magic, ext, payload);
    var r := StegoImage(src, magic, ext, payload);
    EmbeddedFieldsDifferOnlyInLsb(src, magic, ext, payload);
    DiffersOnlyInLsbConcat(src[..HEADER_SIZE], src[..HEADER_SIZE], fields, src[HEADER_SIZE..p5]);
    assert src[..HEADER_SIZE] + src[HEADER_SIZE..p5] == src[..p5];
    DiffersOnlyInLsbConcat(src[..HEADER_SIZE] + fields, src[..p5], src[p5..], src[p5..]);
    assert src[..p5] + src[p5..] == src;
    forall k | 0 <= k < |src| && (k < HEADER_SIZE || k >= p5)
      ensures r[k] == src[k]
    {
      if k < HEADER_SIZE {
        assert r[k] == src[..HEADER_SIZE][k];
      } else {
        assert r[k] == src[p5..][k - p5];
      }
    }
  }

  /** `encode_byte_to_lsb`: bit 7 - i of `data` goes into bit 0 of `imageBuffer[i]` for i in [0, 8). */
  method EncodeByteToLsb(data: byte, imageBuffer: array<byte>)
    requires imageBuffer.Length >= BYTE_UNIT
    modifies imageBuffer
    ensures imageBuffer[..BYTE_UNIT] == EncodedByte(data, old(imageBuffer[..BYTE_UNIT]))
    ensures imageBuffer[BYTE_UNIT..] == old(imageBuffer[BYTE_UNIT..])
  {
    ghost var window := imageBuffer[..BYTE_UNIT];
    ghost var encoded := EncodedByte(data, window);
    for i := 0 to BYTE_UNIT
      invariant forall k :: 0 <= k < i ==> imageBuffer[k] == encoded[k]
      invariant forall k :: i <= k < imageBuffer.Length ==> imageBuffer[k] == old(imageBuffer[k])
    {
      imageBuffer[i] := (imageBuffer[i] & 0xFE) | ByteBit(data, 7 - i);
    }
  }

  /** `encode_size_to_lsb`: bit 31 - i of the C `int` `size` goes into bit 0 of `imageBuffer[i]` for i in [0, 32). */
  method EncodeSizeToLsb(size: int, imageBuffer: array<byte>)
    requires INT_MIN <= size <= INT_MAX
    requires imageBuffer.Length >= SIZE_UNIT
    modifies imageBuffer
    ensures imageBuffer[..SIZE_UNIT] == EncodedSize(size, old(imageBuffer[..SIZE_UNIT]))
    ensures imageBuffer[SIZE_UNIT..] == old(imageBuffer[SIZE_UNIT..])
  {
    ghost var window := imageBuffer[..SIZE_UNIT];
    ghost var encoded := EncodedSize(size, window);
    for i := 0 to SIZE_UNIT
      invariant forall k :: 0 <= k < i ==> imageBuffer[k] == encoded[k]
      invariant forall k :: i <= k < imageBuffer.Length ==> imageBuffer[k] == old(imageBuffer[k])
    {
      imageBuffer[i] := (imageBuffer[i] & 0xFE) | (Bit(size, 31 - i) as byte);
    }
  }

  /** EncodeInfo: the names, sizes and open files of one encoding run. */
  class EncodeInfo {
    var srcImageFname: seq<byte>
    var secretFname: seq<byte>
    var extnSecretFile: seq<byte>
    var stegoImageFname: seq<byte>
    var imageCapacity: nat
    var sizeSecretFile: nat
    /** The source image's bytes and the position of its read cursor. */
    var srcImage: seq<byte>
    var srcPos: nat
    /** The secret file's bytes. */
    var secret: seq<byte>
    /** The bytes written to the stego image so far. */
    var stegoImage: seq<byte>

    constructor ()
      ensures srcImageFname == secretFname == extnSecretFile == stegoImageFname == []
      ensures srcImage == secret == stegoImage == [] && srcPos == 0
    {
      srcImageFname, secretFname, extnSecretFile, stegoImageFname := [], [], [], [];
      imageCapacity, sizeSecretFile := 0, 0;
      srcImage, srcPos, secret, stegoImage := [], 0, [], [];
    }

    /**
     * `read_and_validate_encode_args` on argv[2..4]: the source must end in ".bmp" after its last '.',
     * the secret in one of the allowed extensions, and the optional output in ".bmp"; the output name
     * defaults to "steg.bmp". Fields are set as each argument passes, so a failure leaves the fields of
     * the arguments already accepted set. Arguments come from argv, so none holds a NUL.
     */
    method ReadAndValidateEncodeArgs(src: Option<seq<byte>>, secret: Option<seq<byte>>, stego: Option<seq<byte>>)
      returns (st: Status)
      requires src.Some? ==> NoNul(src.value)
      requires secret.Some? ==> NoNul(secret.value)
      requires stego.Some? ==> NoNul(stego.value)
      modifies this`srcImageFname, this`secretFname, this`extnSecretFile, this`stegoImageFname
      ensures st == Success <==> EncodeArgsValid(src, secret, stego)
      ensures st == Success ==> srcImageFname == src.value && secretFname == secret.value
      ensures st == Success ==> extnSecretFile == StoredExtension(secret.value)
      ensures st == Success ==> stegoImageFname == if stego.Some? then stego.value else DEFAULT_STEGO_NAME
      ensures srcImageFname == if SourceArgValid(src) then src.value else old(srcImageFname)
      ensures SourceArgValid(src) && SecretArgValid(secret) ==>
                secretFname == secret.value && extnSecretFile == StoredExtension(secret.value)
      ensures !(SourceArgValid(src) && SecretArgValid(secret)) ==>
                secretFname == old(secretFname) && extnSecretFile == old(extnSecretFile)
      ensures st == Failure ==> stegoImageFname == old(stegoImageFname)
    {
      if src.None? || !HasBmpExtension(src.value) {
        return Failure;
      }
      srcImageFname := src.value;
      if secret.None? {
        return Failure;
      }
      var secretDot := DotSuffix(secret.value);
      if secretDot.None? || !IsAllowedExtension(secretDot.value) {
        return Failure;
      }
      secretFname := secret.value;
      extnSecretFile := Truncate(secretDot.value, EXTN_BUF_SIZE - 1);
      if stego.Some? {
        if !HasBmpExtension(stego.value) {
          return Failure;
        }
        stegoImageFname := stego.value;
      } else {
        stegoImageFname := DEFAULT_STEGO_NAME;
      }
      return Success;
    }

    /** `open_files`, with the files' contents given: the source is read from its start, the stego image is empty. */
    method OpenFiles(srcFile: seq<byte>, secretFile: seq<byte>)
      modifies this`srcImage, this`srcPos, this`secret, this`stegoImage
      ensures srcImage == srcFile && srcPos == 0 && secret == secretFile && stegoImage == []
    {
      srcImage, srcPos, secret, stegoImage := srcFile, 0, secretFile, [];
    }

    /**
     * `check_capacity`: the image holds width * height * 3 bytes; it fails exactly when that is below
     * the required capacity, and passes at equality.
     */
    method CheckCapacity(width: nat, height: nat, magic: seq<byte>) returns (st: Status)
      requires NoNul(magic)
      requires width * height * 3 < UINT_LIMIT
      requires RequiredCapacity(|magic|, |extnSecretFile|, |secret|) < UINT_LIMIT
      modifies this`imageCapacity, this`sizeSecretFile
      ensures imageCapacity == width * height * 3 && sizeSecretFile == |secret|
      ensures st == Success <==> RequiredCapacity(|magic|, |extnSecretFile|, |secret|) <= imageCapacity
    {
      imageCapacity := width * height * 3;
      sizeSecretFile := |secret|;
      var fileCapacity := HEADER_SIZE + |magic| * 8 + INT_SIZE * 8 + |extnSecretFile| * 8 + LONG_SIZE * 8 + sizeSecretFile * 8;
      if imageCapacity < fileCapacity {
        return Failure;
      }
      return Success;
    }

    /** `fread` of `n` source bytes into a fresh buffer, advancing the cursor. */
    method ReadSource(n: nat) returns (buffer: array<byte>)
      requires srcPos + n <= |srcImage|
      modifies this`srcPos
      ensures fresh(buffer) && buffer[..] == srcImage[old(srcPos)..old(srcPos) + n]
      ensures srcPos == old(srcPos) + n
    {
      var window := srcImage[srcPos..srcPos + n];
      buffer := new byte[n](i requires 0 <= i < n => window[i]);
      srcPos := srcPos + n;
    }

    /** `copy_bmp_header`: rewind the source and copy its first 54 bytes. */
    method CopyBmpHeader()
      requires |srcImage| >= HEADER_SIZE
      modifies this`srcPos, this`stegoImage
      ensures srcPos == HEADER_SIZE && stegoImage == old(stegoImage) + srcImage[..HEADER_SIZE]
    {
      srcPos := 0;
      var header := ReadSource(HEADER_SIZE);
      stegoImage := stegoImage + header[..];
    }

    /** One step of the field writers: read 8 source bytes, put `data` in their LSBs, write them. */
    method EncodeByteFromSource(data: byte)
      requires srcPos + BYTE_UNIT <= |srcImage|
      modifies this`srcPos, this`stegoImage
      ensures srcPos == old(srcPos) + BYTE_UNIT
      ensures stegoImage == old(stegoImage) + EncodedByte(data, old(srcImage)[old(srcPos)..srcPos])
    {
      var buffer := ReadSource(BYTE_UNIT);
      EncodeByteToLsb(data, buffer);
      assert buffer[..] == buffer[..BYTE_UNIT];
      stegoImage := stegoImage + buffer[..];
    }

    /** The loop of `encode_magic_string`, `encode_secret_file_extn` and `encode_secret_file_data`:
        per byte, read 8 source bytes, put the byte in their LSBs and write them. */
    method EncodeBytes(data: seq<byte>)
      requires srcPos + BYTE_UNIT * |data| <= |srcImage|
      modifies this`srcPos, this`stegoImage
      ensures srcPos == old(srcPos) + BYTE_UNIT * |data|
      ensures stegoImage == old(stegoImage) + EncodedBytes(data, old(srcImage)[old(srcPos)..srcPos])
    {
      ghost var start := srcPos;
      ghost var written := stegoImage;
      var i := 0;
      while i < |data|
        invariant 0 <= i <= |data|
        invariant srcPos == start + BYTE_UNIT * i
        invariant stegoImage == written + EncodedBytes(data[..i], srcImage[start..srcPos])
      {
        ghost var at := srcPos;
        EncodeByteFromSource(data[i]);
        EncodedBytesStep(srcImage, data, start, at, srcPos, i);
        AppendAssoc(written, EncodedBytes(data[..i], srcImage[start..at]), EncodedByte(data[i], srcImage[at..srcPos]));
        i := i + 1;
      }
      assert data[..i] == data;
    }

    /** `encode_magic_string` */
    method EncodeMagicString(magic: seq<byte>)
      requires NoNul(magic)
      requires srcPos + BYTE_UNIT * |magic| <= |srcImage|
      modifies this`srcPos, this`stegoImage
      ensures srcPos == old(srcPos) + BYTE_UNIT * |magic|
      ensures stegoImage == old(stegoImage) + EncodedBytes(magic, old(srcImage)[old(srcPos)..srcPos])
    {
      EncodeBytes(magic);
    }

    /** `encode_secret_file_extn_size`: one 32-byte window carries the extension length. */
    method EncodeSecretFileExtnSize(size: int)
      requires INT_MIN <= size <= INT_MAX
      requires srcPos + SIZE_UNIT <= |srcImage|
      modifies this`srcPos, this`stegoImage
      ensures srcPos == old(srcPos) + SIZE_UNIT
      ensures stegoImage == old(stegoImage) + EncodedSize(size, old(srcImage)[old(srcPos)..srcPos])
    {
      var buffer := ReadSource(SIZE_UNIT);
      EncodeSizeToLsb(size, buffer);
      assert buffer[..] == buffer[..SIZE_UNIT];
      stegoImage := stegoImage + buffer[..];
    }

    /** `encode_secret_file_extn` */
    method EncodeSecretFileExtn(fileExtn: seq<byte>)
      requires srcPos + BYTE_UNIT * |fileExtn| <= |srcImage|
      modifies this`srcPos, this`stegoImage
      ensures srcPos == old(srcPos) + BYTE_UNIT * |fileExtn|
      ensures stegoImage == old(stegoImage) + EncodedBytes(fileExtn, old(srcImage)[old(srcPos)..srcPos])
    {
      EncodeBytes(fileExtn);
    }

    /** `encode_secret_file_size`: the `long` size passed on as an `int` into one 32-byte window. */
    method EncodeSecretFileSize(fileSize: nat)
      requires fileSize <= INT_MAX
      requires srcPos + SIZE_UNIT <= |srcImage|
      modifies this`srcPos, this`stegoImage
      ensures srcPos == old(srcPos) + SIZE_UNIT
      ensures stegoImage == old(stegoImage) + EncodedSize(fileSize, old(srcImage)[old(srcPos)..srcPos])
    {
      var buffer := ReadSource(SIZE_UNIT);
      EncodeSizeToLsb(fileSize, buffer);
      assert buffer[..] == buffer[..SIZE_UNIT];
      stegoImage := stegoImage + buffer[..];
    }

    /** `encode_secret_file_data`: every byte of the secret file, from its start, into 8 cover bytes. */
    method EncodeSecretFileData()
      requires srcPos + BYTE_UNIT * |secret| <= |srcImage|
      modifies this`srcPos, this`stegoImage
      ensures srcPos == old(srcPos) + BYTE_UNIT * |old(secret)|
      ensures stegoImage == old(stegoImage) + EncodedBytes(old(secret), old(srcImage)[old(srcPos)..srcPos])
    {
      EncodeBytes(secret);
    }

    /** `copy_remaining_img_data`: copy the source byte by byte from the cursor to its end. */
    method CopyRemainingImgData()
      requires srcPos <= |srcImage|
      modifies this`srcPos, this`stegoImage
      ensures srcPos == |srcImage|
      ensures stegoImage == old(stegoImage) + srcImage[old(srcPos)..]
    {
      while srcPos < |srcImage|
        invariant old(srcPos) <= srcPos <= |srcImage|
        invariant stegoImage == old(stegoImage) + srcImage[old(srcPos)..srcPos]
      {
        var ch := srcImage[srcPos];
        srcPos := srcPos + 1;
        stegoImage := stegoImage + [ch];
      }
    }

    /** The field writers `do_encoding` calls after the header, in order, from the end of the header on. */
    method EncodeFields(magic: seq<byte>)
      requires NoNul(magic)
      requires srcPos == HEADER_SIZE && HEADER_SIZE + EmbeddedLength(|magic|, |extnSecretFile|, |secret|) <= |srcImage|
      requires |extnSecretFile| <= INT_MAX && sizeSecretFile == |secret| <= INT_MAX
      modifies this`srcPos, this`stegoImage
      ensures srcPos == HEADER_SIZE + EmbeddedLength(|magic|, |extnSecretFile|, |secret|)
      ensures stegoImage == old(stegoImage) + EmbeddedFields(srcImage, magic, extnSecretFile, secret)
    {
      ghost var src, ext, data, s0 := srcImage, extnSecretFile, secret, stegoImage;
      EncodeMagicString(magic);
      ghost var p1, s1 := srcPos, stegoImage;
      EncodeSecretFileExtnSize(|extnSecretFile|);
      ghost var p2, s2 := srcPos, stegoImage;
      EncodeSecretFileExtn(extnSecretFile);
      ghost var p3, s3 := srcPos, stegoImage;
      EncodeSecretFileSize(sizeSecretFile);
      ghost var p4, s4 := srcPos, stegoImage;
      EncodeSecretFileData();
      EmbeddedFieldsLayout(src, magic, ext, data, p1, p2, p3, p4, srcPos);
      AppendFive(s0, EncodedBytes(magic, src[HEADER_SIZE..p1]), EncodedSize(|ext|, src[p1..p2]), EncodedBytes(ext, src[p2..p3]),
                 EncodedSize(|data|, src[p3..p4]), EncodedBytes(data, src[p4..srcPos]));
    }

    /**
     * `do_encoding`, after argument validation: open the files, check the capacity, then write the
     * header, the magic string, the extension length, the extension, the secret size, the secret
     * data and the rest of the source. On success the stego image is StegoImage of the inputs; when
     * the capacity check fails nothing has been written.
     */
    method DoEncoding(srcFile: seq<byte>, secretFile: seq<byte>, width: nat, height: nat, magic: seq<byte>)
      returns (st: Status)
      requires NoNul(magic)
      requires |srcFile| >= HEADER_SIZE + width * height * 3
      requires width * height * 3 < UINT_LIMIT
      requires RequiredCapacity(|magic|, |extnSecretFile|, |secretFile|) < UINT_LIMIT
      modifies this`srcImage, this`srcPos, this`secret, this`stegoImage, this`imageCapacity, this`sizeSecretFile
      ensures imageCapacity == width * height * 3 && sizeSecretFile == |secretFile|
      ensures st == Success <==> RequiredCapacity(|magic|, |extnSecretFile|, |secretFile|) <= width * height * 3
      ensures st == Success ==> stegoImage == StegoImage(srcFile, magic, extnSecretFile, secretFile)
      ensures st == Failure ==> stegoImage == []
    {
      OpenFiles(srcFile, secretFile);
      st := CheckCapacity(width, height, magic);
      if st == Failure {
        return;
      }
      CopyBmpHeader();
      assert stegoImage == srcFile[..HEADER_SIZE];
      EncodeFields(magic);
      CopyRemainingImgData();
    }
  }
}

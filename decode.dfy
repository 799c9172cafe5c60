/**
 * The decoder of decode.c: `decode_byte_from_lsb` and `decode_size_from_lsb`, which read bit 0 of
 * consecutive stego bytes MSB first, and the `DecodeInfo` stages `do_decoding` runs over the stego
 * image from offset 54: the magic string, the extension length (1..4), the extension and the output
 * file name built from it, the payload length, and the payload written to the output file.
 */
module Decode {
  import opened Types
  import opened CStrings
  import opened LsbFormat

  /** `char secret_fname[100]` of decode.h. */
  const NAME_BUF_SIZE: nat := 100
  /** `char extn_secret_file[5]` of decode.h: at most 4 extension bytes and a NUL. */
  const EXTN_BUF_SIZE: nat := 5
  const MAX_EXTN_SIZE: nat := 4
  /** "output": the stem used when no output name was given. */
  const DEFAULT_STEM: seq<byte> := [0x6F, 0x75, 0x74, 0x70, 0x75, 0x74]

  function Max(a: nat, b: nat): nat
  {
    if a < b then b else a
  }

  /** Whole 8-byte windows left in a file of `len` bytes when reading from `pos` on (0 past the end). */
  function FullWindows(len: nat, pos: nat): nat
  {
    if pos <= len then (len - pos) / BYTE_UNIT else 0
  }

  /** The offset just past `count` bytes embedded from offset `p` on. */
  function FieldEnd(p: nat, count: nat): nat
  {
    p + BYTE_UNIT * count
  }

  /** The bytes decoded from the `n` consecutive 8-byte windows of `src` at `p` (none when n is 0). */
  function DecodedWindows(src: seq<byte>, p: nat, n: nat): (r: seq<byte>)
    requires n == 0 || p + BYTE_UNIT * n <= |src|
    ensures |r| == n
  {
    if n == 0 then [] else LsbBytes(src[p..p + BYTE_UNIT * n], n)
  }

  /** Decoding one more 8-byte window, from `b` to `c`, appends one byte to the windows decoded from `p`. */
  lemma DecodedWindowsStep(src: seq<byte>, p: nat, i: nat, b: nat, c: nat)
    requires b == p + BYTE_UNIT * i && c == b + BYTE_UNIT && c <= |src|
    ensures DecodedWindows(src, p, i + 1) == DecodedWindows(src, p, i) + [LsbByte(src[b..c])]
  {
    assert p + BYTE_UNIT * (i + 1) == c;
    LsbBytesStep(src, p, i, b, c);
  }

  /**
   * The stem `decode_secret_file_extn` puts before the decoded extension: "output" when no name was
   * given, otherwise the name cut to 99 bytes and then at its last '.', if it has one.
   */
  function OutputStem(userName: seq<byte>): (r: seq<byte>)
    requires NoNul(userName)
    ensures NoNul(r) && |r| < NAME_BUF_SIZE
    ensures userName != [] ==> r <= userName
  {
    if userName == [] then DEFAULT_STEM
    else
      var base := Truncate(userName, NAME_BUF_SIZE - 1);
      match LastDot(base)
      case None => base
      case Some(i) => base[..i]
  }

  /**
   * The output file name: the stem followed by the extension, when both fit in `secret_fname[100]`
   * with its NUL. A name it produces is a C string of at most 99 bytes that ends with the extension;
   * what precedes the extension is a prefix of the user's name, when one was given.
   */
  function OutputFileName(userName: seq<byte>, ext: seq<byte>): (r: Option<seq<byte>>)
    requires NoNul(userName) && NoNul(ext)
    ensures r.Some? <==> |OutputStem(userName)| + |ext| < NAME_BUF_SIZE
    ensures r.Some? ==> NoNul(r.value) && |ext| <= |r.value| < NAME_BUF_SIZE && r.value[|r.value| - |ext|..] == ext
    ensures r.Some? && userName != [] ==> r.value[..|r.value| - |ext|] <= userName
  {
    var stem := OutputStem(userName);
    if |stem| + |ext| < NAME_BUF_SIZE then
      assert (stem + ext)[|stem|..] == ext && (stem + ext)[..|stem|] == stem;
      Some(stem + ext)
    else None
  }

  /** With no output name, the file is "output" followed by the decoded extension. */
  lemma DefaultOutputName(ext: seq<byte>)
    requires NoNul(ext) && |ext| <= MAX_EXTN_SIZE
    ensures OutputFileName([], ext) == Some(DEFAULT_STEM + ext)
  {
  }

  /**
   * A given name keeps everything before its last '.' (within its first 99 bytes): that '.' and what
   * follows it are replaced by the decoded extension; a name without '.' is kept whole.
   */
  lemma OutputStemCut(userName: seq<byte>)
    requires NoNul(userName) && userName != [] && |userName| < NAME_BUF_SIZE
    ensures var stem := OutputStem(userName);
            (stem == userName && forall i :: 0 <= i < |userName| ==> userName[i] != DOT)
            || (|stem| < |userName| && userName[|stem|] == DOT
                && forall i :: |stem| < i < |userName| ==> userName[i] != DOT)
  {
    assert Truncate(userName, NAME_BUF_SIZE - 1) == userName;
  }

  /** Why decoding failed; do_decoding reports each as `failure`. */
  datatype DecodeError = MagicMismatch | ShortRead | BadExtnSize | NameTooLong

  /** What `do_decoding` produces: the output file's name, the extension it used and the bytes written. */
  datatype DecodeResult =
    | Decoded(fileName: seq<byte>, ext: seq<byte>, payload: seq<byte>)
    | Failed(error: DecodeError)

  /**
   * The decoding of a stego image `img` by `do_decoding`, field by field from offset 54: the magic
   * string must decode to `magic`, the extension length must lie in [1, 4], the output name must fit,
   * and every field must be present in full. A successful decoding found the magic string, yields an
   * extension of at most 4 bytes and the output name built from it, and fewer than 2^32 payload bytes,
   * all read from within the image.
   */
  function DecodeImage(img: seq<byte>, magic: seq<byte>, userName: seq<byte>): (r: DecodeResult)
    requires NoNul(magic) && NoNul(userName)
    ensures r.Decoded? ==> (|magic| == 0 || HEADER_SIZE + BYTE_UNIT * |magic| <= |img|)
                           && DecodedWindows(img, HEADER_SIZE, |magic|) == magic
    ensures r.Decoded? ==> && |r.ext| <= MAX_EXTN_SIZE && NoNul(r.ext)
                           && OutputFileName(userName, r.ext) == Some(r.fileName)
                           && HEADER_SIZE + EmbeddedLength(|magic|, |r.ext|, |r.payload|) <= |img|
                           && |r.payload| < TWO_32
  {
    var p1 := HEADER_SIZE + BYTE_UNIT * |magic|;
    if |magic| > 0 && |img| < p1 then Failed(ShortRead)
    else if DecodedWindows(img, HEADER_SIZE, |magic|) != magic then Failed(MagicMismatch)
    else DecodeExtnSizeField(img, p1, userName)
  }

  /** DecodeImage from the extension length field at `p` on: past a magic string, it never reports a mismatch. */
  function DecodeExtnSizeField(img: seq<byte>, p: nat, userName: seq<byte>): (r: DecodeResult)
    requires NoNul(userName)
    ensures r.Decoded? ==> && |r.ext| <= MAX_EXTN_SIZE && NoNul(r.ext)
                           && OutputFileName(userName, r.ext) == Some(r.fileName)
                           && p + SIZE_UNIT + BYTE_UNIT * |r.ext| + SIZE_UNIT + BYTE_UNIT * |r.payload| <= |img|
                           && |r.payload| < TWO_32
    ensures r.Failed? ==> r.error != MagicMismatch
  {
    if |img| < p + SIZE_UNIT then Failed(ShortRead)
    else
      var extnSize := LsbValue(img[p..p + SIZE_UNIT]);
      if extnSize < 1 || extnSize > MAX_EXTN_SIZE then Failed(BadExtnSize)
      else DecodeExtnField(img, p + SIZE_UNIT, extnSize, userName)
  }

  /**
   * DecodeImage from the `extnSize` extension bytes at `p` on: the extension read, cut at a NUL, and
   * the name it gives. It fails only on a short read or a name that does not fit.
   */
  function DecodeExtnField(img: seq<byte>, p: nat, extnSize: nat, userName: seq<byte>): (r: DecodeResult)
    requires NoNul(userName) && 1 <= extnSize <= MAX_EXTN_SIZE
    ensures r.Decoded? ==> && |r.ext| <= extnSize && NoNul(r.ext)
                           && OutputFileName(userName, r.ext) == Some(r.fileName)
                           && p + BYTE_UNIT * extnSize + SIZE_UNIT + BYTE_UNIT * |r.payload| <= |img|
                           && |r.payload| < TWO_32
    ensures r.Failed? ==> r.error == ShortRead || r.error == NameTooLong
  {
    if |img| < p + BYTE_UNIT * extnSize then Failed(ShortRead)
    else
      var ext := CString(DecodedWindows(img, p, extnSize));
      match OutputFileName(userName, ext)
      case None => Failed(NameTooLong)
      case Some(fileName) => DecodeSizeField(img, FieldEnd(p, extnSize), fileName, ext)
  }

  /**
   * DecodeImage from the payload length field at `p` on. It fails only on a short read; a success
   * keeps the name and extension and reads fewer than 2^32 payload bytes from within the image.
   */
  function DecodeSizeField(img: seq<byte>, p: nat, fileName: seq<byte>, ext: seq<byte>): (r: DecodeResult)
    ensures r.Decoded? ==> r.fileName == fileName && r.ext == ext
    ensures r.Decoded? ==> p + SIZE_UNIT + BYTE_UNIT * |r.payload| <= |img| && |r.payload| < TWO_32
    ensures r.Failed? ==> r.error == ShortRead
  {
    if |img| < p + SIZE_UNIT then Failed(ShortRead)
    else
      DecodedSizeNeverNegative(img[p..p + SIZE_UNIT]);
      DecodePayloadField(img, p + SIZE_UNIT, LsbValue(img[p..p + SIZE_UNIT]), fileName, ext)
  }

  /**
   * DecodeImage's last field: `size` payload bytes at `p`. It succeeds exactly when all 8 * size bytes
   * are in the image, and then yields exactly `size` bytes.
   */
  function DecodePayloadField(img: seq<byte>, p: nat, size: nat, fileName: seq<byte>, ext: seq<byte>): (r: DecodeResult)
    ensures r.Decoded? <==> p + BYTE_UNIT * size <= |img|
    ensures r.Decoded? ==> r.fileName == fileName && r.ext == ext && |r.payload| == size
    ensures r.Failed? ==> r.error == ShortRead
  {
    if |img| < p + BYTE_UNIT * size then Failed(ShortRead)
    else Decoded(fileName, ext, DecodedWindows(img, p, size))
  }

  /**
   * What `do_decoding` leaves behind, whether it succeeds or not: the C string in `secret_fname`, and
   * the contents of the output file, None when the file was never created.
   */
  datatype Visible = Visible(fileName: seq<byte>, output: Option<seq<byte>>)

  /** The state `do_decoding` leaves on `img` (see VisibleOutcome). */
  function VisibleAfter(img: seq<byte>, magic: seq<byte>, userName: seq<byte>): Visible
    requires NoNul(magic) && NoNul(userName)
  {
    var p1 := HEADER_SIZE + BYTE_UNIT * |magic|;
    if |magic| > 0 && |img| < p1 then Visible(userName, None)
    else if DecodedWindows(img, HEADER_SIZE, |magic|) != magic then Visible(userName, None)
    else VisibleFromExtnSize(img, p1, userName)
  }

  /** VisibleAfter from the extension length field at `p` on. */
  function VisibleFromExtnSize(img: seq<byte>, p: nat, userName: seq<byte>): (v: Visible)
    requires NoNul(userName)
    ensures var r := DecodeExtnSizeField(img, p, userName);
            && (r.Decoded? ==> v == Visible(r.fileName, Some(r.payload)))
            && (r == Failed(BadExtnSize) ==> v == Visible(userName, None))
            && (r == Failed(NameTooLong) ==> v == Visible(OutputStem(userName), None))
  {
    if |img| < p + SIZE_UNIT then Visible(userName, None)
    else
      var extnSize := LsbValue(img[p..p + SIZE_UNIT]);
      if extnSize < 1 || extnSize > MAX_EXTN_SIZE then Visible(userName, None)
      else VisibleFromExtn(img, p + SIZE_UNIT, extnSize, userName)
  }

  /** VisibleAfter from the extension bytes at `p` on: the output file is created once the name fits. */
  function VisibleFromExtn(img: seq<byte>, p: nat, extnSize: nat, userName: seq<byte>): (v: Visible)
    requires NoNul(userName) && 1 <= extnSize <= MAX_EXTN_SIZE
    ensures var r := DecodeExtnField(img, p, extnSize, userName);
            && (r.Decoded? ==> v == Visible(r.fileName, Some(r.payload)))
            && (r == Failed(NameTooLong) ==> v == Visible(OutputStem(userName), None))
  {
    if |img| < p + BYTE_UNIT * extnSize then Visible(userName, None)
    else
      var ext := CString(DecodedWindows(img, p, extnSize));
      match OutputFileName(userName, ext)
      case None => Visible(OutputStem(userName), None)
      case Some(fileName) => Visible(fileName, Some(OutputWritten(img, FieldEnd(p, extnSize))))
  }

  /**
   * The bytes written to the output file from the payload length field at `p` on: one byte per
   * whole 8-byte window, up to the announced size, stopping at the first short window.
   */
  function OutputWritten(img: seq<byte>, p: nat): (w: seq<byte>)
    ensures p + SIZE_UNIT <= |img| ==> |w| <= LsbValue(img[p..p + SIZE_UNIT])
    ensures p + SIZE_UNIT <= |img| ==> p + SIZE_UNIT + BYTE_UNIT * |w| <= |img|
  {
    if |img| < p + SIZE_UNIT then []
    else
      var size := LsbValue(img[p..p + SIZE_UNIT]);
      var q := p + SIZE_UNIT;
      if q + BYTE_UNIT * size <= |img| then DecodedWindows(img, q, size)
      else DecodedWindows(img, q, FullWindows(|img|, q))
  }

  /** DecodeImage and VisibleAfter after the magic string: they go on with the extension length exactly when the magic matched. */
  lemma MagicStage(img: seq<byte>, magic: seq<byte>, userName: seq<byte>)
    requires NoNul(magic) && NoNul(userName)
    ensures var p1 := HEADER_SIZE + BYTE_UNIT * |magic|;
            var ok := (|magic| == 0 || p1 <= |img|) && DecodedWindows(img, HEADER_SIZE, |magic|) == magic;
            && (ok ==> DecodeImage(img, magic, userName) == DecodeExtnSizeField(img, p1, userName))
            && (ok ==> VisibleAfter(img, magic, userName) == VisibleFromExtnSize(img, p1, userName))
            && (!ok ==> DecodeImage(img, magic, userName).Failed?)
            && (!ok ==> VisibleAfter(img, magic, userName) == Visible(userName, None))
  {
  }

  /**
   * What `do_decoding` leaves on each outcome. A success leaves the decoded name and payload. A magic
   * mismatch or a bad extension length leaves the user's name and no output file. A name that does
   * not fit leaves the bare stem in `secret_fname` and no output file.
   */
  lemma VisibleOutcome(img: seq<byte>, magic: seq<byte>, userName: seq<byte>)
    requires NoNul(magic) && NoNul(userName)
    ensures var r := DecodeImage(img, magic, userName);
            var v := VisibleAfter(img, magic, userName);
            && (r.Decoded? ==> v == Visible(r.fileName, Some(r.payload)))
            && (r == Failed(MagicMismatch) || r == Failed(BadExtnSize) ==> v == Visible(userName, None))
            && (r == Failed(NameTooLong) ==> v == Visible(OutputStem(userName), None))
  {
    MagicStage(img, magic, userName);
    var p1 := HEADER_SIZE + BYTE_UNIT * |magic|;
    if (|magic| == 0 || p1 <= |img|) && DecodedWindows(img, HEADER_SIZE, |magic|) == magic {
      var r := DecodeExtnSizeField(img, p1, userName);
      var v := VisibleFromExtnSize(img, p1, userName);
      assert r.Decoded? ==> v == Visible(r.fileName, Some(r.payload));
    }
  }

  /** DecodeExtnSizeField and VisibleFromExtnSize go on with the extension exactly when a length in [1, 4] was read. */
  lemma ExtnSizeStage(img: seq<byte>, p: nat, userName: seq<byte>)
    requires NoNul(userName)
    ensures var ok := p + SIZE_UNIT <= |img| && 1 <= LsbValue(img[p..p + SIZE_UNIT]) <= MAX_EXTN_SIZE;
            && (ok ==> DecodeExtnSizeField(img, p, userName)
                       == DecodeExtnField(img, p + SIZE_UNIT, LsbValue(img[p..p + SIZE_UNIT]), userName))
            && (ok ==> VisibleFromExtnSize(img, p, userName)
                       == VisibleFromExtn(img, p + SIZE_UNIT, LsbValue(img[p..p + SIZE_UNIT]), userName))
            && (!ok ==> DecodeExtnSizeField(img, p, userName).Failed?)
            && (!ok ==> VisibleFromExtnSize(img, p, userName) == Visible(userName, None))
  {
  }

  /**
   * DecodeExtnField fails when the extension cannot be read in full or the name does not fit; a short
   * read leaves the user's name, a name that does not fit leaves the bare stem.
   */
  lemma ExtnStageFails(img: seq<byte>, p: nat, extnSize: nat, userName: seq<byte>)
    requires NoNul(userName) && 1 <= extnSize <= MAX_EXTN_SIZE
    requires || p + BYTE_UNIT * extnSize > |img|
             || OutputFileName(userName, CString(DecodedWindows(img, p, extnSize))).None?
    ensures DecodeExtnField(img, p, extnSize, userName).Failed?
    ensures VisibleFromExtn(img, p, extnSize, userName)
              == if p + BYTE_UNIT * extnSize > |img| then Visible(userName, None) else Visible(OutputStem(userName), None)
  {
  }

  /** DecodeSizeField goes on with the payload exactly when the length was read. */
  lemma SizeStage(img: seq<byte>, p: nat, fileName: seq<byte>, ext: seq<byte>)
    ensures var ok := p + SIZE_UNIT <= |img|;
            && (ok ==> DecodeSizeField(img, p, fileName, ext)
                       == DecodePayloadField(img, p + SIZE_UNIT, LsbValue(img[p..p + SIZE_UNIT]), fileName, ext))
            && (!ok ==> DecodeSizeField(img, p, fileName, ext).Failed?)
  {
  }

  /** DecodeExtnField goes on with the payload length once the extension was read and the name fits. */
  lemma ExtnStageDone(img: seq<byte>, p: nat, extnSize: nat, userName: seq<byte>, fileName: seq<byte>, ext: seq<byte>)
    requires NoNul(userName) && 1 <= extnSize <= MAX_EXTN_SIZE && p + BYTE_UNIT * extnSize <= |img|
    requires ext == CString(DecodedWindows(img, p, extnSize)) && OutputFileName(userName, ext) == Some(fileName)
    ensures DecodeExtnField(img, p, extnSize, userName) == DecodeSizeField(img, FieldEnd(p, extnSize), fileName, ext)
  {
  }

  /** VisibleFromExtn creates the output file once the extension was read and the name fits. */
  lemma ExtnStageCreates(img: seq<byte>, p: nat, extnSize: nat, userName: seq<byte>, fileName: seq<byte>, ext: seq<byte>)
    requires NoNul(userName) && 1 <= extnSize <= MAX_EXTN_SIZE && p + BYTE_UNIT * extnSize <= |img|
    requires ext == CString(DecodedWindows(img, p, extnSize)) && OutputFileName(userName, ext) == Some(fileName)
    ensures VisibleFromExtn(img, p, extnSize, userName) == Visible(fileName, Some(OutputWritten(img, FieldEnd(p, extnSize))))
  {
  }

  /** `decode_byte_from_lsb`: shift bit 0 of `imageBuffer[0..8)` into a byte, MSB first. */
  method DecodeByteFromLsb(imageBuffer: array<byte>) returns (data: byte)
    requires imageBuffer.Length >= BYTE_UNIT
    ensures data == LsbByte(imageBuffer[..BYTE_UNIT])
    ensures data as int == LsbValue(imageBuffer[..BYTE_UNIT])
  {
    data := 0;
    for i := 0 to BYTE_UNIT
      invariant data as int == LsbValue(imageBuffer[..i])
    {
      var bit := imageBuffer[i] & 0x01;
      LsbValueStep(imageBuffer[..], i);
      assert imageBuffer[..i + 1] == imageBuffer[..][..i + 1] && imageBuffer[..i] == imageBuffer[..][..i];
      Pow2Below8(i);
      ByteShiftIn(data, bit);
      data := (data << 1) | bit;
    }
    ByteInjective(data, LsbByte(imageBuffer[..BYTE_UNIT]));
  }

  /**
   * `decode_size_from_lsb`: shift bit 0 of `imageBuffer[0..32)` into a `long`, MSB first. The value
   * lies in [0, 2^32), so the `long` never overflows and is never negative.
   */
  method DecodeSizeFromLsb(imageBuffer: array<byte>) returns (size: int)
    requires imageBuffer.Length >= SIZE_UNIT
    ensures size == LsbValue(imageBuffer[..SIZE_UNIT])
    ensures 0 <= size < TWO_32
  {
    size := 0;
    for i := 0 to SIZE_UNIT
      invariant size == LsbValue(imageBuffer[..i])
    {
      LsbValueStep(imageBuffer[..], i);
      assert imageBuffer[..i + 1] == imageBuffer[..][..i + 1] && imageBuffer[..i] == imageBuffer[..][..i];
      size := 2 * size + Lsb(imageBuffer[i]);
    }
    Pow2Of32();
  }

  /**
   * The `file_size < 0` rejection of `decode_secret_file_size` cannot fire on an LP64 target: the 32
   * decoded bits fill a 64-bit `long` from bit 0, so a decoded size is never negative.
   */
  lemma DecodedSizeNeverNegative(w: seq<byte>)
    requires |w| == SIZE_UNIT
    ensures 0 <= LsbValue(w) < TWO_32
  {
    Pow2Of32();
  }

  /** DecodeInfo: the stego image being read, the output name and extension, and the decoded output. */
  class DecodeInfo {
    /** The stego image's bytes and the position of its read cursor. */
    var srcImage: seq<byte>
    var srcPos: nat
    /** The C string in `secret_fname`: the user's output name, then the name actually used. */
    var secretFname: seq<byte>
    /** The C string in `extn_secret_file`. */
    var extnSecretFile: seq<byte>
    var extnSize: int
    var sizeSecretFile: int
    /** The bytes written to the output file. */
    var secretData: seq<byte>

    /** A DecodeInfo holding the output name given on the command line, empty when none was. */
    constructor (userName: seq<byte>)
      requires NoNul(userName) && |userName| < NAME_BUF_SIZE
      ensures secretFname == userName && srcImage == [] && srcPos == 0
      ensures extnSecretFile == [] && extnSize == 0 && sizeSecretFile == 0 && secretData == []
    {
      srcImage, srcPos := [], 0;
      secretFname, extnSecretFile := userName, [];
      extnSize, sizeSecretFile := 0, 0;
      secretData := [];
    }

    /** `open_files_decode`, with the stego image's contents given: it is read from its start. */
    method OpenFilesDecode(stego: seq<byte>)
      modifies this`srcImage, this`srcPos
      ensures srcImage == stego && srcPos == 0
    {
      srcImage, srcPos := stego, 0;
    }

    /**
     * `fread(buffer, 1, n, fptr_src_image) == n`: it succeeds exactly when n bytes are left; a short
     * read still takes what is there, leaving the cursor at the end of the file.
     */
    method ReadWindow(n: nat) returns (ok: bool, buffer: array<byte>)
      modifies this`srcPos
      ensures fresh(buffer) && buffer.Length == n
      ensures ok <==> old(srcPos) + n <= |srcImage|
      ensures ok ==> buffer[..] == srcImage[old(srcPos)..old(srcPos) + n] && srcPos == old(srcPos) + n
      ensures !ok ==> srcPos == Max(old(srcPos), |srcImage|)
      ensures forall k :: 0 <= k < n && old(srcPos) + k < |srcImage| ==> buffer[k] == srcImage[old(srcPos) + k]
    {
      var src, pos := srcImage, srcPos;
      buffer := new byte[n](k requires 0 <= k < n => if pos + k < |src| then src[pos + k] else 0);
      ok := pos + n <= |src|;
      if ok {
        assert buffer[..] == src[pos..pos + n];
        srcPos := pos + n;
      } else {
        srcPos := Max(pos, |src|);
      }
    }

    /**
     * One step of the decoding loops: `fread` 8 bytes into a fresh buffer, then `decode_byte_from_lsb`
     * on it. It fails on a short read.
     */
    method ReadDecodedByte() returns (ok: bool, d: byte)
      modifies this`srcPos
      ensures ok <==> old(srcPos) + BYTE_UNIT <= |srcImage|
      ensures ok ==> srcPos == old(srcPos) + BYTE_UNIT && d == LsbByte(old(srcImage)[old(srcPos)..srcPos])
      ensures !ok ==> srcPos == Max(old(srcPos), |srcImage|)
    {
      var buffer;
      ok, buffer := ReadWindow(BYTE_UNIT);
      if !ok {
        return ok, 0;
      }
      d := DecodeByteFromLsb(buffer);
      assert buffer[..BYTE_UNIT] == buffer[..];
    }

    /**
     * `decode_data_from_image`: decode `size` bytes into `data[0..size)`, one from each 8-byte window
     * from the cursor on. It fails at the first window that is short; the windows read before it are
     * decoded, and the rest of `data` is untouched.
     */
    method DecodeDataFromImage(size: nat, data: array<byte>) returns (st: Status)
      requires data.Length >= size
      modifies this`srcPos, data
      ensures st == Success <==> size == 0 || old(srcPos) + BYTE_UNIT * size <= |srcImage|
      ensures st == Success ==> srcPos == old(srcPos) + BYTE_UNIT * size
      ensures st == Failure ==> srcPos == Max(old(srcPos), |srcImage|)
      ensures var n := if st == Success then size else FullWindows(|srcImage|, old(srcPos));
              n <= size && (n == 0 || old(srcPos) + BYTE_UNIT * n <= |srcImage|)
              && data[..n] == DecodedWindows(srcImage, old(srcPos), n)
              && forall k :: n <= k < data.Length ==> data[k] == old(data[k])
    {
      ghost var start := srcPos;
      var i := 0;
      while i < size
        invariant 0 <= i <= size
        invariant i == 0 || start + BYTE_UNIT * i <= |srcImage|
        invariant srcPos == start + BYTE_UNIT * i
        invariant i <= FullWindows(|srcImage|, start)
        invariant data[..i] == DecodedWindows(srcImage, start, i)
        invariant forall k :: i <= k < data.Length ==> data[k] == old(data[k])
      {
        ghost var at := srcPos;
        var ok, b := ReadDecodedByte();
        if !ok {
          FailedWindow(|srcImage|, start, i);
          return Failure;
        }
        DecodedWindowsStep(srcImage, start, i, at, srcPos);
        data[i] := b;
        assert data[..i + 1] == data[..i] + [b];
        i := i + 1;
        NextWindow(|srcImage|, start, i);
      }
      return Success;
    }

    /**
     * `decode_magic_string`: seek to offset 54, decode |magic| bytes and compare them with `strcmp`.
     * It succeeds exactly when the bytes there decode to the magic string.
     */
    method DecodeMagicString(magic: seq<byte>) returns (st: Status)
      requires NoNul(magic)
      modifies this`srcPos
      ensures var p1 := HEADER_SIZE + BYTE_UNIT * |magic|;
              (st == Success <==> (|magic| == 0 || p1 <= |srcImage|) && DecodedWindows(srcImage, HEADER_SIZE, |magic|) == magic)
              && srcPos == if p1 <= |srcImage| then p1 else Max(HEADER_SIZE, |srcImage|)
    {
      var len := |magic|;
      var decodedMs := new byte[len + 1];
      decodedMs[len] := NUL;
      srcPos := HEADER_SIZE;
      st := DecodeDataFromImage(len, decodedMs);
      if st == Failure {
        return;
      }
      assert decodedMs[..] == decodedMs[..len] + [NUL] + [];
      StrcmpTerminated(decodedMs[..len], [], magic);
      if CString(decodedMs[..]) == magic {
        st := Success;
      } else {
        st := Failure;
      }
    }

    /**
     * `decode_secret_file_extn_size`: read 32 bytes and decode the extension length; it fails on a
     * short read or a length outside [1, 4], and otherwise stores the length.
     */
    method DecodeSecretFileExtnSize() returns (st: Status)
      modifies this`srcPos, this`extnSize
      ensures var p := old(srcPos);
              var ok := p + SIZE_UNIT <= |srcImage|;
              (st == Success <==> ok && 1 <= LsbValue(srcImage[p..p + SIZE_UNIT]) <= MAX_EXTN_SIZE)
              && extnSize == (if st == Success then LsbValue(srcImage[p..p + SIZE_UNIT]) else old(extnSize))
              && srcPos == if ok then p + SIZE_UNIT else Max(p, |srcImage|)
    {
      var ok, imageData := ReadWindow(SIZE_UNIT);
      if !ok {
        return Failure;
      }
      var size := DecodeSizeFromLsb(imageData);
      assert imageData[..SIZE_UNIT] == imageData[..];
      if size <= 0 || size > MAX_EXTN_SIZE {
        return Failure;
      }
      extnSize := size;
      return Success;
    }

    /**
     * `decode_secret_file_extn`: decode `extn_size` bytes into `extn_secret_file`, NUL-terminate them,
     * build the output name from the user's name (or "output") and the extension, and create the
     * output file, empty. It fails on a short read and when the name would not fit.
     */
    method DecodeSecretFileExtn() returns (st: Status)
      requires 1 <= extnSize <= MAX_EXTN_SIZE
      requires NoNul(secretFname) && |secretFname| < NAME_BUF_SIZE
      modifies this`srcPos, this`extnSecretFile, this`secretFname, this`secretData
      ensures var p := old(srcPos);
              var ok := p + BYTE_UNIT * extnSize <= |srcImage|;
              && srcPos == (if ok then p + BYTE_UNIT * extnSize else Max(p, |srcImage|))
              && (!ok ==> st == Failure && unchanged(this`extnSecretFile, this`secretFname, this`secretData))
              && (ok ==>
                    var ext := CString(DecodedWindows(srcImage, p, extnSize));
                    var name := OutputFileName(old(secretFname), ext);
                    && extnSecretFile == ext
                    && (st == Success <==> name.Some?)
                    && secretFname == (if name.Some? then name.value else OutputStem(old(secretFname)))
                    && secretData == if name.Some? then [] else old(secretData))
      ensures st == Success ==>
                && old(srcPos) + BYTE_UNIT * extnSize <= |srcImage| && srcPos == old(srcPos) + BYTE_UNIT * extnSize
                && extnSecretFile == CString(DecodedWindows(srcImage, old(srcPos), extnSize))
                && OutputFileName(old(secretFname), extnSecretFile) == Some(secretFname) && secretData == []
      ensures st == Failure ==>
                || old(srcPos) + BYTE_UNIT * extnSize > |srcImage|
                || OutputFileName(old(secretFname), CString(DecodedWindows(srcImage, old(srcPos), extnSize))).None?
    {
      st := DecodeExtnBytes();
      if st == Failure {
        return;
      }
      st := BuildOutputName();
      if st == Success {
        secretData := [];
      }
    }

    /** The reading part of `decode_secret_file_extn`: `extn_size` bytes into `extn_secret_file`, then a NUL. */
    method DecodeExtnBytes() returns (st: Status)
      requires 1 <= extnSize <= MAX_EXTN_SIZE
      modifies this`srcPos, this`extnSecretFile
      ensures var p := old(srcPos);
              var ok := p + BYTE_UNIT * extnSize <= |srcImage|;
              && (st == Success <==> ok)
              && srcPos == (if ok then p + BYTE_UNIT * extnSize else Max(p, |srcImage|))
              && extnSecretFile == if ok then CString(DecodedWindows(srcImage, p, extnSize)) else old(extnSecretFile)
    {
      var extn := new byte[EXTN_BUF_SIZE];
      st := DecodeDataFromImage(extnSize, extn);
      if st == Failure {
        return;
      }
      extn[extnSize] := NUL;
      CStringAt(extn[..], extnSize);
      assert extn[..][..extnSize] == extn[..extnSize];
      extnSecretFile := CString(extn[..]);
    }

    /**
     * The name-building part of `decode_secret_file_extn`: the stem from `secret_fname` (or "output"),
     * cut at its last '.', then the extension appended when both fit in 100 bytes with the NUL.
     */
    method BuildOutputName() returns (st: Status)
      requires NoNul(secretFname) && |secretFname| < NAME_BUF_SIZE && NoNul(extnSecretFile)
      modifies this`secretFname
      ensures var name := OutputFileName(old(secretFname), extnSecretFile);
              && (st == Success <==> name.Some?)
              && secretFname == if name.Some? then name.value else OutputStem(old(secretFname))
    {
      var baseName: seq<byte>;
      if secretFname == [] {
        baseName := DEFAULT_STEM;
      } else {
        baseName := Truncate(secretFname, NAME_BUF_SIZE - 1);
        var dot := LastDot(baseName);
        if dot.Some? {
          baseName := baseName[..dot.value];
        }
      }
      secretFname := Truncate(baseName, NAME_BUF_SIZE - 1);
      if |secretFname| + |extnSecretFile| < NAME_BUF_SIZE {
        secretFname := secretFname + extnSecretFile;
        return Success;
      }
      return Failure;
    }

    /**
     * `decode_secret_file_size`: read 32 bytes and decode the payload length. It fails only on a short
     * read: the decoded value is never negative (DecodedSizeNeverNegative).
     */
    method DecodeSecretFileSize() returns (st: Status)
      modifies this`srcPos, this`sizeSecretFile
      ensures var p := old(srcPos);
              var ok := p + SIZE_UNIT <= |srcImage|;
              (st == Success <==> ok)
              && sizeSecretFile == (if ok then LsbValue(srcImage[p..p + SIZE_UNIT]) else old(sizeSecretFile))
              && srcPos == if ok then p + SIZE_UNIT else Max(p, |srcImage|)
    {
      var ok, imageData := ReadWindow(SIZE_UNIT);
      if !ok {
        return Failure;
      }
      var fileSize := DecodeSizeFromLsb(imageData);
      assert imageData[..SIZE_UNIT] == imageData[..];
      if fileSize < 0 {
        // the 32 decoded bits fill a 64-bit `long` from bit 0, so its sign bit stays clear
        assert false;
        return Failure;
      }
      sizeSecretFile := fileSize;
      return Success;
    }

    /**
     * `decode_secret_file_data`: for each of `size_secret_file` bytes, read 8 bytes, decode one byte
     * and write it to the output file. It fails at the first short read, after writing the bytes
     * decoded so far.
     */
    method DecodeSecretFileData() returns (st: Status)
      requires sizeSecretFile >= 0
      modifies this`srcPos, this`secretData
      ensures var p := old(srcPos);
              var n := if st == Success then sizeSecretFile else FullWindows(|srcImage|, p);
              (st == Success <==> sizeSecretFile == 0 || p + BYTE_UNIT * sizeSecretFile <= |srcImage|)
              && n <= sizeSecretFile && (n == 0 || p + BYTE_UNIT * n <= |srcImage|)
              && secretData == old(secretData) + DecodedWindows(srcImage, p, n)
              && srcPos == if st == Success then p + BYTE_UNIT * n else Max(p, |srcImage|)
    {
      ghost var start := srcPos;
      ghost var written := secretData;
      var i := 0;
      while i < sizeSecretFile
        invariant 0 <= i <= sizeSecretFile
        invariant i == 0 || start + BYTE_UNIT * i <= |srcImage|
        invariant srcPos == start + BYTE_UNIT * i
        invariant i <= FullWindows(|srcImage|, start)
        invariant secretData == written + DecodedWindows(srcImage, start, i)
      {
        ghost var at := srcPos;
        var ok, secretByte := ReadDecodedByte();
        if !ok {
          FailedWindow(|srcImage|, start, i);
          return Failure;
        }
        DecodedWindowsStep(srcImage, start, i, at, srcPos);
        secretData := secretData + [secretByte];
        i := i + 1;
        NextWindow(|srcImage|, start, i);
      }
      return Success;
    }

    /**
     * `do_decoding`, with the stego image's contents given: open it, then decode the magic string, the
     * extension length, the extension and output name, the payload length and the payload. It
     * succeeds exactly when DecodeImage does, and then the output file has DecodeImage's name and
     * contents.
     */
    method DoDecoding(stego: seq<byte>, magic: seq<byte>) returns (st: Status)
      requires NoNul(magic) && NoNul(secretFname) && |secretFname| < NAME_BUF_SIZE
      modifies this
      ensures var r := DecodeImage(stego, magic, old(secretFname));
              (st == Success <==> r.Decoded?)
              && (st == Success ==> secretFname == r.fileName && extnSecretFile == r.ext && secretData == r.payload)
      ensures var v := VisibleAfter(stego, magic, old(secretFname));
              secretFname == v.fileName && secretData == if v.output.Some? then v.output.value else old(secretData)
    {
      OpenFilesDecode(stego);
      MagicStage(stego, magic, secretFname);
      st := DecodeMagicString(magic);
      if st == Failure {
        return;
      }
      st := DecodeFromExtnSize();
    }

    /** The steps of `do_decoding` from the extension length on, against DecodeExtnSizeField. */
    method DecodeFromExtnSize() returns (st: Status)
      requires NoNul(secretFname) && |secretFname| < NAME_BUF_SIZE
      modifies this`srcPos, this`extnSize, this`extnSecretFile, this`secretFname, this`sizeSecretFile, this`secretData
      ensures var r := DecodeExtnSizeField(old(srcImage), old(srcPos), old(secretFname));
              (st == Success <==> r.Decoded?)
              && (st == Success ==> secretFname == r.fileName && extnSecretFile == r.ext && secretData == r.payload)
      ensures var v := VisibleFromExtnSize(old(srcImage), old(srcPos), old(secretFname));
              secretFname == v.fileName && secretData == if v.output.Some? then v.output.value else old(secretData)
    {
      ExtnSizeStage(srcImage, srcPos, secretFname);
      st := DecodeSecretFileExtnSize();
      if st == Failure {
        return;
      }
      st := DecodeFromExtn();
    }

    /** The steps of `do_decoding` from the extension on, against DecodeExtnField. */
    method DecodeFromExtn() returns (st: Status)
      requires 1 <= extnSize <= MAX_EXTN_SIZE
      requires NoNul(secretFname) && |secretFname| < NAME_BUF_SIZE
      modifies this`srcPos, this`extnSecretFile, this`secretFname, this`sizeSecretFile, this`secretData
      ensures var r := DecodeExtnField(old(srcImage), old(srcPos), old(extnSize), old(secretFname));
              (st == Success <==> r.Decoded?)
              && (st == Success ==> secretFname == r.fileName && extnSecretFile == r.ext && secretData == r.payload)
      ensures var v := VisibleFromExtn(old(srcImage), old(srcPos), old(extnSize), old(secretFname));
              secretFname == v.fileName && secretData == if v.output.Some? then v.output.value else old(secretData)
    {
      ghost var p, userName := srcPos, secretFname;
      st := DecodeSecretFileExtn();
      if st == Failure {
        ExtnStageFails(srcImage, p, extnSize, userName);
        if p + BYTE_UNIT * extnSize > |srcImage| {
          assert secretFname == userName && secretData == old(secretData);
        } else {
          assert secretFname == OutputStem(userName) && secretData == old(secretData);
        }
        return;
      }
      assert srcPos == FieldEnd(p, extnSize);
      ExtnStageDone(srcImage, p, extnSize, userName, secretFname, extnSecretFile);
      ExtnStageCreates(srcImage, p, extnSize, userName, secretFname, extnSecretFile);
      st := DecodeFromSize();
    }

    /** The steps of `do_decoding` from the payload length on, against DecodeSizeField. */
    method DecodeFromSize() returns (st: Status)
      requires secretData == []
      modifies this`srcPos, this`sizeSecretFile, this`secretData
      ensures var r := DecodeSizeField(old(srcImage), old(srcPos), old(secretFname), old(extnSecretFile));
              (st == Success <==> r.Decoded?)
              && (st == Success ==> secretData == r.payload)
      ensures secretData == OutputWritten(old(srcImage), old(srcPos))
    {
      SizeStage(srcImage, srcPos, secretFname, extnSecretFile);
      st := DecodeSecretFileSize();
      if st == Failure {
        return;
      }
      DecodedSizeNeverNegative(srcImage[old(srcPos)..old(srcPos) + SIZE_UNIT]);
      st := DecodeSecretFileData();
    }
  }

  /** A read of 8 bytes at window i that comes up short leaves exactly i whole windows behind it. */
  lemma FailedWindow(len: nat, start: nat, i: nat)
    requires i == 0 || start + BYTE_UNIT * i <= len
    requires start + BYTE_UNIT * i + BYTE_UNIT > len
    requires i <= FullWindows(len, start)
    ensures FullWindows(len, start) == i
  {
    if start <= len {
      DivModUnique(len - start, BYTE_UNIT, i, len - start - BYTE_UNIT * i);
    }
  }

  /** After a whole window i - 1, at least i whole windows lie from `start` on. */
  lemma NextWindow(len: nat, start: nat, i: nat)
    requires i >= 1 && start + BYTE_UNIT * i <= len
    ensures i <= FullWindows(len, start)
  {
    DivModUnique(len - start, BYTE_UNIT, (len - start) / BYTE_UNIT, (len - start) % BYTE_UNIT);
  }
}

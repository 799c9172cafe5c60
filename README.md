# LSB image steganography, modelled in Dafny

This project models the codec of a small C program that hides a secret file in a 24-bit BMP
image. The program has two halves: an encoder (`encode.c`) and a decoder (`decode.c`).

The encoder does the following:
- copies the image's 54-byte header;
- hides a series of fields in the least significant bit (LSB) of the next cover bytes, most
  significant bit first, 8 cover bytes per byte and 32 per length:
  - the magic string;
  - the 32-bit length of the secret file's extension;
  - the extension;
  - the 32-bit size of the secret file;
  - the secret file's bytes;
- copies the rest of the image verbatim.

Before encoding, it checks the command-line names (`.bmp` images, a whitelist of secret file
extensions). It also checks that the image's pixel capacity, `width * height * 3`, covers the
header and the fields.

The decoder reads the same fields back from offset 54:
- it checks the magic string;
- it requires an extension length in [1, 4];
- it builds the output file name from the user's name, or from "output", cut at its last '.', plus
  the decoded extension, under a 100-byte guard;
- it writes the payload to that file.

The files of the model:

- `types.dfy` holds `byte` (`bv8`), the `Status` enum (`success`/`failure`) and `Option`.
- `cstrings.dfy` holds the C string operations the code relies on, over byte sequences:
  - `CString` is what `strlen`/`strcmp` see in a buffer;
  - `LastDot`/`DotSuffix` are `strrchr(s, '.')`;
  - `Truncate` is `strncpy` plus a NUL.
- `lsb_format.dfy` holds the shared bit format as specification functions, and the lemmas that
  decoding inverts encoding:
  - `EncodedByte`, `EncodedSize` and `EncodedBytes` for the encoder's side;
  - `LsbValue`, `LsbByte` and `LsbBytes` for the decoder's side.
- `encode.dfy` models `encode.c`:
  - the two in-place buffer transforms, as methods on arrays;
  - the class `EncodeInfo`, whose methods update its fields and write the stego image through a
    forward-only cursor over the source image;
  - `StegoImage`, the specification of the whole output.
- `decode.dfy` models `decode.c`:
  - the two shift-or decoders, as methods on arrays;
  - the class `DecodeInfo`, whose stage methods advance a cursor over the stego image and update
    the output name, the extension and the output file's contents;
  - `DecodeImage`, the specification of the whole decoding, defined stage by stage;
  - `OutputStem`/`OutputFileName`, the file name derivation.
- `round_trip.dfy` proves that the decoder, run on the encoder's output, recovers the extension
  and the payload.

Files are given as byte sequences with an explicit cursor, so every `fread` becomes a slice of the
sequence. The magic string (`MAGIC_STRING`, from a header that is not part of this model) is a
parameter: any C string, so also the empty one. The image's width and height are parameters too.

Sizes and capacities are unbounded integers. Preconditions rule out the C overflows: the `uint`
capacity sum, and the `long` file size passed on as an `int`. `(size >> k) & 1` on a C `int` is
modelled as `(size / 2^k) % 2`. For a positive divisor, Dafny's division is floor division, which
is what an arithmetic right shift computes, negative values included.

`check_capacity` (encode.c:157-158) reserves `sizeof(long) * 8` cover bytes for the payload-size
field, while `encode_secret_file_size` writes only 32. The model assumes an LP64 target, where
`sizeof(long)` is 8, so 64 bytes are reserved; on an LLP64 target the formula would reserve 32.
`check_capacity` also counts the 54 header bytes in the demand, and compares it with
`width * height * 3`, which counts only the pixel bytes after the header. `RequiredCapacity` keeps
the code's formula. `CapacityMeansFit` proves that a passing check leaves room for the fields, with
54 + 32 = 86 bytes to spare.

## Model

| member | source | states |
|---|---|---|
| Encode.EncodeByteToLsb | encode.c:179-186 | `encode_byte_to_lsb` turns the first 8 buffer bytes into `EncodedByte(data, old window)`: bit 0 of byte i becomes bit 7-i of `data`, and bits 1..7 are kept. Bytes from index 8 on are untouched. |
| Encode.EncodeSizeToLsb | encode.c:189-196 | `encode_size_to_lsb` turns the first 32 buffer bytes into `EncodedSize(size, old window)`: bit 0 of byte i becomes bit 31-i of the C `int`. Bytes from index 32 on are untouched. |
| LsbFormat.EncodedByteBits | encode.c:181-184 | After `encode_byte_to_lsb`, the LSB of cover byte i is bit 7-i of the payload byte, for every i in [0, 8). |
| LsbFormat.EncodedSizeBits | encode.c:191-194 | After `encode_size_to_lsb`, the LSB of cover byte i is bit 31-i of the size, for every i in [0, 32). |
| LsbFormat.EncodedByteKeepsHighBits | encode.c:183 | `encode_byte_to_lsb` keeps bits 1..7 (mask 0xFE) of every cover byte. |
| LsbFormat.EncodedSizeKeepsHighBits | encode.c:193 | `encode_size_to_lsb` keeps bits 1..7 (mask 0xFE) of every cover byte. |
| LsbFormat.EncodedBytesKeepHighBits | encode.c:245-258 | Encoding a run of bytes over consecutive 8-byte windows keeps bits 1..7 of every cover byte. |
| LsbFormat.WithLsb | encode.c:193 | `(c & 0xFE) \| b` keeps bits 1..7 of `c` and has LSB `b`. |
| LsbFormat.LsbValue | decode.c:94-101 | The MSB-first value of n LSBs is below 2^n. |
| LsbFormat.LsbByte | decode.c:63-70 | The byte decoded from an 8-byte window has the unsigned value `LsbValue` of the window. |
| LsbFormat.ByteRoundTrip | decode.c:63-70 | `decode_byte_from_lsb` inverts `encode_byte_to_lsb` for every payload byte and every cover window. |
| LsbFormat.SizeRoundTrip | decode.c:94-101 | `decode_size_from_lsb` of `encode_size_to_lsb(v)` is `v mod 2^32`, so every `v` in [0, 2^32) comes back unchanged. |
| LsbFormat.BytesRoundTrip | decode.c:75-88 | Decoding \|data\| bytes from a region encoded with `data` gives `data`, whatever follows the region. |
| LsbFormat.EncodedBytesWindow | encode.c:245-258 | Window j of an encoded region is `encode_byte_to_lsb` of payload byte j over cover window j. |
| LsbFormat.EncodedBytesStep | encode.c:250-257 | One more loop iteration of a field writer extends the encoded region by exactly one encoded window. |
| LsbFormat.LsbBytesStep | decode.c:77-87 | One more iteration of `decode_data_from_image` appends exactly the byte decoded from the next window. |
| Encode.RequiredCapacity | encode.c:157-158 | The capacity `check_capacity` demands is the header, plus the embedded fields, plus 32 bytes: `sizeof(long)` reserves 8 bytes for a 4-byte field. |
| Encode.EncodeInfo.CheckCapacity | encode.c:150-166 | It stores `image_capacity = width * height * 3` and the secret size. It fails exactly when the capacity is below `RequiredCapacity`, so equality passes. |
| RoundTrip.CapacityMeansFit | encode.c:157-159 | When the capacity check passes over the pixel data after the header, the embedded fields plus 86 bytes fit in the capacity, and so in the source image after the header: 54 for the header counted against the pixels, and 32 for the unused half of the `long` reservation. |
| Encode.EncodeInfo.ReadAndValidateEncodeArgs | encode.c:42-116 | Success iff `EncodeArgsValid`: the source ends in ".bmp" after its last '.'; the secret's last-dot suffix is one of .txt/.c/.h/.sh/.py; a given output name ends in ".bmp". On success, the names are stored, the extension is `StoredExtension`, and the output defaults to "steg.bmp". On failure, the fields of the arguments accepted before the failing check keep their new values (encode.c:59, 86, 93), and the others are unchanged. The names are argv strings, so none holds a NUL. |
| Encode.StoredExtension | encode.c:93-94 | The stored extension is a prefix of the secret name's last-dot suffix, starting with '.', of the suffix's length cut to 4 bytes. |
| Encode.ValidatedExtension | encode.c:89-100 | For a validated secret name, the extension stored through `strncpy` into the 5-byte buffer is the whole last-dot suffix, 2..4 bytes long, starting with '.'. The name ends with it. The `else` branch at encode.c:96-100 is unreachable. |
| CStrings.CString | decode.c:150-152 | What `strlen`/`strcmp` see in a NUL-terminated buffer: a NUL-free string no longer than the buffer. |
| CStrings.LastDot | encode.c:52 | `strrchr(s, '.')`: it returns None exactly when `s` has no '.'; otherwise it returns the index of a '.' with no '.' after it. |
| CStrings.DotSuffix | encode.c:70 | The string `strrchr` points at: it starts with '.', has no other '.', and is a suffix of `s`. It is None exactly when there is no '.'. |
| CStrings.Truncate | encode.c:93-94 | `strncpy` of n bytes plus a NUL leaves a prefix of at most n bytes, the whole string when it fits. |
| Encode.EncodeInfo.OpenFiles | encode.c:119-147 | The source is read from its start; the stego image starts empty. |
| Encode.EncodeInfo.CopyBmpHeader | encode.c:169-176 | It rewinds the source and appends its first 54 bytes to the stego image; the cursor ends at 54. |
| Encode.EncodeInfo.EncodeBytes | encode.c:202-207 | The per-byte loop of the field writers: it consumes exactly 8 source bytes per data byte and appends `EncodedBytes(data, those bytes)`. |
| Encode.EncodeInfo.EncodeMagicString | encode.c:199-209 | It consumes 8 source bytes per magic byte and appends them with the magic string in their LSBs. |
| Encode.EncodeInfo.EncodeSecretFileExtnSize | encode.c:212-219 | It consumes 32 source bytes and appends them with the extension length in their LSBs. |
| Encode.EncodeInfo.EncodeSecretFileExtn | encode.c:222-232 | It consumes 8 source bytes per extension byte and appends them with the extension in their LSBs. |
| Encode.EncodeInfo.EncodeSecretFileSize | encode.c:235-242 | It consumes 32 source bytes and appends them with the secret size, as a C `int`, in their LSBs. |
| Encode.EncodeInfo.EncodeSecretFileData | encode.c:245-258 | It consumes 8 source bytes per secret byte, from the secret's start, and appends them with the secret in their LSBs. |
| Encode.EncodeInfo.CopyRemainingImgData | encode.c:261-267 | It appends the source from the cursor to its end, verbatim, and leaves the cursor at the end. |
| Encode.EncodeInfo.EncodeFields | encode.c:298-336 | The five field writers in `do_encoding`'s order, from offset 54, append exactly `EmbeddedFields`: magic, extension length, extension, payload length, payload. |
| Encode.EncodeInfo.DoEncoding | encode.c:270-349 | Success iff `RequiredCapacity <= width * height * 3`. On success, the stego image is `StegoImage`: the header, the embedded fields, then the rest of the source. On failure, nothing is written. Either way `image_capacity` is `width * height * 3` and `size_secret_file` is the secret's size (encode.c:152-153). The file names and the extension that argument validation stored are left unchanged. |
| Encode.EmbeddedFields | encode.c:298-336 | The embedded region is `EmbeddedLength` bytes long: 8 per magic, extension and payload byte, plus 32 per length field. |
| Encode.StegoImage | encode.c:288-343 | The stego image is exactly as long as the source. |
| Encode.EmbeddedFieldsDifferOnlyInLsb | encode.c:183 | The embedded region differs from the source bytes under it only in bit 0. |
| Encode.StegoImageDiffersOnlyInLsb | encode.c:169-267 | The stego image differs from the source only in bit 0 of bytes. Outside [54, 54 + EmbeddedLength), every byte equals the source byte. |
| Decode.DecodeByteFromLsb | decode.c:61-72 | `decode_byte_from_lsb` reads only `buf[0..8)` and returns the byte of value Σ lsb(buf[i]) * 2^(7-i), which is `LsbByte` of the window. |
| Decode.DecodeInfo.OpenFilesDecode | decode.c:45-58 | The stego image is read from its start. |
| Decode.DecodeInfo.ReadWindow | decode.c:230 | `fread` of n bytes succeeds iff n bytes remain; it then yields exactly those bytes and advances the cursor by n. A short read yields the bytes that remain and leaves the cursor at the end of the file. |
| Decode.DecodeSizeFromLsb | decode.c:91-103 | `decode_size_from_lsb` returns the MSB-first value of the 32 LSBs of `buf[0..32)`, a value in [0, 2^32). |
| Decode.DecodedSizeNeverNegative | decode.c:210-214 | A decoded size lies in [0, 2^32), so under the LP64 assumption, where the `long` accumulator at decode.c:100 has 64 bits, the `file_size < 0` rejection can never fire. With a 32-bit `long`, a size of 2^31 or more would reach the sign bit. |
| Decode.DecodedWindows | decode.c:75-88 | Decoding n windows gives exactly n bytes. |
| Decode.DecodeInfo.ReadDecodedByte | decode.c:228-234 | One loop step (`fread` of 8 bytes, then decode) succeeds iff 8 bytes remain. It then advances the cursor by 8 and yields `LsbByte` of the window; otherwise it leaves the cursor at the end of the file. |
| Decode.DecodeInfo.DecodeDataFromImage | decode.c:75-88 | Success iff all 8 * size bytes are there, and then it consumes exactly 8 * size bytes. It fails at the first short window. `data[0..n)` holds the n windows decoded, and the rest of `data` is untouched. |
| Decode.DecodeInfo.DecodeMagicString | decode.c:106-121 | It repositions to offset 54 and succeeds iff the next 8 * \|magic\| bytes decode to exactly the magic string (`strcmp` on the NUL-terminated buffer). |
| CStrings.StrcmpTerminated | decode.c:109-117 | A buffer holding x and then a NUL compares equal to a C string s of x's length iff x == s. |
| Decode.DecodeInfo.DecodeSecretFileExtnSize | decode.c:124-143 | It fails on a short 32-byte read, or when the length is <= 0 or > 4; otherwise it stores the length, in [1, 4]. |
| Decode.DecodeInfo.DecodeExtnBytes | decode.c:148-152 | It decodes `extn_size` bytes and NUL-terminates them. It fails iff the read is short. The extension is the C string of the decoded bytes. |
| Decode.DecodeInfo.BuildOutputName | decode.c:154-183 | `secret_fname` becomes `OutputFileName(user name, extension)`; it fails iff the stem and the extension do not fit in 100 bytes with the NUL, leaving the bare stem. |
| Decode.DecodeInfo.DecodeSecretFileExtn | decode.c:146-197 | A short read fails and changes no name. Otherwise the extension is the decoded C string. Success iff the output name fits, and then `secret_fname` is that name and the output file is created empty. |
| Decode.OutputStem | decode.c:155-174 | The stem is "output" when no name was given. Otherwise it is a prefix of the name, with no NUL and under 100 bytes. |
| Decode.OutputFileName | decode.c:154-183 | The guard passes iff \|stem\| + \|ext\| < 100. A name it produces is a C string of at most 99 bytes, ending with the extension, and what precedes the extension is a prefix of the user's name when one was given. |
| Decode.DefaultOutputName | decode.c:157-161 | With no output name, the file is "output" followed by the decoded extension. |
| Decode.OutputStemCut | decode.c:162-170 | A given name is cut at its last '.': the stem is followed by that '.', with none after it. A name without '.' is kept whole. |
| Decode.DecodeInfo.DecodeSecretFileSize | decode.c:200-220 | It fails only on a short 32-byte read; otherwise it stores the decoded size. The `file_size < 0` branch is kept and proved dead. |
| Decode.DecodeInfo.DecodeSecretFileData | decode.c:223-239 | Success iff 8 * size bytes remain. The output file gets, in order, the byte decoded from each full window read, all `size_secret_file` of them on success. |
| Decode.DecodeInfo.DoDecoding | decode.c:242-288 | It runs the stages in `do_decoding`'s order and succeeds iff `DecodeImage` is `Decoded`. Then the output name, the extension and the output file's bytes are `DecodeImage`'s. Whatever the outcome, `secret_fname` and the output file are `VisibleAfter`'s (see VisibleOutcome): a failure before the extension changes neither, and a short payload leaves the bytes of the whole windows read. |
| Decode.DecodeImage | decode.c:242-288 | A successful decoding found the magic string at offset 54. It yields an extension of at most 4 bytes without NUL, the name `OutputFileName` builds from it, and fewer than 2^32 payload bytes, all of whose fields lie inside the image. |
| Decode.DecodeExtnSizeField | decode.c:261-283 | From the extension length on, a success keeps every later field inside the image. A failure here is never a magic mismatch. |
| Decode.DecodeExtnField | decode.c:267-283 | From the extension on, a success yields a NUL-free extension no longer than the announced length and the name `OutputFileName` builds. A failure is a short read or a name that does not fit. |
| Decode.DecodeSizeField | decode.c:273-283 | From the payload length on, a success passes the name and the extension through and yields fewer than 2^32 bytes inside the image. A failure is a short read. |
| Decode.DecodePayloadField | decode.c:279-283 | Decoding the payload succeeds iff 8 * size bytes remain, and then yields exactly size bytes. A failure is a short read. |
| Decode.VisibleOutcome | decode.c:242-288 | What `do_decoding` leaves: on success the decoded name and payload; after a magic mismatch or a bad extension length, the user's name and no output file; after a name that does not fit, the bare stem and no output file. |
| Decode.VisibleFromExtnSize | decode.c:261-283 | From the extension length on, the state left agrees with `DecodeExtnSizeField`: its name and payload on success, the user's name after a bad length, the bare stem after a name that does not fit. |
| Decode.VisibleFromExtn | decode.c:267-283 | From the extension on, the state left agrees with `DecodeExtnField` on success, and holds the bare stem and no output file after a name that does not fit. |
| Decode.OutputWritten | decode.c:223-239 | The output file never holds more bytes than the announced size, and each of them comes from a whole window inside the image. |
| RoundTrip.EncodeThenDecode | decode.c:242-288 | Decoding `StegoImage(src, magic, ext, payload)` with the same magic string yields the extension and the payload exactly, under the name built from the user's name and the extension. It fails only when that name does not fit. |
| RoundTrip.DecodeLaidOut | decode.c:252-283 | An image holding the five encoded fields at their offsets decodes to the expected outcome, whatever the rest of the image holds. |
| RoundTrip.StoredExtensionDecodable | encode.c:89-94 | The extension the encoder stores always passes the decoder's [1, 4] length check and has no NUL. |
| RoundTrip.EncodeThenDecodeDefaultName | encode.c:270-349 | For a validated secret name and no output name, decoding `do_encoding`'s output yields "output" + extension, the extension and the secret's bytes. |

## Left out

- File I/O (`fopen`, `fclose`, `fseek`, `rewind`, `ftell`, `fread`, `fwrite`) is replaced by byte
  sequences and a cursor. A failing `fopen` is not modelled, nor is coloured `printf`/`perror`
  output.
- `get_image_size_for_bmp` (encode.c:16-32) is not modelled: its host-endian reads of the width and
  height at offsets 18 and 22 are outside the model, which takes width and height as inputs.
  `get_file_size` (encode.c:35-39) is not modelled either: the payload is an input, and its size is
  its length.
- main.c (argument counts, `-e`/`-d` dispatch, usage text) and `read_and_validate_decode_args`
  (decode.c:11-42) are not part of this model. The decoder's output name enters as the
  `DecodeInfo` constructor's parameter.
- Handle cleanup: the stego file that is never closed, and handles leaked on failure paths.
- Encode.EncodeInfo.CheckCapacity: unsigned wrap-around of `width * height * 3` and of the capacity
  sum is not modelled. Both are required to stay below 2^32.
- Encode.EncodeInfo.EncodeSecretFileSize: the `long` to `int` truncation of the file size is not
  modelled. The size is required to be at most `INT_MAX`.
- Decode.DecodeInfo.DoDecoding: after a failure the contract states `secret_fname` and the output
  file, not `extn_secret_file`, which nothing reads after a failure.
- Decode.DecodeInfo.DoDecoding: the `strcpy` overflow of output names of 100 bytes or more
  (decode.c:32) is excluded by requiring a name under 100 bytes without NUL.
- Encode.EncodeInfo.DoEncoding: short reads of a too-small cover file are not modelled. The source
  is required to hold at least 54 + `width * height * 3` bytes; with the capacity check, this
  covers every byte the field writers read.
- Scratch buffers (`image_data`, the 8-byte stack buffers, `decoded_ms`) are fresh arrays in the
  model, not fields shared between calls.
- Decode.DecodeInfo.DecodeExtnBytes: it decodes into a scratch array, not into `extn_secret_file`
  itself. After a short read, the bytes already decoded into that buffer are therefore not kept.
  Nothing reads them afterwards.
- Magic string constants: `MAGIC_STRING` lives in a header that is not part of this model, and it
  is a parameter here. encode.h is not part of this model, so the size of `EncodeInfo`'s extension
  buffer is not known; `EXTN_BUF_SIZE` takes it to be 5 bytes, like the decoder's. Any buffer of
  at least 5 bytes gives the same result, because every whitelisted extension has at most 4 bytes.
  A 4-byte buffer would store ".tx" for ".txt".

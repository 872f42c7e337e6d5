# Hex-Hunter in Dafny

Hex-Hunter hides random byte buffers in noise and then finds them again. Each buffer carries a
two-byte CRC tag. The tools involved are:

- `generate_hex_data.py` writes random bytes, then the hex encoding of a tagged buffer.
- `detect_hex_data.py` scans a byte stream for runs of lowercase hex digits. When a byte
  outside that alphabet ends a run of more than 10 digits, it tries to decode the run and to
  verify its tag. If the run does not decode, it shortens the run one byte at a time and tries
  again. A run still open at the end of the input is never tried.
- `detect_encoded_data.py` runs an external scanner once per entry of a fixed table of
  encodings that the configuration selects. It tags every hit with the name of its encoding.

The package `hex_hunter/__init__.py` supplies the CRC, the tagging and verification helpers, the
byte-alphabet predicates and `encode_hex`.

The model has six modules:

- `PyBytes` (`pybytes.dfy`) holds the Python built-ins the code relies on:
  - slices with negative bounds;
  - `int.to_bytes(2, order)` and `int.from_bytes`;
  - `needle in haystack` on two `bytes` objects, which is a substring test;
  - `bytes.fromhex` on hex digits.
- `Bits16` and `Crc` (`crc.dfy`) hold the CRC:
  - `Fold` is the register on unbounded naturals as Python keeps it; `Checksum` masks it once
    at the end.
  - `Fold16` is a 16-bit register masked after every step.
  - `FoldLink` proves that the two agree.
  - `Crc16Loop` is the nested update loop shared by every copy of `crc16`.
- `HexHunter` (`hexhunter.dfy`) covers `hex_hunter/__init__.py`: `crc16`, `gen_random_data`,
  `verify_data`, `is_hex_char`, `is_hex_char_upper`, `is_hex_char_lower`, `is_base64_char`
  and `encode_hex`.
- `DetectHex` (`detecthex.dfy`) covers `detect_hex_data.py`:
  - its own copies of `crc16` and `verify_data`, with a different argument guard;
  - the stream scanner of its main block, modelled as methods that keep `hex_string` and
    `found`.
  - The scanner is proved against the functional specification `Scan`.
- `GenerateHex` (`generatehex.dfy`) covers `gen_random_data` of `generate_hex_data.py`, and the
  self-check of its main block.
- `DetectEncoded` (`detectencoded.dfy`) covers `correct_base64_error`, the encodings table and
  the selection and tagging loop of `detect_encoded_data`.

The platform byte order `CSUM_ENDIANESS` is the parameter `order`. The random body of
`gen_random_data` is an input.

`crc16` is not CRC-16/XMODEM. `generate_data.py` (lines 74 and 116) calls a separate
`hex_hunter.crc16_xmodem`, which `hex_hunter/__init__.py` does not define. XMODEM starts its
register at 0 and has check value 0x31C3 for `"123456789"`. `crc16` uses polynomial 0x1021 with
initial value 0xFFFF, no reflection and no final XOR. Those are the parameters of
CRC-16/CCITT-FALSE (also called CRC-16/IBM-3740). The model proves its check value, 0x29B1
(`Crc.CheckValue`, `HexHunter.Crc16CheckValue`).

The copies of `crc16` in `detect_hex_data.py` and `generate_hex_data.py` guard their arguments
with `offset > len(data) - 1 and offset + length > len(data)`. Python's `and` binds tighter than
`or`, so this guard lets through calls that the package version rejects. Those calls return
0xFFFF, or raise IndexError inside the loop. `DetectHex` models that guard as written and proves
where the two guards agree.

## Model

| member | source | states |
|---|---|---|
| PyBytes.SliceBound | hex_hunter/__init__.py:74 | A Python slice bound counts from the end when negative and is clamped to the sequence; all four cases are stated |
| PyBytes.SliceFrom | detect_encoded_data.py:69 | `s[i:]` is a suffix of `s` |
| PyBytes.SliceTo | detect_encoded_data.py:69 | `s[:j]` is a prefix of `s` |
| PyBytes.ToBytes2 | hex_hunter/__init__.py:67 | `x.to_bytes(2, order)` gives two bytes that `int.from_bytes` reads back as `x` |
| PyBytes.ToBytes2Injective | hex_hunter/__init__.py:74 | Two 16-bit values have the same two-byte tag exactly when they are equal |
| PyBytes.FromToBytes2 | hex_hunter/__init__.py:74 | Writing back the value read from any two bytes gives the same two bytes |
| PyBytes.ContainsSingle | hex_hunter/__init__.py:79 | For a one-byte needle, the `in` substring test is plain membership |
| PyBytes.ContainedBytesOccur | hex_hunter/__init__.py:79 | Every byte of a contained needle occurs in the haystack |
| PyBytes.Contains | hex_hunter/__init__.py:79 | Python's `needle in haystack` on two `bytes` objects: the needle occurs at some position as a contiguous substring, and the empty needle always does; `ContainsSingle` and `ContainedBytesOccur` state its meaning |
| PyBytes.EndsWith | detect_encoded_data.py:69 | `s.endswith(suffix)`: the suffix is no longer than `s` and equals its last bytes |
| PyBytes.Ascii | hex_hunter/__init__.py:79 | `.encode("utf-8")` of an ASCII literal: one byte per character, holding its code |
| PyBytes.FromHex | detect_hex_data.py:57 | `bytes.fromhex` succeeds exactly on an even number of hex digits, and then yields half as many bytes |
| Crc.Fold | hex_hunter/__init__.py:53-60 | The register after the bytes of `s`, one outer pass per byte in order, on unbounded naturals as Python keeps it; `FoldAppend` and `FoldLink` state its properties |
| Crc.Fold16 | hex_hunter/__init__.py:53-60 | The independent 16-bit reference register, masked after every step; `FoldLink` ties it to `Fold` |
| Crc.Checksum | hex_hunter/__init__.py:61 | The masked register is below 2^16 |
| Crc.XorLow16 | hex_hunter/__init__.py:55-58 | Python's `^` on the unbounded register with an operand below 2^16, the byte shifted left by 8 or 0x1021: the bits from 16 up are kept and the low 16 bits are XORed |
| Crc.ShiftStep | hex_hunter/__init__.py:57-60 | One pass of the inner loop: when bit 15 is set, shift left and XOR 0x1021, otherwise shift left; `StepLink` ties it to the 16-bit step |
| Crc.ByteStep | hex_hunter/__init__.py:55-60 | One pass of the outer loop: XOR the byte shifted left by 8 into the register, then eight inner passes; `ByteStepLink` ties it to the 16-bit step |
| Crc.LoopResult | hex_hunter/__init__.py:53-61 | What the loop of `crc16` returns: IndexError at the first missing byte when the window runs past the end of `data`, and otherwise the CRC of the window; `Crc16Loop` is proved to return it |
| Crc.XorLow16Masked | hex_hunter/__init__.py:55 | XOR with an operand below 2^16 touches only the low 16 bits of the register |
| Crc.ShiftStepMasked | hex_hunter/__init__.py:57-60 | The low 16 bits after one shift-and-XOR depend only on the low 16 bits before it, so higher bits never reach bit 15 |
| Crc.StepLink | hex_hunter/__init__.py:57-60 | One masked shift step of the unbounded register is one step of a 16-bit register |
| Crc.ShiftStepsLink | hex_hunter/__init__.py:56-60 | The inner loop on the unbounded register, masked, equals the inner loop on a 16-bit register |
| Crc.ByteStepLink | hex_hunter/__init__.py:55-60 | One outer step, masked, equals the 16-bit step |
| Crc.FoldLink | hex_hunter/__init__.py:53-61 | Masking after every step gives the value of masking once at the end |
| Crc.ChecksumBy16 | hex_hunter/__init__.py:53-61 | The CRC equals the 16-bit register started at 0xFFFF |
| Crc.FoldAppend | hex_hunter/__init__.py:54-60 | The CRC of `a + b` continues from the register left after `a` |
| Crc.WindowSnoc | hex_hunter/__init__.py:54-55 | Widening the window by one byte feeds that byte to the register |
| Crc.WindowEnd | hex_hunter/__init__.py:54 | When the loop ends, the window covered is the whole window, empty for `length <= 0` |
| Crc.Crc16Loop | hex_hunter/__init__.py:53-61 | The loop raises IndexError when the window runs past the end of `data`, and otherwise returns the CRC of the window |
| Crc.FeedByte | hex_hunter/__init__.py:55-60 | One pass of the outer loop extends the covered window by one byte |
| Crc.ShiftByte | hex_hunter/__init__.py:56-60 | The inner loop performs eight shift-and-XOR steps |
| Crc.Fold16Snoc | hex_hunter/__init__.py:54-60 | The 16-bit register after `s + [b]` is one step from the register after `s` |
| Crc.DigitSteps | hex_hunter/__init__.py:53-60 | The 16-bit register after each digit of `"123456789"` |
| Crc.Digits16 | hex_hunter/__init__.py:53-61 | The 16-bit register ends at 0x29B1 on `"123456789"` |
| Crc.CheckValue | hex_hunter/__init__.py:53-61 | The CRC of `"123456789"` is 0x29B1, the CRC-16/CCITT-FALSE check value |
| HexHunter.IsHexChar | hex_hunter/__init__.py:77-79 | `is_hex_char`: the argument is a substring of the mixed-case hex alphabet; `HexMembers` and `HexCharCount` state what it accepts |
| HexHunter.IsHexCharUpper | hex_hunter/__init__.py:82-84 | `is_hex_char_upper`: a substring of the uppercase hex alphabet; `HexUpperMembers` states what it accepts |
| HexHunter.IsHexCharLower | hex_hunter/__init__.py:87-89 | `is_hex_char_lower`: a substring of the lowercase hex alphabet; `HexLowerMembers` states what it accepts |
| HexHunter.IsBase64Char | hex_hunter/__init__.py:92-101 | `is_base64_char`: a substring of the base64 alphabet; `Base64Members` and `Base64CharCount` state what it accepts |
| HexHunter.Span | hex_hunter/__init__.py:79 | A range of consecutive byte values, in order |
| HexHunter.SpanMembers | hex_hunter/__init__.py:79 | A value is in a range exactly when it lies between its bounds |
| HexHunter.HexAlphabetLiteral | hex_hunter/__init__.py:77-79 | The mixed-case hex alphabet is the encoding of the literal `"0123456789abcdefABCDEF"` |
| HexHunter.HexUpperAlphabetLiteral | hex_hunter/__init__.py:82-84 | The uppercase hex alphabet is the encoding of the literal `"0123456789ABCDEF"` |
| HexHunter.HexLowerAlphabetLiteral | hex_hunter/__init__.py:87-89 | The lowercase hex alphabet is the encoding of the literal `"0123456789abcdef"` |
| HexHunter.Base64AlphabetLiteral | hex_hunter/__init__.py:92-101 | The Base64 alphabet is the encoding of the literal's four pieces in order: lowercase letters, uppercase letters, digits, then `+`, `/` and `=` |
| HexHunter.HexMembers | hex_hunter/__init__.py:77-79 | `is_hex_char` accepts exactly `0-9`, `a-f` and `A-F` |
| HexHunter.HexUpperMembers | hex_hunter/__init__.py:82-84 | `is_hex_char_upper` accepts exactly `0-9` and `A-F` |
| HexHunter.HexLowerMembers | hex_hunter/__init__.py:87-89 | `is_hex_char_lower` accepts exactly `0-9` and `a-f` |
| HexHunter.Base64Members | hex_hunter/__init__.py:92-101 | `is_base64_char` accepts exactly `A-Z`, `a-z`, `0-9`, `+`, `/` and `=` |
| HexHunter.HexCharSingle | hex_hunter/__init__.py:77-89 | For one byte, `is_hex_char` holds exactly when `is_hex_char_upper` or `is_hex_char_lower` does |
| HexHunter.HexCharPair | hex_hunter/__init__.py:77-89 | For two bytes the substring test breaks that equivalence: `"fA"` passes the mixed test but neither single-case test |
| HexHunter.IntervalSize | hex_hunter/__init__.py:79 | A range of byte values has `hi - lo + 1` members |
| HexHunter.ThreeIntervalsSize | hex_hunter/__init__.py:79 | Three separated ranges together have the sum of their sizes |
| HexHunter.HexCharSetShape | hex_hunter/__init__.py:77-79 | The bytes `is_hex_char` accepts are the three ranges `0-9`, `A-F` and `a-f` |
| HexHunter.HexCharCount | hex_hunter/__init__.py:77-79 | `is_hex_char` accepts exactly 22 byte values |
| HexHunter.Base64CharSetShape | hex_hunter/__init__.py:92-101 | The bytes `is_base64_char` accepts are the ranges `+`, `/`, `0-9`, `=`, `A-Z` and `a-z` |
| HexHunter.SeparatedUnionSize | hex_hunter/__init__.py:92-101 | Two value sets on either side of a bound have the sum of their sizes together |
| HexHunter.Base64CharCount | hex_hunter/__init__.py:92-101 | `is_base64_char` accepts exactly 65 byte values |
| HexHunter.LowerDigit | hex_hunter/__init__.py:104-106 | The digit written for a value below 16 is a lowercase hex digit that reads back as that value |
| HexHunter.EncodeHex | hex_hunter/__init__.py:104-106 | `encode_hex` doubles the length and writes only bytes that `is_hex_char_lower` accepts |
| HexHunter.EncodeHexRoundTrip | hex_hunter/__init__.py:104-106 | `bytes.fromhex` of `encode_hex(s)` gives back `s` |
| HexHunter.Crc16 | hex_hunter/__init__.py:44-61 | `crc16` is the guard followed by the loop: it raises ValueError on the guarded calls and returns the CRC of the window otherwise |
| HexHunter.Crc16Contract | hex_hunter/__init__.py:46-61 | ValueError exactly when `data` is None, `offset < 0`, `offset > len(data) - 1` or `offset + length > len(data)`; every call on empty data raises; a negative `length` returns 0xFFFF; other calls return the CRC of `data[offset:offset + length]`, below 2^16 |
| HexHunter.Crc16Window | hex_hunter/__init__.py:53-61 | The result depends only on the window `data[offset:offset + length]` |
| HexHunter.Crc16CheckValue | hex_hunter/__init__.py:44-61 | `crc16(b"123456789", 0, 9)` is 0x29B1 |
| HexHunter.Crc16Rejects | hex_hunter/__init__.py:46-52 | The guard of `crc16`: ValueError when `data` is None, `offset < 0`, `offset > len(data) - 1` or `offset + length > len(data)`, four alternatives joined by `or` |
| HexHunter.Crc16Of | hex_hunter/__init__.py:44-61 | The value of `crc16`: ValueError on the guarded calls, otherwise the CRC of the window; `Crc16` is proved to return it and `Crc16Contract` states its meaning |
| HexHunter.VerifyData | hex_hunter/__init__.py:72-74 | `verify_data`: the package `crc16` of all but the last two bytes compared with those two bytes, its ValueError passed on; `VerifyDataContract` and `VerifyAcceptsTagged` state its meaning |
| HexHunter.Tagged | hex_hunter/__init__.py:67-69 | A tagged buffer is the body followed by two more bytes |
| HexHunter.GenRandomData | hex_hunter/__init__.py:64-69 | `gen_random_data` raises ValueError on an empty body and otherwise returns the body followed by its CRC in `order` |
| HexHunter.VerifyDataContract | hex_hunter/__init__.py:72-74 | `verify_data` raises ValueError exactly on inputs of at most two bytes; otherwise it compares the last two bytes with the CRC of the rest |
| HexHunter.VerifyAcceptsTagged | hex_hunter/__init__.py:72-74 | `verify_data` accepts exactly the tagged buffers with a non-empty body |
| HexHunter.GeneratedVerifies | hex_hunter/__init__.py:64-74 | What `gen_random_data` produces, `verify_data` accepts |
| HexHunter.TamperedTagRejected | hex_hunter/__init__.py:64-74 | Any other two bytes in place of the tag make `verify_data` return False |
| DetectHex.Crc16 | detect_hex_data.py:18-35 | This `crc16` is its guard followed by the shared loop |
| DetectHex.Crc16Contract | detect_hex_data.py:20-35 | ValueError exactly when `data` is None, `offset < 0`, or both `offset > len(data) - 1` and `offset + length > len(data)`; IndexError exactly when the window starts inside `data` and runs past its end; otherwise the CRC of the window, 0xFFFF for `length <= 0` |
| DetectHex.Crc16Rejects | detect_hex_data.py:20-26 | The guard of the script's `crc16` as Python groups it: `and` binds tighter than `or`, so ValueError when `data` is None, when `offset < 0`, or when both `offset > len(data) - 1` and `offset + length > len(data)`; `RejectsOnlyWhereMainDoes` and `DiffersFromMain` compare it with the package guard |
| DetectHex.Crc16Of | detect_hex_data.py:18-35 | The value of the script's `crc16`: ValueError on the guarded calls, IndexError at the first missing byte when the window the guard lets through runs past the end of `data`, otherwise the CRC of the window |
| DetectHex.RejectsOnlyWhereMainDoes | detect_hex_data.py:20-26 | Every call this guard rejects, the package's guard rejects too |
| DetectHex.AgreesWithMain | detect_hex_data.py:18-35 | Wherever the package's guard accepts a call, both copies return the same value |
| DetectHex.DiffersFromMain | detect_hex_data.py:20-29 | On the calls only the package rejects, this copy returns 0xFFFF or raises IndexError |
| DetectHex.EmptyDataAccepted | detect_hex_data.py:20-35 | `crc16(b"", 0, 0)` returns 0xFFFF here and raises ValueError in the package |
| DetectHex.ToBytes2FFFF | detect_hex_data.py:39 | The tag of 0xFFFF is `b"\xff\xff"` in either byte order |
| DetectHex.VerifyData | detect_hex_data.py:38-39 | The script's `verify_data`, over the script's own `crc16`; `VerifyDataContract` and `VerifyDataTotal` state its meaning |
| DetectHex.VerifyDataContract | detect_hex_data.py:38-39 | This `verify_data` never raises; it returns False below two bytes, returns True on exactly `b"\xff\xff"` at two bytes, and agrees with the package's version above two bytes |
| DetectHex.VerifyDataTotal | detect_hex_data.py:38-39 | This `verify_data` always returns True or False |
| DetectHex.Close | detect_hex_data.py:55-69 | The shrink loop as a function of the buffered run and the count; `CloseShape`, `CloseTruthful` and `HexRunDropsAtMostOne` state its properties |
| DetectHex.Feed | detect_hex_data.py:51-70 | One byte of the main loop: a lowercase hex digit is appended to the buffer, any other byte runs `Close` and empties the buffer; `NonLowerClosesRun` and `FeedKeepsAccounts` state its properties |
| DetectHex.Scan | detect_hex_data.py:44-70 | The scanner state after a whole input from an empty buffer and a zero count; `ScanInvariant`, `ScanFromAppend` and `PendingRunNotValidated` state its properties |
| DetectHex.ScanFrom | detect_hex_data.py:50-70 | The scanner state after feeding the bytes of `input` one by one, in order, from any state; `ScanFromAppend` and `ScanFromSnoc` state how it composes |
| DetectHex.FirstEmpty | detect_hex_data.py:46-49 | Before the first empty read, every chunk is non-empty |
| DetectHex.Received | detect_hex_data.py:46-50 | The bytes the `while True` loop consumes from the successive reads: the chunks before the first empty read, concatenated; `ScanHexStream` scans exactly these |
| DetectHex.ShrinkRun | detect_hex_data.py:55-69 | The shrink loop prints the reports of `Close` and leaves the count `Close` gives |
| DetectHex.DropLast | detect_hex_data.py:65-68 | A run longer than the threshold that does not decode is reported, then shortened by one byte |
| DetectHex.KeepVerdict | detect_hex_data.py:57-69 | A run longer than the threshold that decodes is reported with the verdict of `verify_data` and the count it leaves, and the loop stops |
| DetectHex.ScanHexStream | detect_hex_data.py:42-70 | The main block, reading chunks until one is empty, ends in the state `Scan` gives for the concatenated bytes, so chunk boundaries do not matter |
| DetectHex.ScanChunk | detect_hex_data.py:46-50 | Reading one more chunk continues the scan over its bytes |
| DetectHex.FeedBuffer | detect_hex_data.py:50-70 | The loop over one chunk feeds its bytes in order |
| DetectHex.CountFoundAppend | detect_hex_data.py:58-59 | The count of found reports adds up over concatenation |
| DetectHex.CloseShape | detect_hex_data.py:55-69 | One shrink loop reports the run with its last `i` bytes dropped as report `i`. Every reported run is longer than the threshold. Every report but the last is a decoding error. A loop ending on a decoding error has reached length threshold + 1. There are no reports exactly when the run is at most the threshold. The count grows by the found reports, at most one |
| DetectHex.CloseRuns | detect_hex_data.py:55-67 | Report `i` is about the run with its last `i` bytes dropped, and is longer than the threshold |
| DetectHex.CloseErrors | detect_hex_data.py:55-69 | Decoding errors come first, a successful decode ends the loop, and the loop stops at the threshold |
| DetectHex.CloseCount | detect_hex_data.py:58-62 | `found` grows by one for a verified run and otherwise stays unchanged |
| DetectHex.CloseTruthful | detect_hex_data.py:55-69 | Every report is truthful: a decoding error means `fromhex` fails on the run; a found run decodes to data `verify_data` accepts and carries the next count; a failed run decodes to data it rejects |
| DetectHex.VerdictTruthful | detect_hex_data.py:57-64 | The verdict reported for a run that decodes is the answer of `verify_data` |
| DetectHex.HexRunDropsAtMostOne | detect_hex_data.py:55-68 | On a run of hex digits the loop reports at most twice, only the first report can be a decoding error, so at most one byte is dropped, and a first decoding error means the run had odd length |
| DetectHex.OddHexRun | detect_hex_data.py:57-68 | A run of hex digits that does not decode has odd length, and without its last byte it decodes |
| DetectHex.ScanFromAppend | detect_hex_data.py:46-53 | Scanning `a + b` is scanning `b` from the state after `a` |
| DetectHex.ScanFromSnoc | detect_hex_data.py:50-53 | Scanning one more byte feeds it to the state reached so far |
| DetectHex.ScanInvariant | detect_hex_data.py:50-70 | The buffer is the trailing run of lowercase hex digits, every report is about a run longer than the threshold, and `found` counts the found reports |
| DetectHex.FeedKeepsAccounts | detect_hex_data.py:52-70 | Feeding a byte keeps every report longer than the threshold and `found` equal to the number of found reports |
| DetectHex.LongRunsAppend | detect_hex_data.py:55-58 | Reports longer than the threshold stay so when concatenated |
| DetectHex.TrailingRunIsHex | detect_hex_data.py:52-53 | The buffer holds only hex digits |
| DetectHex.ScanDropsAtMostOne | detect_hex_data.py:55-68 | Each closed run keeps the earlier reports and adds at most two, of which only the first can be a decoding error, so at most one byte is dropped |
| DetectHex.ScanClosesRun | detect_hex_data.py:52-70 | A byte outside the lowercase hex alphabet appends the reports of the shrink loop on the buffered run |
| DetectHex.ReportsAppended | detect_hex_data.py:55-68 | Appending at most two reports, only the first a decoding error, keeps the earlier reports in front |
| DetectHex.NonLowerClosesRun | detect_hex_data.py:52-70 | After any byte outside the lowercase hex alphabet the buffer is empty |
| DetectHex.UppercaseClosesRun | detect_hex_data.py:6-15 | An uppercase hex digit is a hex digit that closes the run, because only the lowercase test drives the scanner |
| DetectHex.PendingRunNotValidated | detect_hex_data.py:46-53 | Lowercase hex digits at the end of the input change neither the reports nor the count, because the pending run is never decoded; since `generate_hex_data.py` writes a buffer's hex last (lines 41-48), the last of its 1000 buffers is never found (`GenerateHex.TrailingPayloadMissed`) |
| DetectHex.RunThenClose | detect_hex_data.py:50-70 | A run of lowercase hex digits read with an empty buffer and closed by any other byte adds exactly the reports of the shrink loop on that whole run |
| DetectHex.FoundAtOnce | detect_hex_data.py:55-62 | A run longer than the threshold that decodes to a buffer `verify_data` accepts gives exactly one report, found, with the next count and the decoded length |
| DetectHex.FindsRun | detect_hex_data.py:50-70 | When the shrink loop reports such a run at its first attempt, the scan adds exactly that report after the earlier ones |
| GenerateHex.GenRandomData | generate_hex_data.py:27-32 | The script's `gen_random_data` never raises, and returns the body followed by its CRC in `order` |
| GenerateHex.TagLayout | generate_hex_data.py:30 | The tag is `[crc & 0xFF, crc >> 8]` on a little-endian platform and the reverse on a big-endian one |
| GenerateHex.EmptyBody | generate_hex_data.py:27-32 | With an empty body the output is `b"\xff\xff"` |
| GenerateHex.GeneratedVerifies | generate_hex_data.py:27-36 | The script's `verify_data` accepts every buffer it generates, the empty body included, so the exit with status -1 is never reached |
| GenerateHex.TamperedTagRejected | generate_hex_data.py:35-36 | Any other two bytes in place of the tag make `verify_data` return False |
| GenerateHex.FindsGenerated | detect_hex_data.py:50-62 | A generated buffer written in hex, after input that leaves the scanner's buffer empty and followed by a byte outside the lowercase hex alphabet, is reported as `data[found+1]` with its length (body plus two tag bytes) and its hex, after the earlier reports, whenever its hex is longer than the threshold |
| GenerateHex.TrailingPayloadMissed | generate_hex_data.py:41-48 | A generated buffer written last, as the script's final buffer is, changes neither the reports nor the count |
| DetectEncoded.CorrectBase64Error | detect_encoded_data.py:68-69 | `correct_base64_error`: `[1:]` when the input ends with `=`, `[:-1]` otherwise; `CorrectBase64ErrorContract` and `CorrectionIsSlice` state its meaning |
| DetectEncoded.CorrectBase64ErrorContract | detect_encoded_data.py:68-69 | The first byte is dropped when the input ends with `=` and the last byte otherwise; empty input stays empty; non-empty input shrinks by exactly one byte |
| DetectEncoded.CorrectionIsSlice | detect_encoded_data.py:69 | The result is a suffix or a prefix of the input, and a trailing `=` survives when at least two bytes were given |
| DetectEncoded.Encodings | detect_encoded_data.py:74-79 | The table of four encodings, in insertion order; `EncodingsTable` states its content |
| DetectEncoded.Selected | detect_encoded_data.py:86-90 | An encoding is scanned when the configuration has no `encoding` key, when it is `"all"`, or when it is that encoding's name; `DetectAll`, `DetectOne`, `DetectUnknown` and `NothingSelected` state its effect |
| DetectEncoded.EncodingsTable | detect_encoded_data.py:74-79 | The table holds base16, base32, base64 and base85 in that order, and only base64 has an error correction, `correct_base64_error` |
| DetectEncoded.Pass | detect_encoded_data.py:86-99 | One entry of the loop: nothing when unselected, KeyError when a key is missing, the tagged hits otherwise; `PresentStep` and `MissingKeyRaises` state its effect |
| DetectEncoded.DetectIn | detect_encoded_data.py:81-99 | The passes over a table in order, stopping at the first exception; `DetectAll`, `DetectOne`, `DetectUnknown` and `DetectMissingKey` state its outcome |
| DetectEncoded.Detect | detect_encoded_data.py:72-99 | The passes over the four-entry table, in order, stopping at the first exception; `DetectEncodedData` is proved to produce it, and `DetectUnrolled`, `FourPasses` and `DetectAll` state its shape |
| DetectEncoded.TagAll | detect_encoded_data.py:92-99 | Each triple carries the encoding name and the scanner's offset and data, unchanged and in order |
| DetectEncoded.DetectEncodedData | detect_encoded_data.py:72-99 | Consuming the generator yields the triples `Detect` gives and then raises the exception it gives |
| DetectEncoded.TagHits | detect_encoded_data.py:92-99 | The inner loop yields one triple per hit, in order |
| DetectEncoded.DetectInStep | detect_encoded_data.py:81-99 | After passes that raised nothing, one more pass appends its triples and its exception |
| DetectEncoded.UnselectedAfterError | detect_encoded_data.py:86-91 | Once a pass has raised, later entries change nothing |
| DetectEncoded.DetectUnrolled | detect_encoded_data.py:81-99 | With both keys present nothing raises, and the output is the four passes' outputs in table order |
| DetectEncoded.FourPasses | detect_encoded_data.py:81-99 | Over a four-entry table with both keys present, the output is the four passes in order |
| DetectEncoded.PresentStep | detect_encoded_data.py:81-99 | With both keys present each pass appends its triples |
| DetectEncoded.NothingRaised | detect_encoded_data.py:91-94 | With both keys present no pass raises |
| DetectEncoded.DetectAll | detect_encoded_data.py:86-99 | Without an `encoding` key, or with `"all"`, all four encodings are scanned in the order base16, base32, base64, base85, and every earlier triple precedes every later one |
| DetectEncoded.DetectOne | detect_encoded_data.py:86-99 | Naming one encoding scans that encoding alone |
| DetectEncoded.DetectUnknown | detect_encoded_data.py:86-90 | Any other name yields nothing and raises nothing |
| DetectEncoded.NothingSelected | detect_encoded_data.py:86-90 | When no entry is selected, nothing is yielded and nothing is raised |
| DetectEncoded.DetectMissingKey | detect_encoded_data.py:91-94 | A missing `input_filename` or `threshold` raises KeyError at the first selected encoding, before anything is yielded, and raises nothing when no encoding is selected |
| DetectEncoded.MissingKeyRaises | detect_encoded_data.py:86-94 | With a key missing, any selected encoding in the table makes the passes raise KeyError with nothing yielded |

## Left out

- The file, stdin and stdout plumbing is not modelled: `smart_open` (hex_hunter/__init__.py:22-41), the reads of standard input, the `print` calls and the answer-key file. The scanner returns `Report` values instead of printing. Each report holds what its printed line shows, except the text of the ValueError message.
- The randomness of `secrets.token_bytes` and `secrets.choice` is not modelled. The random body is an input. The ValueError that `token_bytes` raises on a negative size has no counterpart, because the body is a sequence.
- `CSUM_ENDIANESS = sys.byteorder` is the parameter `order`.
- `HexHunter.GenRandomData` and `GenerateHex.GenRandomData` compute the CRC through the guarded `crc16`. They return `Tagged`, whose tag is stated with `Checksum` directly.
- In `detect_hex_data.py`, the threshold 10 (line 43) is the parameter `threshold`. The 1024-byte reads are any sequence of chunks, ending at the first empty one.
- `is_hex`, `is_hex_upper` and `is_hex_lower` of `detect_hex_data.py` are textual copies of the package predicates, so they are modelled once, as `HexHunter.IsHexChar*`. Likewise `crc16` and `verify_data` of `generate_hex_data.py` (lines 7-24 and 35-36) are textual copies of those in `detect_hex_data.py`, modelled once in `DetectHex`.
- The main block of `generate_hex_data.py` (lines 39-52) is reduced to its self-check, `GenerateHex.GeneratedVerifies`. The random filler and the answer-key file are left out.
- `PyBytes.FromHex` does not skip whitespace, as `bytes.fromhex` does. The scanner only ever decodes runs of hex digits, so whitespace never reaches it. `hex_string.decode("utf-8")` is the identity on those ASCII digits.
- `find_encoded_data`, the `BASE_*_BYTES` tables and the standard-library decoders are imported from code that is not part of this model. The scanner is the uninterpreted parameter `scan`, a total function from file name, threshold and table entry to a hit list. The tables and decoders appear only as names.
- `DetectEncoded.DetectEncodedData` models the generator consumed to its end. A consumer that stops early, I/O errors from opening the file, and the laziness of the scanner are not modelled.
- The JSON configuration is reduced to the three keys that are read. A `threshold` of a non-integer type is not modelled, and an `encoding` of a non-string type is not modelled either. For example, a JSON `null` selects nothing in Python, while the model's `None` stands for an absent key, which selects everything.
- The `main` functions of `detect_encoded_data.py` (lines 102-113) and `generate_data.py`, `data_kind.py` and `encoding-samples.py` are not part of this model. They are file-type sniffing, fixture generation and printing around standard-library encoders.

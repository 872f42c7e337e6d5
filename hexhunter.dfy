/** The `hex_hunter` package: the CRC-16 tag it appends to generated data and
    checks on verification, the alphabet predicates the scanners use, and
    lowercase hex encoding. */
module HexHunter {
  import opened PyBytes
  import opened Crc

  // Alphabets

  /** The ASCII codes `lo`, `lo + 1`, ..., `hi`, in order: a run of consecutive
      characters of the alphabet literals below, such as "0123456789". */
  function Span(lo: int, hi: int): (r: seq<byte>)
    requires 0 <= lo && hi < 0x100
    ensures |r| == if lo <= hi then hi - lo + 1 else 0
    ensures forall i | 0 <= i < |r| :: r[i] == lo + i
    decreases hi - lo
  {
    if lo > hi then [] else [lo] + Span(lo + 1, hi)
  }

  lemma {:induction false} SpanMembers(lo: int, hi: int, x: int)
    requires 0 <= lo && hi < 0x100
    ensures x in Span(lo, hi) <==> lo <= x <= hi
    decreases hi - lo
  {
    if lo <= hi {
      SpanMembers(lo + 1, hi, x);
    }
  }

  /** "0123456789abcdefABCDEF" */
  function HexAlphabet(): seq<byte>
  {
    Span('0' as int, '9' as int) + Span('a' as int, 'f' as int) + Span('A' as int, 'F' as int)
  }

  /** "0123456789ABCDEF" */
  function HexUpperAlphabet(): seq<byte>
  {
    Span('0' as int, '9' as int) + Span('A' as int, 'F' as int)
  }

  /** "0123456789abcdef" */
  function HexLowerAlphabet(): seq<byte>
  {
    Span('0' as int, '9' as int) + Span('a' as int, 'f' as int)
  }

  /** "abcdefghijklmnopqrstuvwxyzABCDEFGHIJKLMNOPQRSTUVWXYZ0123456789+/=" */
  function Base64Alphabet(): seq<byte>
  {
    Span('a' as int, 'z' as int) + Span('A' as int, 'Z' as int) + Span('0' as int, '9' as int)
      + ['+' as int, '/' as int, '=' as int]
  }

  // The alphabets are the literals of the source

  /** A string of the consecutive characters `lo`, ..., `hi` encodes to their span. */
  lemma AsciiSpan(lo: int, hi: int, s: string)
    requires 0 <= lo <= hi < 0x80 && |s| == hi - lo + 1
    requires forall i | 0 <= i < |s| :: s[i] as int == lo + i
    ensures Span(lo, hi) == Ascii(s)
  {
    var a := Ascii(s);
    forall i | 0 <= i < |s| ensures Span(lo, hi)[i] == a[i] { }
  }

  /** `.encode()` of a concatenation of ASCII strings is the concatenation of their encodings. */
  lemma AsciiAppend(x: string, y: string)
    requires forall i | 0 <= i < |x| :: x[i] as int < 0x80
    requires forall i | 0 <= i < |y| :: y[i] as int < 0x80
    ensures Ascii(x + y) == Ascii(x) + Ascii(y)
  {
    var a := Ascii(x + y);
    forall i | 0 <= i < |x + y| ensures a[i] == (Ascii(x) + Ascii(y))[i] {
      if i < |x| { assert (x + y)[i] == x[i]; } else { assert (x + y)[i] == y[i - |x|]; }
    }
  }

  /** An ASCII string whose first `k` characters encode to `p` and whose rest
      are the consecutive characters `lo`, ..., `hi` encodes to `p` and the span. */
  lemma AsciiThenSpan(p: seq<byte>, s: string, k: nat, lo: int, hi: int)
    requires k <= |s| && 0 <= lo <= hi < 0x80 && |s| - k == hi - lo + 1
    requires forall i | 0 <= i < k :: s[i] as int < 0x80
    requires forall i | k <= i < |s| :: s[i] as int == lo + (i - k)
    requires Ascii(s[..k]) == p
    ensures p + Span(lo, hi) == Ascii(s)
  {
    AsciiSpan(lo, hi, s[k..]);
    AsciiAppend(s[..k], s[k..]);
    assert s[..k] + s[k..] == s;
  }

  /** The hex alphabet is the literal of `is_hex_char`. */
  lemma HexAlphabetLiteral()
    ensures HexAlphabet() == Ascii("0123456789abcdefABCDEF")
  {
    var lit := "0123456789abcdefABCDEF";
    AsciiSpan('0' as int, '9' as int, lit[..10]);
    assert lit[..16][..10] == lit[..10];
    AsciiThenSpan(Span('0' as int, '9' as int), lit[..16], 10, 'a' as int, 'f' as int);
    AsciiThenSpan(Span('0' as int, '9' as int) + Span('a' as int, 'f' as int), lit, 16, 'A' as int, 'F' as int);
  }

  /** The uppercase hex alphabet is the literal of `is_hex_char_upper`. */
  lemma HexUpperAlphabetLiteral()
    ensures HexUpperAlphabet() == Ascii("0123456789ABCDEF")
  {
    var lit := "0123456789ABCDEF";
    AsciiSpan('0' as int, '9' as int, lit[..10]);
    AsciiThenSpan(Span('0' as int, '9' as int), lit, 10, 'A' as int, 'F' as int);
  }

  /** The lowercase hex alphabet is the literal of `is_hex_char_lower`. */
  lemma HexLowerAlphabetLiteral()
    ensures HexLowerAlphabet() == Ascii("0123456789abcdef")
  {
    var lit := "0123456789abcdef";
    AsciiSpan('0' as int, '9' as int, lit[..10]);
    AsciiThenSpan(Span('0' as int, '9' as int), lit, 10, 'a' as int, 'f' as int);
  }

  /** "abcdefghijklmnopqrstuvwxyz" */
  lemma LowerLettersLiteral()
    ensures Span('a' as int, 'z' as int) == Ascii("abcdefghijklmnopqrstuvwxyz")
  {
    AsciiSpan('a' as int, 'z' as int, "abcdefghijklmnopqrstuvwxyz");
  }

  /** "ABCDEFGHIJKLMNOPQRSTUVWXYZ" */
  lemma UpperLettersLiteral()
    ensures Span('A' as int, 'Z' as int) == Ascii("ABCDEFGHIJKLMNOPQRSTUVWXYZ")
  {
    AsciiSpan('A' as int, 'Z' as int, "ABCDEFGHIJKLMNOPQRSTUVWXYZ");
  }

  /** "0123456789" */
  lemma DigitsLiteral()
    ensures Span('0' as int, '9' as int) == Ascii("0123456789")
  {
    AsciiSpan('0' as int, '9' as int, "0123456789");
  }

  /** "+/=" */
  lemma Base64SymbolsLiteral()
    ensures Ascii("+/=") == ['+' as int, '/' as int, '=' as int]
  {
    var a := Ascii("+/=");
    assert a[0] == '+' as int && a[1] == '/' as int && a[2] == '=' as int;
  }

  /** The Base64 alphabet is the literal of `is_base64_char`, written out in the
      four pieces the literal is made of: the lowercase letters, the uppercase
      letters, the digits and "+/=". */
  lemma Base64AlphabetLiteral()
    ensures Base64Alphabet() == Ascii("abcdefghijklmnopqrstuvwxyz") + Ascii("ABCDEFGHIJKLMNOPQRSTUVWXYZ")
      + Ascii("0123456789") + Ascii("+/=")
  {
    LowerLettersLiteral();
    UpperLettersLiteral();
    DigitsLiteral();
    Base64SymbolsLiteral();
  }

  /** `is_hex_char`: the argument occurs in the mixed-case hex alphabet. Python's
      `in` between two byte strings is a substring test. */
  predicate IsHexChar(b: seq<byte>)
  {
    Contains(HexAlphabet(), b)
  }

  predicate IsHexCharUpper(b: seq<byte>)
  {
    Contains(HexUpperAlphabet(), b)
  }

  predicate IsHexCharLower(b: seq<byte>)
  {
    Contains(HexLowerAlphabet(), b)
  }

  predicate IsBase64Char(b: seq<byte>)
  {
    Contains(Base64Alphabet(), b)
  }

  lemma HexMembers(x: byte)
    ensures IsHexChar([x]) <==> '0' as int <= x <= '9' as int || 'a' as int <= x <= 'f' as int || 'A' as int <= x <= 'F' as int
  {
    ContainsSingle(HexAlphabet(), x);
    SpanMembers('0' as int, '9' as int, x);
    SpanMembers('a' as int, 'f' as int, x);
    SpanMembers('A' as int, 'F' as int, x);
  }

  lemma HexUpperMembers(x: byte)
    ensures IsHexCharUpper([x]) <==> '0' as int <= x <= '9' as int || 'A' as int <= x <= 'F' as int
  {
    ContainsSingle(HexUpperAlphabet(), x);
    SpanMembers('0' as int, '9' as int, x);
    SpanMembers('A' as int, 'F' as int, x);
  }

  lemma HexLowerMembers(x: byte)
    ensures IsHexCharLower([x]) <==> '0' as int <= x <= '9' as int || 'a' as int <= x <= 'f' as int
  {
    ContainsSingle(HexLowerAlphabet(), x);
    SpanMembers('0' as int, '9' as int, x);
    SpanMembers('a' as int, 'f' as int, x);
  }

  lemma Base64Members(x: byte)
    ensures IsBase64Char([x]) <==>
      'a' as int <= x <= 'z' as int || 'A' as int <= x <= 'Z' as int || '0' as int <= x <= '9' as int
      || x == '+' as int || x == '/' as int || x == '=' as int
  {
    ContainsSingle(Base64Alphabet(), x);
    SpanMembers('a' as int, 'z' as int, x);
    SpanMembers('A' as int, 'Z' as int, x);
    SpanMembers('0' as int, '9' as int, x);
  }

  /** On one byte, the mixed-case test is the union of the two single-case tests. */
  lemma HexCharSingle(x: byte)
    ensures IsHexChar([x]) <==> IsHexCharUpper([x]) || IsHexCharLower([x])
  {
    HexMembers(x);
    HexUpperMembers(x);
    HexLowerMembers(x);
  }

  /** On longer arguments the substring test breaks that union: "fA" occurs in
      the mixed-case alphabet and in neither single-case one. */
  lemma HexCharPair()
    ensures IsHexChar(['f' as int, 'A' as int])
    ensures !IsHexCharUpper(['f' as int, 'A' as int]) && !IsHexCharLower(['f' as int, 'A' as int])
  {
    var p: seq<byte> := ['f' as int, 'A' as int];
    assert HexAlphabet()[15] == 'f' as int && HexAlphabet()[16] == 'A' as int;
    assert HexAlphabet()[15..17] == p;
    assert OccursAt(HexAlphabet(), p, 15);
    if IsHexCharUpper(p) {
      ContainedBytesOccur(HexUpperAlphabet(), p, 0);
      SpanMembers('0' as int, '9' as int, 'f' as int);
      SpanMembers('A' as int, 'F' as int, 'f' as int);
    }
    if IsHexCharLower(p) {
      ContainedBytesOccur(HexLowerAlphabet(), p, 1);
      SpanMembers('0' as int, '9' as int, 'A' as int);
      SpanMembers('a' as int, 'f' as int, 'A' as int);
    }
  }

  // Sizes of the alphabets

  /** The byte values from `lo` to `hi`. */
  ghost function Interval(lo: int, hi: int): set<int>
    requires 0 <= lo && hi < 0x100
  {
    set x | x in Span(lo, hi)
  }

  lemma IntervalMember(lo: int, hi: int, x: int)
    requires 0 <= lo && hi < 0x100
    ensures x in Interval(lo, hi) <==> lo <= x <= hi
  {
    SpanMembers(lo, hi, x);
  }

  lemma IntervalMembers(lo: int, hi: int)
    requires 0 <= lo && hi < 0x100
    ensures forall x :: x in Interval(lo, hi) <==> lo <= x <= hi
  {
    forall x
      ensures x in Interval(lo, hi) <==> lo <= x <= hi
    {
      IntervalMember(lo, hi, x);
    }
  }

  lemma {:induction false} IntervalSize(lo: int, hi: int)
    requires 0 <= lo && hi < 0x100
    ensures |Interval(lo, hi)| == if lo <= hi then hi - lo + 1 else 0
    decreases hi - lo
  {
    IntervalMembers(lo, hi);
    if lo <= hi {
      IntervalSize(lo + 1, hi);
      IntervalMembers(lo + 1, hi);
      assert Interval(lo, hi) == {lo} + Interval(lo + 1, hi);
    } else {
      assert Interval(lo, hi) == {};
    }
  }

  /** Adding an interval above every member of `a` adds its size. */
  lemma AddInterval(a: set<int>, lo: int, hi: int)
    requires 0 <= lo <= hi < 0x100
    requires forall x | x in a :: x < lo
    ensures |a + Interval(lo, hi)| == |a| + hi - lo + 1
    ensures forall x | x in a + Interval(lo, hi) :: x <= hi
  {
    IntervalMembers(lo, hi);
    IntervalSize(lo, hi);
    assert a * Interval(lo, hi) == {};
  }

  /** The byte values one-byte arguments of `is_hex_char` accept. */
  ghost function HexCharSet(): set<int>
  {
    set x | 0 <= x < 0x100 && IsHexChar([x])
  }

  ghost function Base64CharSet(): set<int>
  {
    set x | 0 <= x < 0x100 && IsBase64Char([x])
  }

  lemma HexCharSetShape()
    ensures HexCharSet() == Interval(0x30, 0x39) + Interval(0x41, 0x46) + Interval(0x61, 0x66)
  {
    var digits, upper, lower := Interval(0x30, 0x39), Interval(0x41, 0x46), Interval(0x61, 0x66);
    forall x
      ensures x in HexCharSet() <==> x in digits + upper + lower
    {
      IntervalMember(0x30, 0x39, x);
      IntervalMember(0x41, 0x46, x);
      IntervalMember(0x61, 0x66, x);
      if 0 <= x < 0x100 {
        HexMembers(x);
      }
    }
  }

  /** The size of three intervals, each above the one before it. */
  lemma ThreeIntervalsSize(a0: int, a1: int, b0: int, b1: int, c0: int, c1: int)
    requires 0 <= a0 <= a1 < b0 <= b1 < c0 <= c1 < 0x100
    ensures |Interval(a0, a1) + Interval(b0, b1) + Interval(c0, c1)|
      == (a1 - a0 + 1) + (b1 - b0 + 1) + (c1 - c0 + 1)
    ensures forall x | x in Interval(a0, a1) + Interval(b0, b1) + Interval(c0, c1) :: a0 <= x <= c1
  {
    IntervalMembers(a0, a1);
    IntervalMembers(b0, b1);
    IntervalMembers(c0, c1);
    AddInterval({}, a0, a1);
    assert {} + Interval(a0, a1) == Interval(a0, a1);
    AddInterval(Interval(a0, a1), b0, b1);
    AddInterval(Interval(a0, a1) + Interval(b0, b1), c0, c1);
  }

  /** `is_hex_char` accepts exactly 22 byte values. */
  lemma HexCharCount()
    ensures |HexCharSet()| == 22
  {
    HexCharSetShape();
    ThreeIntervalsSize(0x30, 0x39, 0x41, 0x46, 0x61, 0x66);
  }

  lemma Base64CharSetShape()
    ensures Base64CharSet() == (Interval(0x2B, 0x2B) + Interval(0x2F, 0x2F) + Interval(0x30, 0x39))
      + (Interval(0x3D, 0x3D) + Interval(0x41, 0x5A) + Interval(0x61, 0x7A))
  {
    var plus, slash, digits, equals := Interval(0x2B, 0x2B), Interval(0x2F, 0x2F), Interval(0x30, 0x39), Interval(0x3D, 0x3D);
    var capital, small := Interval(0x41, 0x5A), Interval(0x61, 0x7A);
    forall x
      ensures x in Base64CharSet() <==> x in (plus + slash + digits) + (equals + capital + small)
    {
      IntervalMember(0x2B, 0x2B, x);
      IntervalMember(0x2F, 0x2F, x);
      IntervalMember(0x30, 0x39, x);
      IntervalMember(0x3D, 0x3D, x);
      IntervalMember(0x41, 0x5A, x);
      IntervalMember(0x61, 0x7A, x);
      if 0 <= x < 0x100 {
        Base64Members(x);
      }
    }
  }

  /** Two sets separated by `m` are disjoint. */
  lemma SeparatedUnionSize(a: set<int>, b: set<int>, m: int)
    requires forall x | x in a :: x < m
    requires forall x | x in b :: m <= x
    ensures |a + b| == |a| + |b|
  {
    assert forall x :: x !in a * b;
    assert a * b == {};
  }

  /** `is_base64_char` accepts exactly 65 byte values. */
  lemma Base64CharCount()
    ensures |Base64CharSet()| == 65
  {
    Base64CharSetShape();
    ThreeIntervalsSize(0x2B, 0x2B, 0x2F, 0x2F, 0x30, 0x39);
    ThreeIntervalsSize(0x3D, 0x3D, 0x41, 0x5A, 0x61, 0x7A);
    SeparatedUnionSize(Interval(0x2B, 0x2B) + Interval(0x2F, 0x2F) + Interval(0x30, 0x39),
                       Interval(0x3D, 0x3D) + Interval(0x41, 0x5A) + Interval(0x61, 0x7A), 0x3D);
  }

  // encode_hex

  /** The lowercase hex digit of a value below 16. */
  function LowerDigit(v: int): (d: byte)
    requires 0 <= v < 16
    ensures IsHexDigit(d) && HexDigitValue(d) == v
    ensures IsHexCharLower([d])
  {
    HexLowerMembers(if v < 10 then '0' as int + v else 'a' as int + v - 10);
    if v < 10 then '0' as int + v else 'a' as int + v - 10
  }

  /** `encode_hex`: `bytes.hex()` (two lowercase digits per byte, high nibble
      first) encoded back to bytes. */
  function EncodeHex(s: seq<byte>): (r: seq<byte>)
    ensures |r| == 2 * |s|
    ensures forall i | 0 <= i < |r| :: IsHexCharLower([r[i]])
  {
    if s == [] then [] else [LowerDigit(s[0] / 16), LowerDigit(s[0] % 16)] + EncodeHex(s[1..])
  }

  /** `bytes.fromhex` undoes `encode_hex`. */
  lemma {:induction false} EncodeHexRoundTrip(s: seq<byte>)
    ensures FromHex(EncodeHex(s)) == Ok(s)
  {
    if s != [] {
      var e := EncodeHex(s);
      assert e[2..] == EncodeHex(s[1..]);
      EncodeHexRoundTrip(s[1..]);
      assert [s[0]] + s[1..] == s;
    }
  }

  // crc16

  /** The argument guard of `crc16`: these calls raise ValueError. */
  predicate Crc16Rejects(data: Option<seq<byte>>, offset: int, length: int)
  {
    data.None? || offset < 0 || offset > |data.value| - 1 || offset + length > |data.value|
  }

  /** The value of `crc16(data, offset, length)`. */
  function Crc16Of(data: Option<seq<byte>>, offset: int, length: int): Result<nat>
  {
    if Crc16Rejects(data, offset, length) then Err(ValueError)
    else Ok(Checksum(Window(data.value, offset, length)))
  }

  /** `crc16`: the guard, then the shared loop. */
  method Crc16(data: Option<seq<byte>>, offset: int, length: int) returns (r: Result<nat>)
    ensures r == Crc16Of(data, offset, length)
  {
    if data.None? || offset < 0 || offset > |data.value| - 1 || offset + length > |data.value| {
      return Err(ValueError);
    }
    r := Crc16Loop(data.value, offset, length);
  }

  /** When the guard lets a call through, the result is the 16-bit CRC of the
      window `data[offset:offset + length]`, empty when `length <= 0`; every other
      call raises ValueError, in particular every call on empty data. */
  lemma Crc16Contract(data: Option<seq<byte>>, offset: int, length: int)
    ensures Crc16Of(data, offset, length).Err? <==>
      data.None? || offset < 0 || offset >= |data.value| || offset + length > |data.value|
    ensures Crc16Of(data, offset, length).Err? ==> Crc16Of(data, offset, length).error == ValueError
    ensures data == Some([]) ==> Crc16Of(data, offset, length) == Err(ValueError)
    ensures Crc16Of(data, offset, length).Ok? ==>
      Crc16Of(data, offset, length).value < 0x10000 &&
      (length <= 0 ==> Crc16Of(data, offset, length).value == 0xFFFF) &&
      (length > 0 ==> Crc16Of(data, offset, length).value == Checksum(data.value[offset..offset + length]))
  {
  }

  /** The CRC depends only on the window: the same bytes at offset 0 of a
      buffer that holds just them give the same value. */
  lemma Crc16Window(data: seq<byte>, offset: int, length: int)
    requires !Crc16Rejects(Some(data), offset, length) && length > 0
    ensures Crc16Of(Some(data), offset, length) == Crc16Of(Some(data[offset..offset + length]), 0, length)
  {
    var w := data[offset..offset + length];
    assert Window(w, 0, length) == w;
  }

  /** `crc16(b"123456789", 0, 9)` is 0x29B1, the check value of CRC-16/CCITT-FALSE. */
  lemma Crc16CheckValue()
    ensures Crc16Of(Some(Ascii("123456789")), 0, 9) == Ok(0x29B1)
  {
    var s := Ascii("123456789");
    assert Window(s, 0, 9) == s;
    CheckValue();
  }

  // gen_random_data and verify_data

  /** `verify_data`: the last two bytes must be the CRC of the rest, in `order`. */
  function VerifyData(data: seq<byte>, order: Endianness): Result<bool>
  {
    match Crc16Of(Some(SliceTo(data, -2)), 0, |data| - 2)
    case Err(e) => Err(e)
    case Ok(c) => Ok(SliceFrom(data, -2) == ToBytes2(c, order))
  }

  /** A body followed by its CRC tag. */
  function Tagged(body: seq<byte>, order: Endianness): (r: seq<byte>)
    ensures |r| == |body| + 2 && r[..|body|] == body
  {
    body + ToBytes2(Checksum(body), order)
  }

  /** `gen_random_data` with the random body as input: CRC the body, then append
      the tag. An empty body fails the guard of `crc16`. */
  method GenRandomData(body: seq<byte>, order: Endianness) returns (r: Result<seq<byte>>)
    ensures body == [] ==> r == Err(ValueError)
    ensures body != [] ==> r == Ok(Tagged(body, order))
  {
    assert body != [] ==> Window(body, 0, |body|) == body;
    var checksum := Crc16(Some(body), 0, |body|);
    if checksum.Err? {
      return Err(checksum.error);
    }
    var data := body;
    data := data + ToBytes2(checksum.value, order);
    r := Ok(data);
  }

  /** `verify_data` raises on every input of at most two bytes and otherwise
      compares the last two bytes with the CRC of the others. */
  lemma VerifyDataContract(data: seq<byte>, order: Endianness)
    ensures VerifyData(data, order).Err? <==> |data| <= 2
    ensures VerifyData(data, order).Err? ==> VerifyData(data, order).error == ValueError
    ensures |data| > 2 ==>
      VerifyData(data, order) == Ok(data[|data| - 2..] == ToBytes2(Checksum(data[..|data| - 2]), order))
  {
    if |data| > 2 {
      assert SliceTo(data, -2) == data[..|data| - 2];
      assert Window(data[..|data| - 2], 0, |data| - 2) == data[..|data| - 2];
    }
  }

  /** `verify_data` accepts exactly the tagged buffers with a non-empty body. */
  lemma VerifyAcceptsTagged(data: seq<byte>, order: Endianness)
    ensures VerifyData(data, order) == Ok(true) <==> |data| > 2 && data == Tagged(data[..|data| - 2], order)
  {
    VerifyDataContract(data, order);
    if |data| > 2 {
      assert data == data[..|data| - 2] + data[|data| - 2..];
    }
  }

  /** What `gen_random_data` produces, `verify_data` accepts. */
  lemma GeneratedVerifies(body: seq<byte>, order: Endianness)
    requires body != []
    ensures VerifyData(Tagged(body, order), order) == Ok(true)
  {
    var t := Tagged(body, order);
    assert t[..|t| - 2] == body;
    VerifyAcceptsTagged(t, order);
  }

  /** Replacing the tag by any other two bytes makes `verify_data` reject. */
  lemma TamperedTagRejected(body: seq<byte>, tag: seq<byte>, order: Endianness)
    requires body != [] && |tag| == 2 && tag != ToBytes2(Checksum(body), order)
    ensures VerifyData(body + tag, order) == Ok(false)
  {
    var d := body + tag;
    assert d[..|d| - 2] == body && d[|d| - 2..] == tag;
    VerifyDataContract(d, order);
  }
}

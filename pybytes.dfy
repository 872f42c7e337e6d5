/** The few Python built-ins on `bytes` and `int` that the checksum tools rely on:
    slicing with negative indices, `int.to_bytes(2, order)`, the `in` operator
    between two byte strings (a substring test), and `bytes.fromhex` on a string
    of hex digits. */
module PyBytes {

  /** A Python `bytes` element. */
  type byte = b: int | 0 <= b < 0x100

  /** The exceptions the modelled code can raise. */
  datatype PyError = ValueError | IndexError | KeyError

  datatype Result<T> = Ok(value: T) | Err(error: PyError)

  datatype Option<T> = None | Some(value: T)

  /** `sys.byteorder`: the byte order of the platform that runs the script. */
  datatype Endianness = Little | Big

  /** The bytes of an ASCII string literal, as `"...".encode("utf-8")` gives them. */
  function Ascii(s: string): (r: seq<byte>)
    requires forall i | 0 <= i < |s| :: s[i] as int < 0x80
    ensures |r| == |s|
    ensures forall i | 0 <= i < |s| :: r[i] == s[i] as int
  {
    if s == [] then [] else [s[0] as int] + Ascii(s[1..])
  }

  // Python slices

  /** The position a slice bound `i` stands for in a sequence of length `n`:
      a negative bound counts from the end, and the result is clamped to `0..n`. */
  function SliceBound(i: int, n: nat): (k: nat)
    ensures k <= n
    ensures 0 <= i <= n ==> k == i
    ensures i > n ==> k == n
    ensures -(n as int) <= i < 0 ==> k as int == n as int + i
    ensures i < -(n as int) ==> k == 0
  {
    if i < 0 then (if n + i < 0 then 0 else n + i)
    else if i > n then n else i
  }

  /** `s[i:]` */
  function SliceFrom<T>(s: seq<T>, i: int): (r: seq<T>)
    ensures |r| <= |s|
    ensures r == s[|s| - |r|..]
  {
    s[SliceBound(i, |s|)..]
  }

  /** `s[:j]` */
  function SliceTo<T>(s: seq<T>, j: int): (r: seq<T>)
    ensures |r| <= |s|
    ensures r == s[..|r|]
  {
    s[..SliceBound(j, |s|)]
  }

  /** `s.endswith(suffix)` */
  predicate EndsWith<T(==)>(s: seq<T>, suffix: seq<T>)
  {
    |suffix| <= |s| && s[|s| - |suffix|..] == suffix
  }

  // int.to_bytes(2, order)

  /** `x.to_bytes(2, order)` for a value that fits in two bytes. */
  function ToBytes2(x: int, order: Endianness): (r: seq<byte>)
    requires 0 <= x < 0x10000
    ensures |r| == 2
    ensures FromBytes2(r, order) == x
  {
    match order
    case Little => [x % 0x100, x / 0x100]
    case Big => [x / 0x100, x % 0x100]
  }

  /** `int.from_bytes(b, order)` for two bytes: the inverse of `ToBytes2`. */
  function FromBytes2(b: seq<byte>, order: Endianness): (x: int)
    requires |b| == 2
    ensures 0 <= x < 0x10000
  {
    match order
    case Little => b[0] as int + 0x100 * b[1] as int
    case Big => 0x100 * b[0] as int + b[1] as int
  }

  lemma ToBytes2Injective(x: int, y: int, order: Endianness)
    requires 0 <= x < 0x10000 && 0 <= y < 0x10000
    ensures ToBytes2(x, order) == ToBytes2(y, order) <==> x == y
  {
    if ToBytes2(x, order) == ToBytes2(y, order) {
      assert FromBytes2(ToBytes2(x, order), order) == FromBytes2(ToBytes2(y, order), order);
    }
  }

  lemma {:induction false} FromToBytes2(b: seq<byte>, order: Endianness)
    requires |b| == 2
    ensures ToBytes2(FromBytes2(b, order), order) == b
  {
  }

  // `needle in haystack` between two byte strings

  /** Python's `needle in haystack` for two `bytes` objects: true iff `needle`
      occurs in `haystack` as a contiguous substring (the empty string always does). */
  predicate Contains(haystack: seq<byte>, needle: seq<byte>)
  {
    exists i | 0 <= i <= |haystack| - |needle| :: OccursAt(haystack, needle, i)
  }

  /** `needle` occurs in `haystack` starting at position `i`. */
  predicate OccursAt(haystack: seq<byte>, needle: seq<byte>, i: int)
  {
    0 <= i && i + |needle| <= |haystack| && haystack[i..i + |needle|] == needle
  }

  /** For a one-byte needle the substring test is plain membership. */
  lemma ContainsSingle(haystack: seq<byte>, x: byte)
    ensures Contains(haystack, [x]) <==> x in haystack
  {
    if x in haystack {
      var i :| 0 <= i < |haystack| && haystack[i] == x;
      assert haystack[i..i + 1] == [x];
      assert OccursAt(haystack, [x], i);
    }
    if Contains(haystack, [x]) {
      var i: int :| OccursAt(haystack, [x], i);
      assert OccursAt(haystack, [x], i);
      assert haystack[i..i + 1][0] == x;
    }
  }

  /** Every byte of a contained needle occurs in the haystack. */
  lemma ContainedBytesOccur(haystack: seq<byte>, needle: seq<byte>, k: nat)
    requires Contains(haystack, needle) && k < |needle|
    ensures needle[k] in haystack
  {
    var i: int :| OccursAt(haystack, needle, i);
    assert OccursAt(haystack, needle, i);
    assert haystack[i..i + |needle|][k] == needle[k];
  }

  // bytes.fromhex

  predicate IsHexDigit(b: byte)
  {
    '0' as int <= b <= '9' as int || 'a' as int <= b <= 'f' as int || 'A' as int <= b <= 'F' as int
  }

  /** The value 0..15 of one hex digit, either case. */
  function HexDigitValue(b: byte): (v: nat)
    requires IsHexDigit(b)
    ensures v < 16
  {
    if b <= '9' as int then b - '0' as int
    else if b <= 'F' as int then b - 'A' as int + 10
    else b - 'a' as int + 10
  }

  /** `bytes.fromhex(s)` for a string made of hex digits only (no whitespace):
      it decodes digit pairs, high digit first, and fails with ValueError on a
      non-digit or on a digit left without a partner. */
  function FromHex(s: seq<byte>): (r: Result<seq<byte>>)
    ensures r.Ok? ==> 2 * |r.value| == |s|
    ensures r.Ok? <==> |s| % 2 == 0 && forall i | 0 <= i < |s| :: IsHexDigit(s[i])
    decreases |s|
  {
    if s == [] then Ok([])
    else if |s| == 1 || !IsHexDigit(s[0]) || !IsHexDigit(s[1]) then Err(ValueError)
    else
      match FromHex(s[2..])
      case Err(e) => Err(e)
      case Ok(rest) => Ok([16 * HexDigitValue(s[0]) + HexDigitValue(s[1])] + rest)
  }
}

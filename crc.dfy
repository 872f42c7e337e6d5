/** Facts tying 16-bit vectors to the naturals below 2^16. */
module Bits16 {
  /** XOR of two 16-bit values. */
  function Xor16(l: nat, m: bv16): (x: nat)
    requires l < 0x10000
    ensures x < 0x10000
  {
    ((l as bv16) ^ m) as int
  }

  lemma BvRoundTrip(x: bv16)
    ensures (x as int) as bv16 == x
  {
  }

  lemma BvBit15(x: bv16)
    ensures (x & 0x8000 != 0) <==> x as int >= 0x8000
  {
    assert (x & 0x8000 != 0) <==> ((x as int) / 0x8000) % 2 == 1 by {
      BvBit15Div(x);
    }
    Bit15(x as int);
  }

  lemma BvBit15Div(x: bv16)
    ensures (x & 0x8000 != 0) <==> ((x as int) / 0x8000) % 2 == 1
  {
  }

  lemma Bit15(l: nat)
    requires l < 0x10000
    ensures (l / 0x8000) % 2 == 1 <==> l >= 0x8000
  {
  }

  lemma BvShift(x: bv16)
    ensures (x << 1) as int == if x as int >= 0x8000 then 2 * (x as int) - 0x10000 else 2 * (x as int)
  {
  }

  lemma XorLink(x: bv16, m: bv16)
    ensures Xor16(x as int, m) == (x ^ m) as int
  {
    assert (x as int) as bv16 == x by {
      BvRoundTrip(x);
    }
  }
}

/** The CRC-16 engine shared by the three copies of `crc16`: MSB-first,
    polynomial 0x1021, initial value 0xFFFF, no reflection and no final XOR
    (the parameters of CRC-16/CCITT-FALSE, also called CRC-16/IBM-3740).

    Python integers are unbounded and the source masks the register to 16 bits
    only once, at the end. `Fold` is that computation on unbounded naturals;
    `Fold16` is the 16-bit register a fixed-width implementation keeps, and
    `FoldLink` proves the two agree. */
module Crc {
  import opened PyBytes
  import opened Bits16

  const Poly: bv16 := 0x1021
  const Init: nat := 0xFFFF

  /** Python's `c ^ m` for a right operand below 2^16: the bits from 16 up are
      left alone and the low 16 bits are XORed. Both XORs of the source have
      such an operand (`0x1021` and `byte << 8`). */
  function XorLow16(c: nat, m: bv16): nat
  {
    var high: nat := c / 0x10000;
    high * 0x10000 + Xor16(c % 0x10000, m)
  }

  /** `b << 8` for a byte `b`. */
  function ByteMask(b: byte): bv16
  {
    (b as bv16) << 8
  }

  /** One pass of the inner loop: test bit 15, shift left, XOR the polynomial. */
  function ShiftStep(c: nat): nat
  {
    if (c / 0x8000) % 2 == 1 then XorLow16(2 * c, Poly) else 2 * c
  }

  /** `k` passes of the inner loop. */
  function ShiftSteps(c: nat, k: nat): nat
  {
    if k == 0 then c else ShiftStep(ShiftSteps(c, k - 1))
  }

  /** One pass of the outer loop: XOR the byte into the high half, then eight shifts. */
  function ByteStep(c: nat, b: byte): nat
  {
    ShiftSteps(XorLow16(c, ByteMask(b)), 8)
  }

  /** The unmasked register after feeding the bytes of `s`, in order, from `c`. */
  function Fold(c: nat, s: seq<byte>): nat
  {
    if s == [] then c else ByteStep(Fold(c, s[..|s| - 1]), s[|s| - 1])
  }

  /** The CRC of `s`: the final register masked to 16 bits. */
  function Checksum(s: seq<byte>): (r: nat)
    ensures r < 0x10000
  {
    Fold(Init, s) % 0x10000
  }

  // The same computation on a 16-bit register, masked after every step

  function Step16(r: bv16): bv16
  {
    if r & 0x8000 != 0 then (r << 1) ^ Poly else r << 1
  }

  function Steps16(r: bv16, k: nat): bv16
  {
    if k == 0 then r else Step16(Steps16(r, k - 1))
  }

  function ByteStep16(r: bv16, b: byte): bv16
  {
    Steps16(r ^ ByteMask(b), 8)
  }

  function Fold16(r: bv16, s: seq<byte>): bv16
  {
    if s == [] then r else ByteStep16(Fold16(r, s[..|s| - 1]), s[|s| - 1])
  }

  // Bits above 15 never reach bit 15

  lemma Split10000(h: nat, x: nat)
    requires x < 0x10000
    ensures (h * 0x10000 + x) / 0x10000 == h
    ensures (h * 0x10000 + x) % 0x10000 == x
  {
  }

  lemma Split8000(h: nat, x: nat)
    requires x < 0x8000
    ensures (h * 0x8000 + x) / 0x8000 == h
  {
  }

  lemma XorLow16Masked(c: nat, m: bv16)
    ensures XorLow16(c, m) % 0x10000 == XorLow16(c % 0x10000, m)
    ensures XorLow16(c % 0x10000, m) == Xor16(c % 0x10000, m)
  {
    var h, l := c / 0x10000, c % 0x10000;
    Split10000(h, Xor16(l, m));
    Split10000(0, l);
  }

  /** Adding a multiple of 2^16 leaves the low 16 bits unchanged. */
  lemma ModShift(k: nat, y: nat)
    ensures (k * 0x10000 + y) % 0x10000 == y % 0x10000
  {
    var q, r := y / 0x10000, y % 0x10000;
    assert k * 0x10000 + y == (k + q) * 0x10000 + r;
    Split10000(k + q, r);
  }

  /** Bit 15 lies in the low 16 bits. */
  lemma Bit15Low(c: nat)
    ensures (c / 0x8000) % 2 == ((c % 0x10000) / 0x8000) % 2
  {
    var h, l := c / 0x10000, c % 0x10000;
    var b, l' := l / 0x8000, l % 0x8000;
    assert c == (2 * h + b) * 0x8000 + l';
    Split8000(2 * h + b, l');
  }

  /** The low 16 bits of `2 * c` come from the low 16 bits of `c`. */
  lemma DoubleLow(c: nat)
    ensures (2 * c) % 0x10000 == (2 * (c % 0x10000)) % 0x10000
  {
    var h, l := c / 0x10000, c % 0x10000;
    assert 2 * c == (2 * h) * 0x10000 + 2 * l;
    ModShift(2 * h, 2 * l);
  }

  /** Bit 15 and the low 16 bits after a shift depend only on the low 16 bits before it. */
  lemma ShiftStepMasked(c: nat)
    ensures ShiftStep(c) % 0x10000 == ShiftStep(c % 0x10000) % 0x10000
  {
    var l := c % 0x10000;
    assert l % 0x10000 == l;
    Bit15Low(c);
    DoubleLow(c);
    if (c / 0x8000) % 2 == 1 {
      XorLow16Masked(2 * c, Poly);
      XorLow16Masked(2 * l, Poly);
    }
  }

  /** One shift of the unbounded model from a 16-bit value, masked: `y` is the
      doubled value with bit 16 dropped. */
  lemma MaskedShift(l: nat, y: nat)
    requires l < 0x10000 && y == if l >= 0x8000 then 2 * l - 0x10000 else 2 * l
    ensures ShiftStep(l) % 0x10000 == if l >= 0x8000 then Xor16(y, Poly) else y
  {
    if l >= 0x8000 {
      Split8000(1, l - 0x8000);
      Split10000(1, y);
      XorLow16Masked(2 * l, Poly);
    } else {
      Split8000(0, l);
      Split10000(0, 2 * l);
    }
  }

  /** One masked shift of the unbounded model is one shift of the 16-bit register. */
  lemma StepLink(x: bv16)
    ensures ShiftStep(x as int) % 0x10000 == Step16(x) as int
  {
    BvBit15(x);
    BvShift(x);
    BvRoundTrip(x << 1);
    MaskedShift(x as int, (x << 1) as int);
  }

  lemma {:induction false} ShiftStepsLink(c: nat, x: bv16, k: nat)
    requires c % 0x10000 == x as int
    ensures ShiftSteps(c, k) % 0x10000 == Steps16(x, k) as int
  {
    if k > 0 {
      ShiftStepsLink(c, x, k - 1);
      ShiftStepMasked(ShiftSteps(c, k - 1));
      StepLink(Steps16(x, k - 1));
    }
  }

  lemma ByteStepLink(c: nat, x: bv16, b: byte)
    requires c % 0x10000 == x as int
    ensures ByteStep(c, b) % 0x10000 == ByteStep16(x, b) as int
  {
    var m := ByteMask(b);
    XorLow16Masked(c, m);
    XorLink(x, m);
    ShiftStepsLink(XorLow16(c, m), x ^ m, 8);
  }

  /** Masking the register after every step, as a 16-bit implementation does,
      gives the value the source gets by masking once at the end. */
  lemma {:induction false} FoldLink(c: nat, x: bv16, s: seq<byte>)
    requires c % 0x10000 == x as int
    ensures Fold(c, s) % 0x10000 == Fold16(x, s) as int
  {
    if s != [] {
      FoldLink(c, x, s[..|s| - 1]);
      ByteStepLink(Fold(c, s[..|s| - 1]), Fold16(x, s[..|s| - 1]), s[|s| - 1]);
    }
  }

  /** The CRC through the 16-bit register. */
  lemma ChecksumBy16(s: seq<byte>)
    ensures Checksum(s) == Fold16(0xFFFF, s) as int
  {
    FoldLink(Init, 0xFFFF, s);
  }

  // Fold structure

  /** The CRC of `a + b` continues from the register left after `a`. */
  lemma {:induction false} FoldAppend(c: nat, a: seq<byte>, b: seq<byte>)
    ensures Fold(c, a + b) == Fold(Fold(c, a), b)
  {
    if b == [] {
      assert a + b == a;
    } else {
      assert (a + b)[..|a + b| - 1] == a + b[..|b| - 1];
      FoldAppend(c, a, b[..|b| - 1]);
    }
  }

  // The loop itself

  /** The bytes `range(0, length)` visits from `offset`: none when `length <= 0`. */
  function Window(data: seq<byte>, offset: nat, length: int): seq<byte>
    requires length <= 0 || offset + length <= |data|
  {
    if length <= 0 then [] else data[offset..offset + length]
  }

  /** What the loop of `crc16` returns: IndexError when the window runs past
      the end of `data`, and otherwise the CRC of the window. */
  function LoopResult(data: seq<byte>, offset: nat, length: int): Result<nat>
  {
    if length > 0 && offset + length > |data| then Err(IndexError)
    else Ok(Checksum(Window(data, offset, length)))
  }

  /** The window the loop has covered when it ends is the whole window. */
  lemma WindowEnd(data: seq<byte>, offset: nat, length: int, i: nat)
    requires i == (if length > 0 then length else 0) && (i == 0 || offset + i <= |data|)
    ensures Window(data, offset, i) == Window(data, offset, length)
  {
  }

  /** Widening the window by one byte feeds that byte to the register. */
  lemma WindowSnoc(data: seq<byte>, offset: nat, i: nat)
    requires offset + i < |data|
    ensures Fold(Init, Window(data, offset, i + 1)) == ByteStep(Fold(Init, Window(data, offset, i)), data[offset + i])
  {
    var w := Window(data, offset, i + 1);
    assert w[..i] == Window(data, offset, i);
  }

  /** The body of every copy of `crc16` after its argument guard: the outer loop
      over `data[offset + i]` for `i` in `range(0, length)` and the inner 8-step
      shift loop, on an unbounded register masked once at the end. Indexing past
      the end of `data` raises IndexError, as `data[offset + i]` does in Python. */
  method Crc16Loop(data: seq<byte>, offset: nat, length: int) returns (r: Result<nat>)
    ensures r == LoopResult(data, offset, length)
  {
    var crc: nat := 0xFFFF;
    var i := 0;
    while i < length
      invariant 0 <= i <= (if length > 0 then length else 0)
      invariant i == 0 || offset + i <= |data|
      invariant crc == Fold(Init, Window(data, offset, i))
    {
      if offset + i >= |data| {
        return Err(IndexError);
      }
      crc := FeedByte(data, offset, i, crc);
      i := i + 1;
    }
    ghost var w := Window(data, offset, length);
    assert crc == Fold(Init, w) by {
      WindowEnd(data, offset, length, i);
    }
    r := Ok(crc % 0x10000);
  }

  /** One pass of the outer loop of `crc16`: XOR `data[offset + i] << 8` into
      the register, then the eight shifts of the inner loop. */
  method FeedByte(data: seq<byte>, offset: nat, i: nat, c: nat) returns (crc: nat)
    requires offset + i < |data| && c == Fold(Init, Window(data, offset, i))
    ensures crc == Fold(Init, Window(data, offset, i + 1))
  {
    var b := data[offset + i];
    WindowSnoc(data, offset, i);
    crc := ShiftByte(XorLow16(c, ByteMask(b)));
  }

  /** The inner loop of `crc16`: eight passes of test, shift and XOR. */
  method ShiftByte(c: nat) returns (crc: nat)
    ensures crc == ShiftSteps(c, 8)
  {
    crc := c;
    var j := 0;
    while j < 8
      invariant 0 <= j <= 8
      invariant crc == ShiftSteps(c, j)
    {
      if (crc / 0x8000) % 2 == 1 {
        crc := XorLow16(2 * crc, Poly);
      } else {
        crc := 2 * crc;
      }
      j := j + 1;
    }
  }

  lemma {:induction false} Fold16Snoc(r: bv16, s: seq<byte>, b: byte)
    ensures Fold16(r, s + [b]) == ByteStep16(Fold16(r, s), b)
  {
    assert (s + [b])[..|s + [b]| - 1] == s;
  }

  /** The check value of these parameters: the CRC of the ASCII digits "123456789". */
  lemma CheckValue()
    ensures Checksum(Ascii("123456789")) == 0x29B1
  {
    var s := Ascii("123456789");
    assert s == [0x31, 0x32, 0x33, 0x34, 0x35, 0x36, 0x37, 0x38, 0x39];
    ChecksumBy16(s);
    Digits16(s);
  }

  /** The register after each digit of "123456789", fed through the 16-bit model. */
  lemma Digits16(s: seq<byte>)
    requires s == [0x31, 0x32, 0x33, 0x34, 0x35, 0x36, 0x37, 0x38, 0x39]
    ensures Fold16(0xFFFF, s) == 0x29B1
  {
    DigitSteps();
    var t0: seq<byte> := [];
    var t1 := t0 + [0x31];
    Fold16Snoc(0xFFFF, t0, 0x31);
    var t2 := t1 + [0x32];
    Fold16Snoc(0xFFFF, t1, 0x32);
    var t3 := t2 + [0x33];
    Fold16Snoc(0xFFFF, t2, 0x33);
    var t4 := t3 + [0x34];
    Fold16Snoc(0xFFFF, t3, 0x34);
    var t5 := t4 + [0x35];
    Fold16Snoc(0xFFFF, t4, 0x35);
    var t6 := t5 + [0x36];
    Fold16Snoc(0xFFFF, t5, 0x36);
    var t7 := t6 + [0x37];
    Fold16Snoc(0xFFFF, t6, 0x37);
    var t8 := t7 + [0x38];
    Fold16Snoc(0xFFFF, t7, 0x38);
    var t9 := t8 + [0x39];
    Fold16Snoc(0xFFFF, t8, 0x39);
    assert t9 == s;
  }

  lemma DigitSteps()
    ensures ByteStep16(0xFFFF, 0x31) == 0xC782
    ensures ByteStep16(0xC782, 0x32) == 0x3DBA
    ensures ByteStep16(0x3DBA, 0x33) == 0x5BCE
    ensures ByteStep16(0x5BCE, 0x34) == 0x5349
    ensures ByteStep16(0x5349, 0x35) == 0x4560
    ensures ByteStep16(0x4560, 0x36) == 0x2EF4
    ensures ByteStep16(0x2EF4, 0x37) == 0x7718
    ensures ByteStep16(0x7718, 0x38) == 0xA12B
    ensures ByteStep16(0xA12B, 0x39) == 0x29B1
  {
  }
}

/**
 * unicode.go: the UTF-16 BE/LE validators and the scalar-to-UTF-8 encoder.
 *
 * The validators follow the source exactly, including its test for "a low
 * surrogate must follow", which is c in [0xD800, 0xFFFF] rather than the
 * high-surrogate range [0xD800, 0xDBFF] of section 2.2 of RFC 2781: any
 * unit from 0xD800 up, lone low surrogates and 0xE000-0xFFFF included, must
 * be followed by a unit in [0xDC00, 0xDFFF].
 */
module Unicode {
  import opened Base

  // ---------------------------------------------------------------------
  // UTF-16 code units
  // ---------------------------------------------------------------------

  /**
   * The 16-bit unit formed by two bytes: `uint16(b0)<<8 ^ uint16(b1)` in big
   * endian, `uint16(b1)<<8 ^ uint16(b0)` in little endian. The two halves
   * occupy disjoint bits, so the `^` is an addition.
   */
  function CodeUnit(b0: Byte, b1: Byte, order: ByteOrder): (c: int)
    ensures 0 <= c < 0x10000
    ensures c / 0x100 == (if order == BigEndian then b0 else b1)
    ensures c % 0x100 == (if order == BigEndian then b1 else b0)
  {
    match order
    case BigEndian => b0 * 0x100 + b1
    case LittleEndian => b1 * 0x100 + b0
  }

  /** The unit starting at byte `i`. */
  function UnitAt(s: seq<Byte>, i: int, order: ByteOrder): int
    requires 0 <= i && i + 1 < |s|
  {
    CodeUnit(s[i], s[i + 1], order)
  }

  predicate IsLowSurrogate(c: int) { 0xDC00 <= c <= 0xDFFF }

  /** The source's test for "the next unit must be a low surrogate". */
  predicate OpensPair(c: int) { 0xD800 <= c <= 0xFFFF }

  /** The first unit is the byte-order mark U+FEFF (section 3.2 of RFC 2781). */
  predicate StartsWithBom(s: seq<Byte>, order: ByteOrder)
    requires |s| >= 2
  {
    CodeUnit(s[0], s[1], order) == 0xFEFF
  }

  /**
   * The language the BOM-less scan accepts: the bytes split into units below
   * 0xD800, and pairs of a unit of at least 0xD800 followed by a low
   * surrogate.
   */
  predicate PairedUnits(s: seq<Byte>, order: ByteOrder)
    requires |s| % 2 == 0
    decreases |s|
  {
    || s == []
    || (!OpensPair(CodeUnit(s[0], s[1], order)) && PairedUnits(s[2..], order))
    || (|s| >= 4 && OpensPair(CodeUnit(s[0], s[1], order))
        && IsLowSurrogate(CodeUnit(s[2], s[3], order)) && PairedUnits(s[4..], order))
  }

  /** What isValidUTF16BE (order BigEndian) and isValidUTF16LE accept. */
  predicate Utf16Valid(s: seq<Byte>, order: ByteOrder) {
    && |s| > 0
    && |s| % 2 == 0
    && (StartsWithBom(s, order) || PairedUnits(s, order))
  }

  /** What the rest of the input must be, given the is_surrogate_pairs flag. */
  ghost predicate PairedPending(expectLow: bool, rest: seq<Byte>, order: ByteOrder)
    requires |rest| % 2 == 0
  {
    if !expectLow then PairedUnits(rest, order)
    else |rest| >= 2 && IsLowSurrogate(CodeUnit(rest[0], rest[1], order)) && PairedUnits(rest[2..], order)
  }

  /** The scan shared by isValidUTF16BE and isValidUTF16LE, which differ only in `order`. */
  method ValidateUtf16(content: seq<Byte>, order: ByteOrder) returns (ok: bool)
    ensures ok == Utf16Valid(content, order)
  {
    if |content| == 0 {
      return false;
    }
    if |content| % 2 != 0 {  // len(content)&0x1 != 0
      return false;
    }
    var bom := CodeUnit(content[0], content[1], order);
    if bom == 0xFEFF {
      return true;
    }
    var expectLow := false;
    var i := 0;
    while i < |content|
      invariant 0 <= i <= |content| && i % 2 == 0
      invariant PairedUnits(content, order) == PairedPending(expectLow, content[i..], order)
    {
      var c := CodeUnit(content[i], content[i + 1], order);
      ghost var rest := content[i..];
      assert rest[2..] == content[i + 2..];
      assert |rest| >= 4 ==> rest[4..] == content[i + 4..] && rest[2..][2..] == rest[4..];
      if expectLow {
        expectLow := false;
        if c < 0xDC00 || c > 0xDFFF {
          return false;
        }
      } else {
        if c >= 0xD800 && c <= 0xFFFF {
          expectLow := true;
        }
      }
      i := i + 2;
    }
    return !expectLow;
  }

  /** isValidUTF16BE. */
  method IsValidUtf16BE(content: seq<Byte>) returns (ok: bool)
    ensures ok == Utf16Valid(content, BigEndian)
  {
    ok := ValidateUtf16(content, BigEndian);
  }

  /** isValidUTF16LE. */
  method IsValidUtf16LE(content: seq<Byte>) returns (ok: bool)
    ensures ok == Utf16Valid(content, LittleEndian)
  {
    ok := ValidateUtf16(content, LittleEndian);
  }

  /** isValidUTF16: both byte orders, computed independently, and their disjunction. */
  method IsValidUtf16(content: seq<Byte>) returns (isUtf16: bool, be: bool, le: bool)
    ensures be == Utf16Valid(content, BigEndian)
    ensures le == Utf16Valid(content, LittleEndian)
    ensures isUtf16 == (be || le)
  {
    be := IsValidUtf16BE(content);
    le := IsValidUtf16LE(content);
    isUtf16 := be || le;
  }

  /** Empty and odd-length inputs are rejected in both byte orders. */
  lemma Utf16RejectsEmptyAndOdd(s: seq<Byte>, order: ByteOrder)
    requires |s| == 0 || |s| % 2 == 1
    ensures !Utf16Valid(s, order)
  {
  }

  /**
   * The BOM fast path: an even-length input starting FE FF is valid UTF-16BE
   * and one starting FF FE is valid UTF-16LE, whatever follows; either way
   * isValidUTF16 reports true.
   */
  lemma Utf16BomAccepted(s: seq<Byte>)
    requires |s| >= 2 && |s| % 2 == 0
    ensures s[0] == 0xFE && s[1] == 0xFF ==> Utf16Valid(s, BigEndian)
    ensures s[0] == 0xFF && s[1] == 0xFE ==> Utf16Valid(s, LittleEndian)
    ensures (s[0] == 0xFE && s[1] == 0xFF) || (s[0] == 0xFF && s[1] == 0xFE) ==>
              Utf16Valid(s, BigEndian) || Utf16Valid(s, LittleEndian)
  {
  }

  /** The first unit alone decides how many bytes the first piece takes. */
  lemma PairedUnitsHead(s: seq<Byte>, order: ByteOrder)
    requires |s| % 2 == 0 && s != []
    ensures PairedUnits(s, order) ==
            if !OpensPair(CodeUnit(s[0], s[1], order)) then PairedUnits(s[2..], order)
            else |s| >= 4 && IsLowSurrogate(CodeUnit(s[2], s[3], order)) && PairedUnits(s[4..], order)
  {
  }

  /** After a well-formed prefix, the whole is accepted exactly when the rest is. */
  lemma {:induction false} PairedUnitsConcat(a: seq<Byte>, b: seq<Byte>, order: ByteOrder)
    requires |a| % 2 == 0 && |b| % 2 == 0
    requires PairedUnits(a, order)
    ensures PairedUnits(a + b, order) <==> PairedUnits(b, order)
  {
    if a != [] {
      PairedUnitsHead(a, order);
      PairedUnitsHead(a + b, order);
      if !OpensPair(CodeUnit(a[0], a[1], order)) {
        assert (a + b)[2..] == a[2..] + b;
        PairedUnitsConcat(a[2..], b, order);
      } else {
        assert (a + b)[4..] == a[4..] + b;
        PairedUnitsConcat(a[4..], b, order);
      }
    } else {
      assert a + b == b;
    }
  }

  /** Without a BOM, units below 0xD800 never set the flag: such inputs are accepted. */
  lemma {:induction false} BelowD800Accepted(s: seq<Byte>, order: ByteOrder)
    requires |s| % 2 == 0
    requires forall i :: 0 <= i < |s| - 1 && i % 2 == 0 ==> UnitAt(s, i, order) < 0xD800
    ensures PairedUnits(s, order)
    ensures |s| > 0 ==> Utf16Valid(s, order)
  {
    if s != [] {
      assert UnitAt(s, 0, order) < 0xD800;
      forall i | 0 <= i < |s[2..]| - 1 && i % 2 == 0
        ensures UnitAt(s[2..], i, order) < 0xD800
      {
        assert UnitAt(s[2..], i, order) == UnitAt(s, i + 2, order);
      }
      BelowD800Accepted(s[2..], order);
    }
  }

  /**
   * Without a BOM, a unit in [0xD800, 0xFFFF] at a character boundary must be
   * followed at once by a unit in [0xDC00, 0xDFFF]: when it is the last unit,
   * or the next unit is not a low surrogate, the input is rejected.
   */
  lemma DanglingOpenerRejected(t: seq<Byte>, b0: Byte, b1: Byte, rest: seq<Byte>, order: ByteOrder)
    requires |t| % 2 == 0 && |rest| % 2 == 0
    requires PairedUnits(t, order)
    requires OpensPair(CodeUnit(b0, b1, order))
    requires rest == [] || !IsLowSurrogate(CodeUnit(rest[0], rest[1], order))
    ensures !PairedUnits(t + [b0, b1] + rest, order)
  {
    assert t + [b0, b1] + rest == t + ([b0, b1] + rest);
    PairedUnitsConcat(t, [b0, b1] + rest, order);
    PairedUnitsHead([b0, b1] + rest, order);
    assert ([b0, b1] + rest)[2..] == rest;
  }

  /**
   * The source's opener test exhibited: U+E000 followed by "A" (well-formed
   * UTF-16) is rejected in big endian, while two lone low surrogates (not
   * well-formed) are accepted.
   */
  lemma OpenerRangeExamples()
    ensures !Utf16Valid([0xE0, 0x00, 0x00, 0x41], BigEndian)
    ensures Utf16Valid([0xDC, 0x00, 0xDC, 0x00], BigEndian)
  {
    PairedUnitsHead([0xE0, 0x00, 0x00, 0x41], BigEndian);
    PairedUnitsHead([0xDC, 0x00, 0xDC, 0x00], BigEndian);
    assert [0xDC, 0x00, 0xDC, 0x00][4..] == [];
  }

  /** Swap the two bytes of every pair (a trailing odd byte stays). */
  function SwapPairs(s: seq<Byte>): (r: seq<Byte>)
    ensures |r| == |s|
    decreases |s|
  {
    if |s| < 2 then s else [s[1], s[0]] + SwapPairs(s[2..])
  }

  /** Swapping bytes twice gives the input back. */
  lemma {:induction false} SwapPairsInvolution(s: seq<Byte>)
    ensures SwapPairs(SwapPairs(s)) == s
  {
    if |s| >= 2 {
      SwapPairsInvolution(s[2..]);
      assert SwapPairs(s)[2..] == SwapPairs(s[2..]);
    }
  }

  lemma {:induction false} PairedUnitsSwap(s: seq<Byte>)
    requires |s| % 2 == 0
    ensures PairedUnits(s, LittleEndian) == PairedUnits(SwapPairs(s), BigEndian)
  {
    if s != [] {
      var w := SwapPairs(s);
      assert w[2..] == SwapPairs(s[2..]);
      PairedUnitsSwap(s[2..]);
      if |s| >= 4 {
        assert w[2..][..2] == [s[3], s[2]];
        assert w[4..] == SwapPairs(s[4..]);
        PairedUnitsSwap(s[4..]);
      }
    }
  }

  /** The two validators are mirror images: LE on `s` is BE on `s` with each pair swapped. */
  lemma Utf16LeIsSwappedBe(s: seq<Byte>)
    ensures Utf16Valid(s, LittleEndian) == Utf16Valid(SwapPairs(s), BigEndian)
  {
    if |s| % 2 == 0 {
      PairedUnitsSwap(s);
    }
  }

  /** And the converse: BE on `s` is LE on `s` with each pair swapped. */
  lemma Utf16BeIsSwappedLe(s: seq<Byte>)
    ensures Utf16Valid(s, BigEndian) == Utf16Valid(SwapPairs(s), LittleEndian)
  {
    Utf16LeIsSwappedBe(SwapPairs(s));
    SwapPairsInvolution(s);
  }

  // ---------------------------------------------------------------------
  // Bit helpers for the encoder's loops
  // ---------------------------------------------------------------------

  function Pow2(k: nat): (p: nat)
    ensures p >= 1
  {
    if k == 0 then 1 else 2 * Pow2(k - 1)
  }

  /** Go's `x & (1 << k)` for a non-negative x. */
  function MaskBit(x: nat, k: nat): nat {
    if (x / Pow2(k)) % 2 == 1 then Pow2(k) else 0
  }

  /** The bits 0 .. k-1 of x, as the loops accumulate them one by one. */
  ghost function LowBits(x: nat, k: nat): nat {
    if k == 0 then 0 else LowBits(x, k - 1) + MaskBit(x, k - 1)
  }

  lemma MulAtLeast(m: int, d: int)
    requires m >= 1 && d > 0
    ensures m * d >= d
  {
    assert m * d == (m - 1) * d + d;
    assert (m - 1) * d >= 0;
  }

  lemma DivModUnique(x: int, d: int, q: int, r: int)
    requires d > 0 && x == q * d + r && 0 <= r < d
    ensures x / d == q && x % d == r
  {
    var q', r' := x / d, x % d;
    assert x == q' * d + r';
    assert (q - q') * d == r' - r;
    if q > q' {
      MulAtLeast(q - q', d);
    } else if q < q' {
      MulAtLeast(q' - q, d);
    }
  }

  /** x mod 2p is x mod p plus bit p of x. */
  lemma ModDoubleStep(x: nat, p: nat)
    requires p > 0
    ensures x % (2 * p) == x % p + (if (x / p) % 2 == 1 then p else 0)
  {
    var q, r := x / p, x % p;
    var q2, b := q / 2, q % 2;
    assert x == q * p + r;
    assert q == 2 * q2 + b;
    assert x == q2 * (2 * p) + (b * p + r) by {
      assert q * p == (2 * q2 + b) * p == q2 * (2 * p) + b * p;
    }
    assert 0 <= b * p + r < 2 * p by {
      if b == 1 { assert b * p == p; } else { assert b * p == 0; }
    }
    DivModUnique(x, 2 * p, q2, b * p + r);
    if b == 1 { assert b * p == p; } else { assert b * p == 0; }
  }

  /** The accumulated low bits are x mod 2^k. */
  lemma {:induction false} LowBitsIsMod(x: nat, k: nat)
    ensures LowBits(x, k) == x % Pow2(k)
  {
    if k > 0 {
      LowBitsIsMod(x, k - 1);
      ModDoubleStep(x, Pow2(k - 1));
    }
  }

  lemma {:induction false} Pow2Monotone(j: nat, k: nat)
    requires j <= k
    ensures Pow2(j) <= Pow2(k)
  {
    if j < k {
      Pow2Monotone(j, k - 1);
    }
  }

  /** Bits accumulated up to k <= n stay below 2^n. */
  lemma LowBitsBelow(x: nat, k: nat, n: nat)
    requires k <= n
    ensures LowBits(x, k) < Pow2(n)
  {
    LowBitsIsMod(x, k);
    Pow2Monotone(k, n);
  }

  lemma Pow2Values()
    ensures Pow2(3) == 8 && Pow2(4) == 16 && Pow2(5) == 32 && Pow2(6) == 64
  {
  }

  /** The bit groups the two-byte loop collects are those of the RFC 3629 table. */
  lemma TwoByteGroups(u: nat)
    requires u <= 0x7FF
    ensures LowBits(u % 64, 6) == u % 0x40
    ensures LowBits(u / 64, 5) == u / 0x40
  {
    Pow2Values();
    LowBitsIsMod(u % 64, 6);
    LowBitsIsMod(u / 64, 5);
    DivModUnique(u / 64, 32, 0, u / 64);
  }

  /** The bit groups the three-byte loop collects are those of the RFC 3629 table. */
  lemma ThreeByteGroups(u: nat)
    requires u <= 0xFFFF
    ensures LowBits(u % 64, 6) == u % 0x40
    ensures LowBits(u / 64, 6) == (u / 0x40) % 0x40
    ensures LowBits(u / 4096, 4) == u / 0x1000
  {
    Pow2Values();
    LowBitsIsMod(u % 64, 6);
    LowBitsIsMod(u / 64, 6);
    LowBitsIsMod(u / 4096, 4);
    DivModUnique(u / 4096, 16, 0, u / 4096);
  }

  /** The bit groups the four-byte loop collects are those of the RFC 3629 table. */
  lemma FourByteGroups(u: nat)
    requires u <= 0x10FFFF
    ensures LowBits(u % 64, 6) == u % 0x40
    ensures LowBits(u / 64, 6) == (u / 0x40) % 0x40
    ensures LowBits(u / 4096, 6) == (u / 0x1000) % 0x40
    ensures LowBits(u / 262144, 3) == u / 0x40000
  {
    Pow2Values();
    LowBitsIsMod(u % 64, 6);
    LowBitsIsMod(u / 64, 6);
    LowBitsIsMod(u / 4096, 6);
    LowBitsIsMod(u / 262144, 3);
    DivModUnique(u / 262144, 8, 0, u / 262144);
  }

  // ---------------------------------------------------------------------
  // UTF-8 (section 3 of RFC 3629)
  // ---------------------------------------------------------------------

  /** Go's `rune` (int32), restricted to non-negative values. */
  type Rune = r: int | 0 <= r < 0x8000_0000

  predicate IsContinuation(b: Byte) { 0x80 <= b <= 0xBF }

  /**
   * The UTF-8 byte sequence of code point u by the table of section 3 of
   * RFC 3629 (lead byte pattern, then 6-bit groups), without excluding the
   * surrogate range, and empty above 0x10FFFF.
   */
  function Utf8Encode(u: nat): seq<Byte> {
    if u <= 0x7F then [u]
    else if u <= 0x7FF then [0xC0 + u / 0x40, 0x80 + u % 0x40]
    else if u <= 0xFFFF then [0xE0 + u / 0x1000, 0x80 + (u / 0x40) % 0x40, 0x80 + u % 0x40]
    else if u <= 0x10FFFF then
      [0xF0 + u / 0x40000, 0x80 + (u / 0x1000) % 0x40, 0x80 + (u / 0x40) % 0x40, 0x80 + u % 0x40]
    else []
  }

  /**
   * Decodes one UTF-8 byte sequence to its code point: the lead byte fixes the
   * length, every other byte must be a continuation byte, and overlong forms
   * and values above 0x10FFFF are refused. Surrogate code points are decoded
   * like any other, matching the encoder.
   */
  function Utf8Decode(s: seq<Byte>): Option<nat> {
    if |s| == 1 && s[0] <= 0x7F then Some(s[0])
    else if |s| == 2 && 0xC0 <= s[0] <= 0xDF && IsContinuation(s[1]) then
      var u := (s[0] as int - 0xC0) * 0x40 + (s[1] as int - 0x80);
      if u >= 0x80 then Some(u) else None
    else if |s| == 3 && 0xE0 <= s[0] <= 0xEF && IsContinuation(s[1]) && IsContinuation(s[2]) then
      var u := (s[0] as int - 0xE0) * 0x1000 + (s[1] as int - 0x80) * 0x40 + (s[2] as int - 0x80);
      if u >= 0x800 then Some(u) else None
    else if |s| == 4 && 0xF0 <= s[0] <= 0xF7 && IsContinuation(s[1]) && IsContinuation(s[2])
            && IsContinuation(s[3]) then
      var u := (s[0] as int - 0xF0) * 0x40000 + (s[1] as int - 0x80) * 0x1000
                + (s[2] as int - 0x80) * 0x40 + (s[3] as int - 0x80);
      if 0x10000 <= u <= 0x10FFFF then Some(u) else None
    else None
  }

  /**
   * unicodeRuneToUtf8: one byte up to 0x7F, then two, three or four bytes
   * built by the loops below, and no bytes above 0x10FFFF.
   */
  method UnicodeRuneToUtf8(unicode: Rune) returns (utf8codes: seq<Byte>)
    ensures utf8codes == Utf8Encode(unicode)
  {
    utf8codes := [];
    if unicode <= 0x7F {
      utf8codes := utf8codes + [unicode];
    } else if unicode <= 0x7FF {
      utf8codes := EncodeTwoBytes(unicode);
    } else if unicode <= 0xFFFF {
      utf8codes := EncodeThreeBytes(unicode);
    } else if unicode <= 0x10FFFF {
      utf8codes := EncodeFourBytes(unicode);
    }
  }

  /*
   * The three multi-byte branches of unicodeRuneToUtf8. Each starts the lead
   * byte at 192, 224 or 240 and every continuation byte at 128, then ORs in
   * one bit of the code point per loop step k. Each step sets a bit that is
   * still clear, so the OR is an addition of `x & (1 << k)`.
   */

  /** The branch for 0x80 .. 0x7FF: bits 0-5 into c2, bits 6-10 into c1. */
  method EncodeTwoBytes(unicode: Rune) returns (utf8codes: seq<Byte>)
    requires 0x7F < unicode <= 0x7FF
    ensures utf8codes == Utf8Encode(unicode)
  {
    utf8codes := [];
    var c1: Byte, c2: Byte := 192, 128;
    for k := 0 to 11
      invariant c2 == 128 + LowBits(unicode % 64, if k < 6 then k else 6)
      invariant c1 == 192 + LowBits(unicode / 64, if k < 6 then 0 else k - 6)
    {
      if k < 6 {
        LowBitsBelow(unicode % 64, k + 1, 6);
        c2 := c2 + MaskBit(unicode % 64, k);
      } else {
        LowBitsBelow(unicode / 64, k - 5, 5);
        c1 := c1 + MaskBit(unicode / 64, k - 6);
      }
    }
    TwoByteGroups(unicode);
    utf8codes := utf8codes + [c1];
    utf8codes := utf8codes + [c2];
  }

  /** The branch for 0x800 .. 0xFFFF: bits 0-5 into c3, 6-11 into c2, 12-15 into c1. */
  method EncodeThreeBytes(unicode: Rune) returns (utf8codes: seq<Byte>)
    requires 0x7FF < unicode <= 0xFFFF
    ensures utf8codes == Utf8Encode(unicode)
  {
    utf8codes := [];
    var c1: Byte, c2: Byte, c3: Byte := 224, 128, 128;
    for k := 0 to 16
      invariant c3 == 128 + LowBits(unicode % 64, if k < 6 then k else 6)
      invariant c2 == 128 + LowBits(unicode / 64, if k < 6 then 0 else if k < 12 then k - 6 else 6)
      invariant c1 == 224 + LowBits(unicode / 4096, if k < 12 then 0 else k - 12)
    {
      if k < 6 {
        LowBitsBelow(unicode % 64, k + 1, 6);
        c3 := c3 + MaskBit(unicode % 64, k);
      } else if k < 12 {
        LowBitsBelow(unicode / 64, k - 5, 6);
        c2 := c2 + MaskBit(unicode / 64, k - 6);
      } else {
        LowBitsBelow(unicode / 4096, k - 11, 4);
        c1 := c1 + MaskBit(unicode / 4096, k - 12);
      }
    }
    ThreeByteGroups(unicode);
    utf8codes := utf8codes + [c1];
    utf8codes := utf8codes + [c2];
    utf8codes := utf8codes + [c3];
  }

  /** The branch for 0x10000 .. 0x10FFFF: bits 0-5 into c4, 6-11 into c3, 12-17 into c2, 18-20 into c1. */
  method EncodeFourBytes(unicode: Rune) returns (utf8codes: seq<Byte>)
    requires 0xFFFF < unicode <= 0x10FFFF
    ensures utf8codes == Utf8Encode(unicode)
  {
    utf8codes := [];
    var c1: Byte, c2: Byte, c3: Byte, c4: Byte := 240, 128, 128, 128;
    for k := 0 to 21
      invariant c4 == 128 + LowBits(unicode % 64, if k < 6 then k else 6)
      invariant c3 == 128 + LowBits(unicode / 64, if k < 6 then 0 else if k < 12 then k - 6 else 6)
      invariant c2 == 128 + LowBits(unicode / 4096, if k < 12 then 0 else if k < 18 then k - 12 else 6)
      invariant c1 == 240 + LowBits(unicode / 262144, if k < 18 then 0 else k - 18)
    {
      if k < 6 {
        LowBitsBelow(unicode % 64, k + 1, 6);
        c4 := c4 + MaskBit(unicode % 64, k);
      } else if k < 12 {
        LowBitsBelow(unicode / 64, k - 5, 6);
        c3 := c3 + MaskBit(unicode / 64, k - 6);
      } else if k < 18 {
        LowBitsBelow(unicode / 4096, k - 11, 6);
        c2 := c2 + MaskBit(unicode / 4096, k - 12);
      } else {
        LowBitsBelow(unicode / 262144, k - 17, 3);
        c1 := c1 + MaskBit(unicode / 262144, k - 18);
      }
    }
    FourByteGroups(unicode);
    utf8codes := utf8codes + [c1];
    utf8codes := utf8codes + [c2];
    utf8codes := utf8codes + [c3];
    utf8codes := utf8codes + [c4];
  }

  /** Output length: 1, 2, 3 or 4 bytes by range, and nothing above 0x10FFFF. */
  lemma Utf8EncodeLength(u: nat)
    ensures |Utf8Encode(u)| == if u <= 0x7F then 1 else if u <= 0x7FF then 2
                               else if u <= 0xFFFF then 3 else if u <= 0x10FFFF then 4 else 0
  {
  }

  /**
   * Byte shape: the lead byte carries the length pattern 0xxxxxxx, 110xxxxx,
   * 1110xxxx or 11110xxx with the high bits of u, and every other byte is a
   * continuation byte 10xxxxxx carrying a 6-bit group.
   */
  lemma Utf8EncodeShape(u: nat)
    requires u <= 0x10FFFF
    ensures var r := Utf8Encode(u);
            && (|r| == 1 ==> r[0] == u)
            && (|r| == 2 ==> 0xC2 <= r[0] <= 0xDF && r[0] - 0xC0 == u / 0x40)
            && (|r| == 3 ==> 0xE0 <= r[0] <= 0xEF && r[0] - 0xE0 == u / 0x1000)
            && (|r| == 4 ==> 0xF0 <= r[0] <= 0xF4 && r[0] - 0xF0 == u / 0x40000)
            && (forall i :: 1 <= i < |r| ==> IsContinuation(r[i]))
            && (|r| >= 2 ==> r[|r| - 1] - 0x80 == u % 0x40)
  {
  }

  /** Round trip: decoding the encoder's output gives the code point back, surrogates included. */
  lemma Utf8RoundTrip(u: nat)
    requires u <= 0x10FFFF
    ensures Utf8Decode(Utf8Encode(u)) == Some(u)
  {
    if 0x80 <= u <= 0x7FF {
      assert u == (u / 0x40) * 0x40 + u % 0x40;
    } else if 0x800 <= u <= 0xFFFF {
      SixBitSplit(u);
    } else if 0x10000 <= u {
      SixBitSplit(u);
      SixBitSplit(u / 0x40);
      DivModUnique(u, 0x40000, (u / 0x40) / 0x1000, ((u / 0x40) % 0x1000) * 0x40 + u % 0x40);
      DivModUnique(u, 0x1000, (u / 0x40) / 0x40, ((u / 0x40) % 0x40) * 0x40 + u % 0x40);
      assert (u / 0x40) % 0x1000 == ((u / 0x40 / 0x40) % 0x40) * 0x40 + (u / 0x40) % 0x40;
    }
  }

  /** x is its high part times 0x1000, its middle six bits times 0x40, and its low six bits. */
  lemma SixBitSplit(x: nat)
    ensures x == (x / 0x1000) * 0x1000 + ((x / 0x40) % 0x40) * 0x40 + x % 0x40
    ensures x / 0x1000 == (x / 0x40) / 0x40
    ensures x % 0x1000 == ((x / 0x40) % 0x40) * 0x40 + x % 0x40
  {
    var q, c := x / 0x40, x % 0x40;
    var a, b := q / 0x40, q % 0x40;
    assert x == q * 0x40 + c;
    assert q == a * 0x40 + b;
    assert x == a * 0x1000 + (b * 0x40 + c);
    DivModUnique(x, 0x1000, a, b * 0x40 + c);
  }

  /** The other direction: every sequence the decoder accepts is the encoder's output for its value. */
  lemma Utf8DecodeEncode(s: seq<Byte>)
    requires Utf8Decode(s).Some?
    ensures Utf8Decode(s).value <= 0x10FFFF
    ensures Utf8Encode(Utf8Decode(s).value) == s
  {
    var u := Utf8Decode(s).value;
    if |s| == 2 {
      var g0, g1 := s[0] as int - 0xC0, s[1] as int - 0x80;
      assert u == g0 * 0x40 + g1;
      DivModUnique(u, 0x40, g0, g1);
    } else if |s| == 3 {
      var g0, g1, g2 := s[0] as int - 0xE0, s[1] as int - 0x80, s[2] as int - 0x80;
      assert u == g0 * 0x1000 + g1 * 0x40 + g2;
      DivModUnique(u, 0x1000, g0, g1 * 0x40 + g2);
      DivModUnique(u, 0x40, g0 * 0x40 + g1, g2);
      DivModUnique(u / 0x40, 0x40, g0, g1);
    } else if |s| == 4 {
      var g0, g1, g2, g3 := s[0] as int - 0xF0, s[1] as int - 0x80, s[2] as int - 0x80, s[3] as int - 0x80;
      assert u == g0 * 0x40000 + g1 * 0x1000 + g2 * 0x40 + g3;
      DivModUnique(u, 0x40000, g0, g1 * 0x1000 + g2 * 0x40 + g3);
      DivModUnique(u, 0x1000, g0 * 0x40 + g1, g2 * 0x40 + g3);
      DivModUnique(u, 0x40, g0 * 0x1000 + g1 * 0x40 + g2, g3);
      DivModUnique(u / 0x1000, 0x40, g0, g1);
      DivModUnique(u / 0x40, 0x40, g0 * 0x40 + g1, g2);
    }
  }
}

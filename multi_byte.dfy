/**
 * The GBK, GB18030 and Big5 validators of multi_byte.go.
 *
 * Each validator is a loop that drives a small counter `nByte` (the position
 * inside the current character) through byte-range tests and accepts only when
 * the scan ends back in state 1. Each is proved equal to a grammar that splits
 * the input into well-formed characters; the grammars' properties (closure
 * under concatenation, inclusions between the encodings, what makes an input
 * fail) then hold of the validators too.
 *
 * The byte ranges are the approximations the source uses, not full mapping
 * tables of the standards.
 */
module MultiByte {
  import opened Base

  // ---------------------------------------------------------------------
  // Byte classes tested by the validators
  // ---------------------------------------------------------------------

  /** A one-byte (ASCII) character, accepted in state 1 by all three. */
  predicate IsAscii(b: Byte) { b <= 0x7F }

  /** The first byte of a multi-byte character in all three encodings. */
  predicate IsLead(b: Byte) { 0x81 <= b <= 0xFE }

  /** The second byte of a two-byte GBK or GB18030 character. */
  predicate IsGbkTrail(b: Byte) { 0x40 <= b <= 0xFE && b != 0x7F }

  /** The second and fourth byte of a four-byte GB18030 character. */
  predicate IsDigitByte(b: Byte) { 0x30 <= b <= 0x39 }

  /** The second byte of a two-byte Big5 character. */
  predicate IsBig5Trail(b: Byte) { (0x40 <= b <= 0x7E) || (0xA1 <= b <= 0xFE) }

  // ---------------------------------------------------------------------
  // GBK
  // ---------------------------------------------------------------------

  /** One GBK character: an ASCII byte, or a lead byte and a trail byte. */
  predicate GbkChar(c: seq<Byte>) {
    || (|c| == 1 && IsAscii(c[0]))
    || (|c| == 2 && IsLead(c[0]) && IsGbkTrail(c[1]))
  }

  /** `s` splits into a sequence of well-formed GBK characters. */
  predicate GbkText(s: seq<Byte>)
    decreases |s|
  {
    || s == []
    || (GbkChar(s[..1]) && GbkText(s[1..]))
    || (|s| >= 2 && GbkChar(s[..2]) && GbkText(s[2..]))
  }

  /** The first byte alone decides how long the first GBK character is. */
  lemma GbkTextHead(s: seq<Byte>)
    requires s != []
    ensures GbkText(s) ==
            if IsAscii(s[0]) then GbkText(s[1..])
            else IsLead(s[0]) && |s| >= 2 && IsGbkTrail(s[1]) && GbkText(s[2..])
  {
  }

  /** What the rest of the input must be when the scan is in state `nByte`. */
  ghost predicate GbkPending(nByte: int, rest: seq<Byte>) {
    if nByte == 1 then GbkText(rest)
    else rest != [] && IsGbkTrail(rest[0]) && GbkText(rest[1..])
  }

  /** isValidGBK: the nByte loop accepts exactly the GBK texts. */
  method IsValidGbk(content: seq<Byte>) returns (ok: bool)
    ensures ok == GbkText(content)
  {
    var nByte := 1;
    for i := 0 to |content|
      invariant nByte == 1 || nByte == 2
      invariant GbkText(content) == GbkPending(nByte, content[i..])
    {
      var b := content[i];
      GbkTextHead(content[i..]);
      assert content[i..][1..] == content[i + 1..];
      assert i + 2 <= |content| ==> content[i..][2..] == content[i + 2..];
      if nByte == 1 {
        if b <= 0x7F {
          continue;
        }
        if 0x81 <= b <= 0xFE {
          nByte := 2;
        } else {
          return false;
        }
      } else if nByte == 2 {
        nByte := 1;
        if b < 0x40 || b > 0xFE || b == 0x7F {
          return false;
        }
      }
    }
    return nByte == 1;
  }

  /**
   * Parsing is deterministic: after a well-formed prefix the whole input is
   * accepted exactly when the rest is. In particular GBK texts are closed
   * under concatenation.
   */
  lemma {:induction false} GbkConcat(a: seq<Byte>, b: seq<Byte>)
    requires GbkText(a)
    ensures GbkText(a + b) <==> GbkText(b)
  {
    if a != [] {
      GbkTextHead(a);
      GbkTextHead(a + b);
      if IsAscii(a[0]) {
        assert (a + b)[1..] == a[1..] + b;
        GbkConcat(a[1..], b);
      } else {
        assert (a + b)[2..] == a[2..] + b;
        GbkConcat(a[2..], b);
      }
    } else {
      assert a + b == b;
    }
  }

  /**
   * After any well-formed prefix `t`: a byte in state 1 that is neither ASCII
   * nor in [0x81, 0xFE] (that is 0x80 or 0xFF) rejects; a lead byte at the
   * end of the input rejects; a lead byte followed by a byte outside
   * [0x40, 0xFE] or equal to 0x7F rejects.
   */
  lemma GbkRejections(t: seq<Byte>, b: Byte, c: Byte, rest: seq<Byte>)
    requires GbkText(t)
    ensures !IsAscii(b) && !IsLead(b) ==> !GbkText(t + [b] + rest)
    ensures IsLead(b) ==> !GbkText(t + [b])
    ensures IsLead(b) && !IsGbkTrail(c) ==> !GbkText(t + [b, c] + rest)
  {
    assert t + [b] + rest == t + ([b] + rest);
    assert t + [b, c] + rest == t + ([b, c] + rest);
    GbkConcat(t, [b] + rest);
    GbkConcat(t, [b]);
    GbkConcat(t, [b, c] + rest);
    GbkTextHead([b] + rest);
    GbkTextHead([b]);
    GbkTextHead([b, c] + rest);
  }

  /** Boundary cases of the state-1 and state-2 byte tests, and the GBK bytes of 你好. */
  lemma GbkExamples()
    ensures GbkText([0x7F])
    ensures !GbkText([0x80])
    ensures GbkText([0x81, 0x40])
    ensures !GbkText([0x81, 0x7F])
    ensures GbkText([0xC4, 0xE3, 0xBA, 0xC3])
  {
    GbkTextHead([0x7F]);
    GbkTextHead([0x80]);
    GbkTextHead([0x81, 0x40]);
    GbkTextHead([0x81, 0x7F]);
    GbkTextHead([0xC4, 0xE3, 0xBA, 0xC3]);
    GbkTextHead([0xBA, 0xC3]);
    assert [0xC4, 0xE3, 0xBA, 0xC3][2..] == [0xBA, 0xC3];
  }

  // ---------------------------------------------------------------------
  // GB18030
  // ---------------------------------------------------------------------

  /** One GB18030 character: ASCII, a GBK pair, or lead-digit-lead-digit. */
  predicate Gb18030Char(c: seq<Byte>) {
    || (|c| == 1 && IsAscii(c[0]))
    || (|c| == 2 && IsLead(c[0]) && IsGbkTrail(c[1]))
    || (|c| == 4 && IsLead(c[0]) && IsDigitByte(c[1]) && IsLead(c[2]) && IsDigitByte(c[3]))
  }

  /** `s` splits into a sequence of well-formed GB18030 characters. */
  predicate Gb18030Text(s: seq<Byte>)
    decreases |s|
  {
    || s == []
    || (Gb18030Char(s[..1]) && Gb18030Text(s[1..]))
    || (|s| >= 2 && Gb18030Char(s[..2]) && Gb18030Text(s[2..]))
    || (|s| >= 4 && Gb18030Char(s[..4]) && Gb18030Text(s[4..]))
  }

  /** The first two bytes decide how long the first GB18030 character is. */
  lemma Gb18030TextHead(s: seq<Byte>)
    requires s != []
    ensures Gb18030Text(s) ==
            if IsAscii(s[0]) then Gb18030Text(s[1..])
            else IsLead(s[0]) && |s| >= 2 &&
                 if IsGbkTrail(s[1]) then Gb18030Text(s[2..])
                 else IsDigitByte(s[1]) && |s| >= 4 && IsLead(s[2]) && IsDigitByte(s[3]) &&
                      Gb18030Text(s[4..])
  {
  }

  /** What the rest of the input must be when the scan is in state `nByte`. */
  ghost predicate Gb18030Pending(nByte: int, rest: seq<Byte>) {
    if nByte == 1 then Gb18030Text(rest)
    else if nByte == 2 then
      rest != [] &&
      if IsGbkTrail(rest[0]) then Gb18030Text(rest[1..])
      else IsDigitByte(rest[0]) && |rest| >= 3 && IsLead(rest[1]) && IsDigitByte(rest[2]) &&
           Gb18030Text(rest[3..])
    else if nByte == 3 then
      |rest| >= 2 && IsLead(rest[0]) && IsDigitByte(rest[1]) && Gb18030Text(rest[2..])
    else
      rest != [] && IsDigitByte(rest[0]) && Gb18030Text(rest[1..])
  }

  /** isValidGB18030: the four-state nByte loop accepts exactly the GB18030 texts. */
  method IsValidGb18030(content: seq<Byte>) returns (ok: bool)
    ensures ok == Gb18030Text(content)
  {
    var nByte := 1;
    for i := 0 to |content|
      invariant 1 <= nByte <= 4
      invariant Gb18030Text(content) == Gb18030Pending(nByte, content[i..])
    {
      var b := content[i];
      ghost var rest := content[i..];
      Gb18030TextHead(rest);
      assert rest[1..] == content[i + 1..];
      assert |rest| >= 2 ==> rest[2..] == content[i + 2..] && rest[1..][1..] == rest[2..];
      assert |rest| >= 3 ==> rest[3..] == content[i + 3..] && rest[1..][2..] == rest[3..];
      assert |rest| >= 4 ==> rest[4..] == content[i + 4..] && rest[1..][3..] == rest[4..];
      if nByte == 1 {
        if b <= 0x7F {
          continue;
        }
        if 0x81 <= b <= 0xFE {
          nByte := 2;
        } else {
          return false;
        }
      } else if nByte == 2 {
        if 0x40 <= b <= 0xFE && b != 0x7F {
          nByte := 1;
          continue;
        }
        if 0x30 <= b <= 0x39 {
          nByte := 3;
          continue;
        } else {
          return false;
        }
      } else if nByte == 3 {
        if 0x81 <= b <= 0xFE {
          nByte := 4;
          continue;
        } else {
          return false;
        }
      } else if nByte == 4 {
        if 0x30 <= b <= 0x39 {
          nByte := 1;
          continue;
        } else {
          return false;
        }
      }
    }
    return nByte == 1;
  }

  /**
   * After a well-formed GB18030 prefix the whole input is accepted exactly
   * when the rest is; GB18030 texts are closed under concatenation.
   */
  lemma {:induction false} Gb18030Concat(a: seq<Byte>, b: seq<Byte>)
    requires Gb18030Text(a)
    ensures Gb18030Text(a + b) <==> Gb18030Text(b)
  {
    if a != [] {
      Gb18030TextHead(a);
      Gb18030TextHead(a + b);
      if IsAscii(a[0]) {
        assert (a + b)[1..] == a[1..] + b;
        Gb18030Concat(a[1..], b);
      } else if IsGbkTrail(a[1]) {
        assert (a + b)[2..] == a[2..] + b;
        Gb18030Concat(a[2..], b);
      } else {
        assert (a + b)[4..] == a[4..] + b;
        Gb18030Concat(a[4..], b);
      }
    } else {
      assert a + b == b;
    }
  }

  /**
   * After any well-formed prefix `t`: a bad first byte rejects; input that
   * ends in state 2, 3 or 4 (a dangling lead, lead-digit, or
   * lead-digit-lead) rejects; a second byte that is neither a trail nor a
   * digit rejects.
   */
  lemma Gb18030Rejections(t: seq<Byte>, b: Byte, c: Byte, d: Byte, rest: seq<Byte>)
    requires Gb18030Text(t)
    ensures !IsAscii(b) && !IsLead(b) ==> !Gb18030Text(t + [b] + rest)
    ensures IsLead(b) ==> !Gb18030Text(t + [b])
    ensures IsLead(b) && IsDigitByte(c) ==> !Gb18030Text(t + [b, c])
    ensures IsLead(b) && IsDigitByte(c) && IsLead(d) ==> !Gb18030Text(t + [b, c, d])
    ensures IsLead(b) && !IsGbkTrail(c) && !IsDigitByte(c) ==> !Gb18030Text(t + [b, c] + rest)
  {
    assert t + [b] + rest == t + ([b] + rest);
    assert t + [b, c] + rest == t + ([b, c] + rest);
    Gb18030Concat(t, [b] + rest);
    Gb18030Concat(t, [b]);
    Gb18030Concat(t, [b, c]);
    Gb18030Concat(t, [b, c, d]);
    Gb18030Concat(t, [b, c] + rest);
    Gb18030TextHead([b] + rest);
    Gb18030TextHead([b]);
    Gb18030TextHead([b, c]);
    Gb18030TextHead([b, c, d]);
    Gb18030TextHead([b, c] + rest);
  }

  /**
   * The four-byte form: after a lead byte and a digit, four bytes are a
   * GB18030 text exactly when the third is in [0x81, 0xFE] and the fourth in
   * [0x30, 0x39].
   */
  lemma Gb18030FourByte(a: Byte, b: Byte, c: Byte, d: Byte)
    requires IsLead(a) && IsDigitByte(b)
    ensures Gb18030Text([a, b, c, d]) <==> IsLead(c) && IsDigitByte(d)
  {
    Gb18030TextHead([a, b, c, d]);
    assert [a, b, c, d][4..] == [];
  }

  /** GBK is a sub-language of GB18030: state 2 of GB18030 contains GBK's rule. */
  lemma {:induction false} GbkWithinGb18030(s: seq<Byte>)
    requires GbkText(s)
    ensures Gb18030Text(s)
  {
    if s != [] {
      GbkTextHead(s);
      Gb18030TextHead(s);
      if IsAscii(s[0]) {
        GbkWithinGb18030(s[1..]);
      } else {
        GbkWithinGb18030(s[2..]);
      }
    }
  }

  // ---------------------------------------------------------------------
  // Big5
  // ---------------------------------------------------------------------

  /** One Big5 character: ASCII, or a lead byte and a Big5 trail byte. */
  predicate Big5Char(c: seq<Byte>) {
    || (|c| == 1 && IsAscii(c[0]))
    || (|c| == 2 && IsLead(c[0]) && IsBig5Trail(c[1]))
  }

  /** `s` splits into a sequence of well-formed Big5 characters. */
  predicate Big5Text(s: seq<Byte>)
    decreases |s|
  {
    || s == []
    || (Big5Char(s[..1]) && Big5Text(s[1..]))
    || (|s| >= 2 && Big5Char(s[..2]) && Big5Text(s[2..]))
  }

  /** The first byte alone decides how long the first Big5 character is. */
  lemma Big5TextHead(s: seq<Byte>)
    requires s != []
    ensures Big5Text(s) ==
            if IsAscii(s[0]) then Big5Text(s[1..])
            else IsLead(s[0]) && |s| >= 2 && IsBig5Trail(s[1]) && Big5Text(s[2..])
  {
  }

  /** What the rest of the input must be when the scan is in state `nByte`. */
  ghost predicate Big5Pending(nByte: int, rest: seq<Byte>) {
    if nByte == 1 then Big5Text(rest)
    else rest != [] && IsBig5Trail(rest[0]) && Big5Text(rest[1..])
  }

  /** isValidBig5: the nByte loop accepts exactly the Big5 texts. */
  method IsValidBig5(content: seq<Byte>) returns (ok: bool)
    ensures ok == Big5Text(content)
  {
    var nByte := 1;
    for i := 0 to |content|
      invariant nByte == 1 || nByte == 2
      invariant Big5Text(content) == Big5Pending(nByte, content[i..])
    {
      var b := content[i];
      Big5TextHead(content[i..]);
      assert content[i..][1..] == content[i + 1..];
      assert i + 2 <= |content| ==> content[i..][2..] == content[i + 2..];
      if nByte == 1 {
        if b <= 0x7F {
          continue;
        }
        if 0x81 <= b <= 0xFE {
          nByte := 2;
        } else {
          return false;
        }
      } else if nByte == 2 {
        nByte := 1;
        if !((0x40 <= b <= 0x7E) || (0xA1 <= b <= 0xFE)) {
          return false;
        }
      }
    }
    return nByte == 1;
  }

  /**
   * After a well-formed Big5 prefix the whole input is accepted exactly when
   * the rest is; Big5 texts are closed under concatenation.
   */
  lemma {:induction false} Big5Concat(a: seq<Byte>, b: seq<Byte>)
    requires Big5Text(a)
    ensures Big5Text(a + b) <==> Big5Text(b)
  {
    if a != [] {
      Big5TextHead(a);
      Big5TextHead(a + b);
      if IsAscii(a[0]) {
        assert (a + b)[1..] == a[1..] + b;
        Big5Concat(a[1..], b);
      } else {
        assert (a + b)[2..] == a[2..] + b;
        Big5Concat(a[2..], b);
      }
    } else {
      assert a + b == b;
    }
  }

  /**
   * After any well-formed prefix `t`: a bad first byte rejects; a dangling
   * lead byte rejects; a lead byte followed by a byte outside
   * [0x40, 0x7E] and [0xA1, 0xFE] rejects.
   */
  lemma Big5Rejections(t: seq<Byte>, b: Byte, c: Byte, rest: seq<Byte>)
    requires Big5Text(t)
    ensures !IsAscii(b) && !IsLead(b) ==> !Big5Text(t + [b] + rest)
    ensures IsLead(b) ==> !Big5Text(t + [b])
    ensures IsLead(b) && !IsBig5Trail(c) ==> !Big5Text(t + [b, c] + rest)
  {
    assert t + [b] + rest == t + ([b] + rest);
    assert t + [b, c] + rest == t + ([b, c] + rest);
    Big5Concat(t, [b] + rest);
    Big5Concat(t, [b]);
    Big5Concat(t, [b, c] + rest);
    Big5TextHead([b] + rest);
    Big5TextHead([b]);
    Big5TextHead([b, c] + rest);
  }

  /** Big5 is a sub-language of GBK: its trail ranges lie inside GBK's. */
  lemma {:induction false} Big5WithinGbk(s: seq<Byte>)
    requires Big5Text(s)
    ensures GbkText(s)
  {
    if s != [] {
      Big5TextHead(s);
      GbkTextHead(s);
      if IsAscii(s[0]) {
        Big5WithinGbk(s[1..]);
      } else {
        Big5WithinGbk(s[2..]);
      }
    }
  }

  // ---------------------------------------------------------------------
  // Shared
  // ---------------------------------------------------------------------

  /** The empty input and every all-ASCII input pass all three validators. */
  lemma {:induction false} AsciiAccepted(s: seq<Byte>)
    requires forall i :: 0 <= i < |s| ==> IsAscii(s[i])
    ensures GbkText(s) && Gb18030Text(s) && Big5Text(s)
  {
    if s != [] {
      AsciiAccepted(s[1..]);
      GbkTextHead(s);
      Gb18030TextHead(s);
      Big5TextHead(s);
    }
  }
}

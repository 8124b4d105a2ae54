/** The escapes of JSON strings and the Unicode characters they denote (section 7 of RFC 8259). */
module UnicodeLaws {
  import opened ByteStrings
  import opened JsonGrammar
  import Utf8

  /** The two halves of the surrogate pair of a supplementary character. */
  function HighHalf(n: nat): nat
    requires 0x10000 <= n <= 0x10ffff
  {
    0xd800 + (n - 0x10000) / 0x400
  }

  function LowHalf(n: nat): nat
    requires 0x10000 <= n <= 0x10ffff
  {
    0xdc00 + (n - 0x10000) % 0x400
  }

  // ---- Digits ----

  /** `c` is one of the digits for `d`: digits count by their positions, in either case. */
  predicate IsDigitFor(c: byte, d: nat) {
    d < 16 && (c == "0123456789abcdef"[d] || c == "0123456789ABCDEF"[d])
  }

  lemma DigitsLiterally(c: byte, d: nat)
    requires d < 16
    ensures IsDigitFor(c, d) <==> HexValue(c) == d
  {
    if '0' <= c <= '9' {
      assert c == "0123456789abcdef"[c as int - '0' as int];
    } else if 'a' <= c <= 'f' {
      assert c == "0123456789abcdef"[c as int - 'a' as int + 10];
    } else if 'A' <= c <= 'F' {
      assert c == "0123456789ABCDEF"[c as int - 'A' as int + 10];
    }
  }

  /** The 22 characters that are digits. */
  lemma NoOtherDigits(c: byte)
    ensures HexValue(c) < 16 <==> c in "0123456789abcdefABCDEF"
  {
    if HexValue(c) < 16 {
      DigitsLiterally(c, HexValue(c));
    }
  }

  predicate SpellsWith(s: Bytes, n: nat, x: nat, y: nat, z: nat, w: nat) {
    && |s| >= 4
    && IsDigitFor(s[0], x) && IsDigitFor(s[1], y) && IsDigitFor(s[2], z) && IsDigitFor(s[3], w)
    && n == x * 4096 + y * 256 + z * 16 + w
  }

  /** `s` starts with four digits that make the number `n`. */
  ghost predicate Spells(s: Bytes, n: nat) {
    exists x, y, z, w :: SpellsWith(s, n, x, y, z, w)
  }

  lemma FourDigits(s: Bytes)
    requires StartsWithHex(s, 4)
    ensures HexNumber(s, 4)
         == HexValue(s[0]) * 4096 + HexValue(s[1]) * 256 + HexValue(s[2]) * 16 + HexValue(s[3])
  {
    assert HexNumber(s, 1) == HexValue(s[0]);
    assert HexNumber(s, 2) == HexValue(s[0]) * 16 + HexValue(s[1]);
    assert HexNumber(s, 3) == HexValue(s[0]) * 256 + HexValue(s[1]) * 16 + HexValue(s[2]);
  }

  lemma SpellsExactly(s: Bytes, n: nat)
    ensures Spells(s, n) <==> StartsWithHex(s, 4) && HexNumber(s, 4) == n
  {
    hide HexNumber, HexValue, IsDigitFor;
    if StartsWithHex(s, 4) {
      var x, y, z, w := HexValue(s[0]), HexValue(s[1]), HexValue(s[2]), HexValue(s[3]);
      FourDigits(s);
      DigitsLiterally(s[0], x);
      DigitsLiterally(s[1], y);
      DigitsLiterally(s[2], z);
      DigitsLiterally(s[3], w);
      assert SpellsWith(s, HexNumber(s, 4), x, y, z, w);
    }
    forall x, y, z, w | SpellsWith(s, n, x, y, z, w) ensures StartsWithHex(s, 4) && HexNumber(s, 4) == n {
      DigitBelow16(s[0], x);
      DigitBelow16(s[1], y);
      DigitBelow16(s[2], z);
      DigitBelow16(s[3], w);
      FourDigits(s);
    }
  }

  lemma DigitBelow16(c: byte, d: nat)
    requires IsDigitFor(c, d)
    ensures d < 16 && HexValue(c) == d
  {
    DigitsLiterally(c, d);
  }

  // ---- What escapes denote ----

  /** `s` starts with four digits that are the character `n` of the basic plane, and goes on with `rest`. */
  ghost predicate DenotesBasic(s: Bytes, n: nat, rest: Bytes) {
    Spells(s, n) && (n < 0xd800 || 0xe000 <= n <= 0xffff) && s[4..] == rest
  }

  /** `s` starts with the two escapes of the supplementary character `n`, and goes on with `rest`. */
  ghost predicate DenotesPair(s: Bytes, n: nat, rest: Bytes) {
    && 0x10000 <= n <= 0x10ffff
    && |s| >= 10
    && Spells(s, 0xd800 + (n - 0x10000) / 0x400)
    && s[4..6] == "\\u"
    && Spells(s[6..], 0xdc00 + (n - 0x10000) % 0x400)
    && s[10..] == rest
  }

  /** An escape is accepted exactly if it denotes a character, so a surrogate on its own never is. */
  lemma EscapesDenote(s: Bytes, n: nat, rest: Bytes)
    ensures CodePoint(s) == Some((n, rest)) <==> DenotesBasic(s, n, rest) || DenotesPair(s, n, rest)
  {
    hide HexNumber, StartsWithHex, Spells;
    SpellsExactly(s, n);
    if 0x10000 <= n <= 0x10ffff {
      SpellsExactly(s, HighHalf(n));
    }
    if StartsWithHex(s, 4) {
      HexStart(s);
      var first, t := HexNumber(s, 4), s[4..];
      if IsHighSurrogate(first) {
        PairsDenote(s, t, first, n, rest);
      }
    }
  }

  lemma HexStart(s: Bytes)
    requires StartsWithHex(s, 4)
    ensures |s| >= 4
  {
  }

  /** Anything but one of the 22 digits among the four characters of an escape makes it fail. */
  lemma OtherCharactersFail(s: Bytes, i: nat)
    requires i < 4 && (i < |s| ==> s[i] !in "0123456789abcdefABCDEF")
    ensures CodePoint(s) == None && Escape("u" + s) == None
  {
    assert ("u" + s)[1..] == s;
    if i < |s| {
      NoOtherDigits(s[i]);
    }
  }

  lemma PairsDenote(s: Bytes, t: Bytes, first: nat, n: nat, rest: Bytes)
    requires StartsWithHex(s, 4) && first == HexNumber(s, 4) && t == s[4..] && IsHighSurrogate(first)
    ensures SecondHalf(t, first) == Some((n, rest)) <==> DenotesPair(s, n, rest)
  {
    hide HexNumber, Spells;
    if 0x10000 <= n <= 0x10ffff {
      SpellsExactly(s, HighHalf(n));
      if |s| >= 10 {
        SpellsExactly(s[6..], LowHalf(n));
      }
    }
    if |t| >= 2 {
      assert t[..2] == s[4..6] && t[2..] == s[6..];
      if StartsWithHex(t[2..], 4) {
        assert t[2..][4..] == s[10..];
      }
    }
  }

  /** A lone surrogate, high or low, is rejected. */
  lemma LoneSurrogateFails(s: Bytes, n: nat)
    requires Spells(s, n) && 0xd800 <= n < 0xe000
    requires n < 0xdc00 ==>
      !(|s| >= 10 && s[4..6] == "\\u" && exists low: nat :: Spells(s[6..], low) && 0xdc00 <= low < 0xe000)
    ensures CodePoint(s) == None && Escape("u" + s) == None
  {
    hide HexNumber, Spells, CodePoint;
    assert ("u" + s)[1..] == s;
    SpellsExactly(s, n);
    if CodePoint(s).Some? {
      var (m, rest) := CodePoint(s).value;
      EscapesDenote(s, m, rest);
      SpellsExactly(s, m);
      if 0x10000 <= m <= 0x10ffff {
        SpellsExactly(s, HighHalf(m));
      }
      assert false;
    }
  }

  /** What an accepted escape appends is the UTF-8 form of a scalar value, and a decoder finds that value in it. */
  lemma EscapeEmitsScalar(s: Bytes, after: Bytes)
    requires Escape("u" + s).Some?
    ensures exists n: nat, rest: Bytes ::
      && (DenotesBasic(s, n, rest) || DenotesPair(s, n, rest))
      && Utf8.IsScalar(n)
      && Escape("u" + s) == Some((Utf8.Encoded(n), rest))
      && Utf8.Decoded(Utf8.Encoded(n) + after) == Some((n, |Utf8.Encoded(n)|))
  {
    assert ("u" + s)[1..] == s;
    var (n, rest) := CodePoint(s).value;
    EscapesDenote(s, n, rest);
    Utf8.DecodeEncode(n, after);
  }

  // ---- Every character has an escape ----

  function DigitText(d: nat, upper: bool): byte
    requires d < 16
  {
    if upper then "0123456789ABCDEF"[d] else "0123456789abcdef"[d]
  }

  /** Four digits, each in the case that is asked for. */
  function Hex4(n: nat, upper: seq<bool>): (r: Bytes)
    requires n < 0x10000 && |upper| == 4
    ensures |r| == 4
  {
    [DigitText(n / 0x1000, upper[0]), DigitText(n / 0x100 % 16, upper[1]),
     DigitText(n / 0x10 % 16, upper[2]), DigitText(n % 16, upper[3])]
  }

  /** The escape of a character, read behind its backslash. */
  function EscapeText(n: nat, upper: seq<bool>): Bytes
    requires Utf8.IsScalar(n) && |upper| == 8
  {
    if n < 0x10000 then "u" + Hex4(n, upper[..4])
    else "u" + Hex4(HighHalf(n), upper[..4]) + "\\u" + Hex4(LowHalf(n), upper[4..])
  }

  lemma DigitsOfHex4(n: nat)
    requires n < 0x10000
    ensures n == n / 0x1000 * 4096 + n / 0x100 % 16 * 256 + n / 0x10 % 16 * 16 + n % 16
  {
    var u := n / 16;
    var v := u / 16;
    assert v == n / 0x100 && v / 16 == n / 0x1000;
  }

  lemma Hex4Spells(n: nat, upper: seq<bool>, rest: Bytes)
    requires n < 0x10000 && |upper| == 4
    ensures Spells(Hex4(n, upper) + rest, n) && (Hex4(n, upper) + rest)[4..] == rest
  {
    DigitsOfHex4(n);
    assert SpellsWith(Hex4(n, upper) + rest, n, n / 0x1000, n / 0x100 % 16, n / 0x10 % 16, n % 16);
  }

  /**
   * Escaping a character, with every digit in either case, and reading the escape gives the character's UTF-8 form,
   * whatever follows.
   */
  lemma EscapeReads(n: nat, upper: seq<bool>, rest: Bytes)
    requires Utf8.IsScalar(n) && |upper| == 8
    ensures Escape(EscapeText(n, upper) + rest) == Some((Utf8.Encoded(n), rest))
  {
    hide Hex4, Spells, Utf8.Encoded, CodePoint;
    if n < 0x10000 {
      var s := Hex4(n, upper[..4]) + rest;
      Hex4Spells(n, upper[..4], rest);
      EscapesDenote(s, n, rest);
      assert EscapeText(n, upper) + rest == "u" + s && ("u" + s)[1..] == s;
    } else {
      var t := Hex4(LowHalf(n), upper[4..]) + rest;
      var s := Hex4(HighHalf(n), upper[..4]) + ("\\u" + t);
      Hex4Spells(LowHalf(n), upper[4..], rest);
      Hex4Spells(HighHalf(n), upper[..4], "\\u" + t);
      assert s[6..] == t && s[4..6] == "\\u" && s[10..] == t[4..];
      EscapesDenote(s, n, rest);
      assert EscapeText(n, upper) + rest == "u" + s && ("u" + s)[1..] == s;
    }
  }
}

/** Integers as decimal text: `to_string` and `printf`, and the conversions `strtol` and `stoi` make. */
module Decimal {
  import opened ByteStrings

  predicate IsDigit(c: char) {
    '0' <= c <= '9'
  }

  predicate AllDigits(s: string) {
    forall i :: 0 <= i < |s| ==> IsDigit(s[i])
  }

  function DigitOf(d: nat): byte
    requires d < 10
  {
    ('0' as int + d) as char
  }

  function Text(n: nat): (r: Bytes)
    ensures r != [] && AllDigits(r)
  {
    if n < 10 then [DigitOf(n)] else Text(n / 10) + [DigitOf(n % 10)]
  }

  /** `std::to_string(i)`, and what `printf` makes of `%d`. */
  function IntText(i: int): (r: Bytes)
    ensures r != []
  {
    if i < 0 then "-" + Text(-i) else Text(i)
  }

  function Value(digits: string): nat
    requires AllDigits(digits)
  {
    if digits == [] then 0
    else Value(digits[..|digits| - 1]) * 10 + (digits[|digits| - 1] as int - '0' as int)
  }

  lemma {:induction false} ValueOfText(n: nat)
    ensures Value(Text(n)) == n
  {
    if n >= 10 {
      ValueOfText(n / 10);
      assert Text(n)[..|Text(n)| - 1] == Text(n / 10);
    } else {
      assert Text(n)[..0] == [];
    }
  }

  /** How many digits `s` starts with. */
  function DigitRun(s: string): (k: nat)
    ensures k <= |s| && AllDigits(s[..k])
    ensures k < |s| ==> !IsDigit(s[k])
  {
    if s != [] && IsDigit(s[0]) then 1 + DigitRun(s[1..]) else 0
  }

  predicate IsSpace(c: char) {
    c == ' ' || '\t' <= c <= '\r'
  }

  function SpaceRun(s: string): (k: nat)
    ensures k <= |s|
  {
    if s != [] && IsSpace(s[0]) then 1 + SpaceRun(s[1..]) else 0
  }

  /** The number the leading digits make, and how many they are; `None` without a digit. */
  function ScanDigits(s: string): (r: Option<(int, nat)>)
    ensures r.Some? ==> r.value.1 <= |s|
  {
    var k := DigitRun(s);
    if k == 0 then None else Some((Value(s[..k]), k))
  }

  /**
   * `strtol` in base 10: white space, an optional sign, then as many digits as there are.
   * The value and where the conversion stopped, or `None` if there was no digit.
   */
  function ScanInt(s: string): (r: Option<(int, nat)>)
    ensures r.Some? ==> r.value.1 <= |s|
  {
    var start := SpaceRun(s);
    var negative := start < |s| && s[start] == '-';
    var first := if negative || (start < |s| && s[start] == '+') then start + 1 else start;
    match ScanDigits(s[first..])
    case None => None
    case Some((n, k)) => Some((if negative then -n else n, first + k))
  }

  /** The range of `int` on the platforms the server runs on. */
  predicate InInt32(i: int) {
    -0x8000_0000 <= i < 0x8000_0000
  }

  /** `std::stoi`: text after the number is ignored; `None` stands for either of its exceptions. */
  function Stoi(s: string): Option<int> {
    match ScanInt(s)
    case Some((i, _)) => if InInt32(i) then Some(i) else None
    case None => None
  }

  lemma {:induction false} DigitRunOf(digits: string, rest: string)
    requires AllDigits(digits) && (rest == [] || !IsDigit(rest[0]))
    ensures DigitRun(digits + rest) == |digits|
  {
    if digits == [] {
      assert digits + rest == rest;
    } else {
      assert (digits + rest)[1..] == digits[1..] + rest;
      DigitRunOf(digits[1..], rest);
    }
  }

  lemma ScanDigitsText(n: nat, rest: string)
    requires rest == [] || !IsDigit(rest[0])
    ensures ScanDigits(Text(n) + rest) == Some((n, |Text(n)|))
  {
    DigitRunOf(Text(n), rest);
    assert (Text(n) + rest)[..|Text(n)|] == Text(n);
    ValueOfText(n);
  }

  /** Scanning a number with or without a minus sign, once its digits are understood. */
  lemma ScanSigned(digits: string, rest: string, n: int)
    requires digits != [] && AllDigits(digits)
    requires ScanDigits(digits + rest) == Some((n, |digits|))
    ensures ScanInt(digits + rest) == Some((n, |digits|))
    ensures ScanInt("-" + digits + rest) == Some((-n, |digits| + 1))
  {
    var s := digits + rest;
    assert IsDigit(s[0]) && s[0..] == s;
    var t := "-" + digits + rest;
    assert t[1..] == s && t[0] == '-';
  }

  /** Scanning the text of a number gives the number and stops right behind it. */
  lemma ScanIntText(i: int, rest: string)
    requires rest == [] || !IsDigit(rest[0])
    ensures ScanInt(IntText(i) + rest) == Some((i, |IntText(i)|))
  {
    var n := if i < 0 then -i else i;
    ScanDigitsText(n, rest);
    ScanSigned(Text(n), rest, n);
  }

  lemma IntTextInjective(i: int, j: int)
    requires IntText(i) == IntText(j)
    ensures i == j
  {
    ScanIntText(i, []);
    ScanIntText(j, []);
  }

  /** `stoi(to_string(i)) == i`, whatever follows, as long as that is no digit. */
  lemma StoiOfText(i: int, rest: string)
    requires InInt32(i) && (rest == [] || !IsDigit(rest[0]))
    ensures Stoi(IntText(i) + rest) == Some(i)
  {
    ScanIntText(i, rest);
  }

  // ---- Numerals, digit by digit ----

  /** The digits are these ten, and no other characters. */
  lemma DigitsLiterally(c: char)
    ensures IsDigit(c) <==> c in "0123456789"
  {
    if IsDigit(c) {
      assert c == "0123456789"[c as int - '0' as int];
    }
  }

  /** A digit at the end of a numeral adds its position among the ten to ten times the number. */
  lemma ValueByPosition(digits: string, k: nat)
    requires AllDigits(digits) && k < 10
    ensures AllDigits(digits + ["0123456789"[k]])
    ensures Value(digits + ["0123456789"[k]]) == 10 * Value(digits) + k
    ensures Value("") == 0
  {
    var longer := digits + ["0123456789"[k]];
    assert "0123456789"[k] as int == '0' as int + k;
    assert longer[..|longer| - 1] == digits;
  }

  /** No zero in front, but for zero itself. */
  predicate IsCanonical(digits: string) {
    digits != "" && AllDigits(digits) && (digits == "0" || digits[0] != '0')
  }

  lemma {:induction false} TextIsCanonical(n: nat)
    ensures IsCanonical(Text(n)) && (Text(n)[0] == '0' <==> n == 0)
  {
    if n >= 10 {
      TextIsCanonical(n / 10);
    } else if n == 0 {
      assert Text(0) == "0";
    }
  }

  lemma {:induction false} CanonicalIsText(digits: string)
    requires IsCanonical(digits)
    ensures digits == Text(Value(digits))
    decreases |digits|
  {
    var shorter, last := digits[..|digits| - 1], digits[|digits| - 1];
    assert digits == shorter + [last];
    if shorter == "" {
      assert Value(shorter) == 0;
    } else {
      CanonicalIsText(shorter);
      TextIsCanonical(Value(shorter));
    }
  }

  /**
   * The text of a number that is not negative is its only numeral in decimal digits without a zero in front; that of a
   * negative one is a minus sign and the text of its opposite.
   */
  lemma IntTextExactly(i: int, d: string)
    ensures i >= 0 ==>
      (d == IntText(i) <==> d != "" && AllDigits(d) && Value(d) == i && (d == "0" || d[0] != '0'))
    ensures i < 0 ==> (d == IntText(i) <==> d != "" && d[0] == '-' && d[1..] == IntText(-i))
  {
    if i >= 0 {
      TextIsCanonical(i);
      ValueOfText(i);
      if IsCanonical(d) {
        CanonicalIsText(d);
      }
    } else if d != "" && d[0] == '-' && d[1..] == IntText(-i) {
      assert d == "-" + d[1..];
    }
  }

  // ---- What stoi reads ----

  predicate AllSpaces(s: string) {
    forall i :: 0 <= i < |s| ==> s[i] in " \t\n\U{b}\U{c}\r"
  }

  lemma {:induction false} SpaceRunOf(white: string, rest: string)
    requires AllSpaces(white) && (rest == "" || rest[0] !in " \t\n\U{b}\U{c}\r")
    ensures SpaceRun(white + rest) == |white|
  {
    if white == "" {
      assert white + rest == rest;
      SpacesLiterally(if rest == "" then 'x' else rest[0]);
    } else {
      SpacesLiterally(white[0]);
      assert (white + rest)[1..] == white[1..] + rest;
      SpaceRunOf(white[1..], rest);
    }
  }

  lemma SpacesLiterally(c: char)
    ensures IsSpace(c) <==> c in " \t\n\U{b}\U{c}\r"
  {
    if '\t' <= c <= '\r' {
      assert c == "\t\n\U{b}\U{c}\r"[c as int - '\t' as int];
    }
  }

  predicate IsSign(sign: string) {
    sign == "" || sign == "+" || sign == "-"
  }

  lemma ScanBehindSpaces(white: string, sign: string, rest: string)
    requires AllSpaces(white) && IsSign(sign)
    requires rest != "" && sign == "" ==> rest[0] !in " \t\n\U{b}\U{c}\r+-"
    ensures ScanInt(white + (sign + rest)) == match ScanDigits(rest)
      case None => None
      case Some((n, k)) => Some((if sign == "-" then -n else n, |white| + |sign| + k))
  {
    var s := white + (sign + rest);
    SpaceRunOf(white, sign + rest);
    assert s[|white| + |sign|..] == rest;
    assert sign != "" ==> s[|white|] == sign[0];
    assert sign == "" && rest != "" ==> s[|white|] == rest[0];
  }

  /** White space, a sign and digits are read as the number they make, if it is an `int`; what follows is ignored. */
  lemma StoiReads(white: string, sign: string, digits: string, rest: string)
    requires AllSpaces(white) && IsSign(sign) && digits != "" && AllDigits(digits)
    requires rest == "" || rest[0] !in "0123456789"
    ensures var n: int := Value(digits);
      var i := if sign == "-" then -n else n;
      Stoi(white + (sign + (digits + rest))) == if -2147483648 <= i <= 2147483647 then Some(i) else None
  {
    hide Value, ScanInt;
    assert (digits + rest)[0] == digits[0];
    NoSpaceOrSign(digits[0]);
    DigitsLiterally(if rest == "" then 'x' else rest[0]);
    DigitRunOf(digits, rest);
    assert (digits + rest)[..|digits|] == digits;
    ScanBehindSpaces(white, sign, digits + rest);
  }

  lemma NoSpaceOrSign(c: char)
    requires IsDigit(c)
    ensures c !in " \t\n\U{b}\U{c}\r+-"
  {
  }

  /** Without a digit there, there is no number. */
  lemma StoiFails(white: string, sign: string, rest: string)
    requires AllSpaces(white) && IsSign(sign)
    requires rest != "" ==> rest[0] !in "0123456789"
    requires rest != "" && sign == "" ==> rest[0] !in " \t\n\U{b}\U{c}\r+-"
    ensures Stoi(white + (sign + rest)) == None
  {
    DigitsLiterally(if rest == "" then 'x' else rest[0]);
    ScanBehindSpaces(white, sign, rest);
  }
}

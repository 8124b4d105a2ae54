/** UTF-8, as the parser writes it (section 3 of RFC 3629) and as a reader of its output decodes it. */
module Utf8 {
  import opened ByteStrings

  /** A Unicode scalar value: a code point that is no surrogate. */
  predicate IsScalar(n: int) {
    0 <= n < 0xd800 || 0xe000 <= n <= 0x10ffff
  }

  /** The last six bits of `n`, in a continuation byte. */
  function Continuation(n: nat): byte {
    (0x80 + n % 0x40) as char
  }

  /** The bytes `_parse_codepoint` appends for a code point. */
  function Encoded(n: nat): Bytes
    requires n <= 0x10ffff
  {
    if n < 0x80 then [n as char]
    else if n < 0x800 then [(0xc0 + n / 0x40) as char, Continuation(n)]
    else if n < 0x10000 then [(0xe0 + n / 0x1000) as char, Continuation(n / 0x40), Continuation(n)]
    else [(0xf0 + n / 0x40000) as char, Continuation(n / 0x1000), Continuation(n / 0x40), Continuation(n)]
  }

  predicate IsContinuation(c: byte) {
    0x80 <= c as int < 0xc0
  }

  function Payload(c: byte): int {
    c as int - 0x80
  }

  /** A strict decoder: the scalar value in front and how many bytes it takes; no overlong forms, no surrogates. */
  function Decoded(s: Bytes): Option<(int, nat)> {
    if s == [] then None
    else
      var c := s[0] as int;
      if c < 0x80 then Some((c, 1))
      else if 0xc2 <= c < 0xe0 && |s| >= 2 && IsContinuation(s[1]) then
        Some(((c - 0xc0) * 0x40 + Payload(s[1]), 2))
      else if 0xe0 <= c < 0xf0 && |s| >= 3 && IsContinuation(s[1]) && IsContinuation(s[2]) then
        var n := (c - 0xe0) * 0x1000 + Payload(s[1]) * 0x40 + Payload(s[2]);
        if n >= 0x800 && IsScalar(n) then Some((n, 3)) else None
      else if 0xf0 <= c < 0xf5 && |s| >= 4 && IsContinuation(s[1]) && IsContinuation(s[2]) && IsContinuation(s[3]) then
        var n := (c - 0xf0) * 0x40000 + Payload(s[1]) * 0x1000 + Payload(s[2]) * 0x40 + Payload(s[3]);
        if n >= 0x10000 && IsScalar(n) then Some((n, 4)) else None
      else None
  }

  /** Every scalar value is written so that the decoder finds it, and nothing else, in front of any text. */
  lemma DecodeEncode(n: nat, rest: Bytes)
    requires IsScalar(n)
    ensures Decoded(Encoded(n) + rest) == Some((n, |Encoded(n)|))
  {
    var s := Encoded(n) + rest;
    if n >= 0x10000 {
      Digits4(n);
    } else if n >= 0x800 {
      Digits3(n);
    }
  }

  lemma Digits3(n: nat)
    ensures n == n / 0x1000 * 0x1000 + n / 0x40 % 0x40 * 0x40 + n % 0x40
  {
    var u := n / 0x40;
    assert n / 0x1000 == u / 0x40;
  }

  lemma Digits4(n: nat)
    ensures n == n / 0x40000 * 0x40000 + n / 0x1000 % 0x40 * 0x1000 + n / 0x40 % 0x40 * 0x40 + n % 0x40
  {
    Digits3(n);
    var u := n / 0x1000;
    assert n / 0x40000 == u / 0x40;
  }

  /**
   * The table of section 3 of RFC 3629: how many bytes a code point takes, between which bounds each of them lies, and
   * how their bits make up the code point.
   */
  lemma EncodedTable(n: nat)
    requires n <= 0x10ffff
    ensures var e := Encoded(n);
      && (n <= 0x7f ==> |e| == 1 && e[0] as int == n)
      && (0x80 <= n <= 0x7ff ==>
            && |e| == 2 && 0xc0 <= e[0] as int <= 0xdf && 0x80 <= e[1] as int <= 0xbf
            && n == (e[0] as int - 0xc0) * 64 + (e[1] as int - 0x80))
      && (0x800 <= n <= 0xffff ==>
            && |e| == 3 && 0xe0 <= e[0] as int <= 0xef && 0x80 <= e[1] as int <= 0xbf && 0x80 <= e[2] as int <= 0xbf
            && n == (e[0] as int - 0xe0) * 4096 + (e[1] as int - 0x80) * 64 + (e[2] as int - 0x80))
      && (0x10000 <= n ==>
            && |e| == 4 && 0xf0 <= e[0] as int <= 0xf4 && 0x80 <= e[1] as int <= 0xbf
            && 0x80 <= e[2] as int <= 0xbf && 0x80 <= e[3] as int <= 0xbf
            && n == (e[0] as int - 0xf0) * 262144 + (e[1] as int - 0x80) * 4096
                    + (e[2] as int - 0x80) * 64 + (e[3] as int - 0x80))
  {
    Digits4(n);
    Digits3(n);
  }
}

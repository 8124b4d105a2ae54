/** Base64 position by position: the text of an octet string, the octets of a text, and why a text is refused. */
module Base64Text {
  import opened ByteStrings
  import opened Base64
  import opened Base64Laws

  lemma RunLiterally(first: byte, letters: Bytes)
    requires first as int + |letters| <= 256
    requires forall i :: 0 <= i < |letters| ==> letters[i] as int == first as int + i
    ensures Run(first, |letters|) == letters
  {
  }

  lemma UpperCase()
    ensures Run('A', 26) == "ABCDEFGHIJKLMNOPQRSTUVWXYZ"
  {
    RunLiterally('A', "ABCDEFGHIJKLMNOPQRSTUVWXYZ");
  }

  lemma LowerCase()
    ensures Run('a', 26) == "abcdefghijklmnopqrstuvwxyz"
  {
    RunLiterally('a', "abcdefghijklmnopqrstuvwxyz");
  }

  /** The letters in their order, and the fills. */
  lemma AlphabetsLiterally()
    ensures BASE64.data == "ABCDEFGHIJKLMNOPQRSTUVWXYZ" + "abcdefghijklmnopqrstuvwxyz" + "0123456789" + "+/"
    ensures BASE64URL.data == "ABCDEFGHIJKLMNOPQRSTUVWXYZ" + "abcdefghijklmnopqrstuvwxyz" + "0123456789" + "-_"
    ensures BASE64.fill == "=" && BASE64URL.fill == "%3d"
  {
    hide Run;
    UpperCase();
    LowerCase();
    RunLiterally('0', "0123456789");
  }

  lemma LettersLiterally(c: byte, data: Bytes)
    ensures IsLetter(c, data) <==> c in data
  {
    if c in data {
      CodeInData(c, data);
    }
  }

  lemma {:induction false} CodeInData(c: byte, data: Bytes)
    requires c in data
    ensures Code(c, data) < |data|
  {
    if data[0] != c {
      CodeInData(c, data[1..]);
    }
  }

  // ---- Encoding ----

  lemma TripleEncoded(bin: Bytes, a: Alphabet)
    requires |a.data| == 64 && |bin| >= 3
    ensures Encoded(bin, a) == Letters(Triple(bin[0], bin[1], bin[2]), 4, a.data) + Encoded(bin[3..], a)
  {
    hide Letters, Triple;
  }

  lemma TripleLetters(x: byte, y: byte, z: byte, s: nat, t: nat, u: nat, v: nat, data: Bytes)
    requires |data| == 64 && s < 64 && t < 64 && u < 64 && v < 64
    requires s * 262144 + t * 4096 + u * 64 + v == x as int * 65536 + y as int * 256 + z as int
    ensures Letters(Triple(x, y, z), 4, data) == [data[s], data[t], data[u], data[v]]
  {
    hide Letters, Group;
    GroupOfFour(s, t, u, v);
    GroupLetters(s, t, u, v, 4, data);
  }

  /** Octets 3g to 3g+2 make a number of 24 bits; its digits to the base 64 choose letters 4g to 4g+3. */
  lemma {:induction false} EncodedByPosition(bin: Bytes, g: nat, s: nat, t: nat, u: nat, v: nat, a: Alphabet)
    requires |a.data| == 64 && 3 * g + 3 <= |bin| && s < 64 && t < 64 && u < 64 && v < 64
    requires s * 262144 + t * 4096 + u * 64 + v
          == bin[3 * g] as int * 65536 + bin[3 * g + 1] as int * 256 + bin[3 * g + 2] as int
    ensures 4 * g + 4 <= |Encoded(bin, a)|
    ensures Encoded(bin, a)[4 * g..4 * g + 4] == [a.data[s], a.data[t], a.data[u], a.data[v]]
    decreases g
  {
    hide Letters, Encoded, Triple;
    TripleEncoded(bin, a);
    var first, rest := Letters(Triple(bin[0], bin[1], bin[2]), 4, a.data), Encoded(bin[3..], a);
    if g == 0 {
      TripleLetters(bin[0], bin[1], bin[2], s, t, u, v, a.data);
      assert (first + rest)[..4] == first;
    } else {
      EncodedByPosition(bin[3..], g - 1, s, t, u, v, a);
      assert (first + rest)[4 * g..4 * g + 4] == rest[4 * (g - 1)..4 * (g - 1) + 4];
    }
  }

  /** What is left behind the last three octets is filled up with zero bits to whole letters, and then with fills. */
  lemma {:induction false} EncodedEnds(bin: Bytes, g: nat, s: nat, t: nat, u: nat, a: Alphabet)
    requires |a.data| == 64 && 3 * g <= |bin| < 3 * g + 3 && s < 64 && t < 64 && u < 64
    requires |bin| == 3 * g + 1 ==> s * 64 + t == bin[3 * g] as int * 16
    requires |bin| == 3 * g + 2 ==>
      s * 4096 + t * 64 + u == (bin[3 * g] as int * 256 + bin[3 * g + 1] as int) * 4
    ensures 4 * g <= |Encoded(bin, a)|
    ensures Encoded(bin, a)[4 * g..] ==
      if |bin| == 3 * g then []
      else if |bin| == 3 * g + 1 then [a.data[s], a.data[t]] + a.fill + a.fill
      else [a.data[s], a.data[t], a.data[u]] + a.fill
    decreases g
  {
    hide Letters, Encoded, Triple;
    if g == 0 {
      FewOctets(bin, s, t, u, a);
      assert Encoded(bin, a)[0..] == Encoded(bin, a);
    } else {
      var first := Letters(Triple(bin[0], bin[1], bin[2]), 4, a.data);
      TripleEncoded(bin, a);
      EncodedEnds(bin[3..], g - 1, s, t, u, a);
      assert (first + Encoded(bin[3..], a))[4 * g..] == Encoded(bin[3..], a)[4 * (g - 1)..];
    }
  }

  lemma FewEncoded(bin: Bytes, a: Alphabet)
    requires |a.data| == 64
    ensures |bin| == 1 ==> Encoded(bin, a) == Letters(Triple(bin[0], '\0', '\0'), 2, a.data) + a.fill + a.fill
    ensures |bin| == 2 ==> Encoded(bin, a) == Letters(Triple(bin[0], bin[1], '\0'), 3, a.data) + a.fill
    ensures |bin| == 0 ==> Encoded(bin, a) == []
  {
    hide Letters, Triple;
  }

  lemma FewOctets(bin: Bytes, s: nat, t: nat, u: nat, a: Alphabet)
    requires |a.data| == 64 && |bin| < 3 && s < 64 && t < 64 && u < 64
    requires |bin| == 1 ==> s * 64 + t == bin[0] as int * 16
    requires |bin| == 2 ==> s * 4096 + t * 64 + u == (bin[0] as int * 256 + bin[1] as int) * 4
    ensures Encoded(bin, a) ==
      if |bin| == 0 then []
      else if |bin| == 1 then [a.data[s], a.data[t]] + a.fill + a.fill
      else [a.data[s], a.data[t], a.data[u]] + a.fill
  {
    hide Letters, Encoded, Group;
    FewEncoded(bin, a);
    GroupOfFour(s, t, 0, 0);
    GroupOfFour(s, t, u, 0);
    GroupLetters(s, t, 0, 0, 2, a.data);
    GroupLetters(s, t, u, 0, 3, a.data);
  }

  // ---- Decoding ----

  /** The positions of letters in an alphabet. */
  predicate Positions(p: seq<nat>, body: Bytes, a: Alphabet) {
    |p| == |body| && forall i :: 0 <= i < |p| ==> p[i] < |a.data| && a.data[p[i]] == body[i]
  }

  lemma CodesArePositions(p: seq<nat>, body: Bytes, a: Alphabet)
    requires WellFormed(a) && Positions(p, body, a)
    ensures InAlphabet(body, a.data) && forall i :: 0 <= i < |p| ==> Code(body[i], a.data) == p[i]
  {
    forall i | 0 <= i < |p| ensures Code(body[i], a.data) == p[i] {
      CodeOfLetter(p[i], a);
    }
  }

  lemma OctetsOfTriple(x: byte, y: byte, z: byte)
    ensures Octets(Triple(x, y, z), 1) == [x] && Octets(Triple(x, y, z), 2) == [x, y]
    ensures Octets(Triple(x, y, z), 3) == [x, y, z]
  {
    hide OctetAt, Triple;
    OctetDigits(x, y, z);
  }

  lemma DecodedStep(p: seq<nat>, body: Bytes, a: Alphabet)
    requires WellFormed(a) && Positions(p, body, a) && |body| >= 4
    ensures Group([p[0], p[1], p[2], p[3]]) < 0x1000000
    ensures DecodedLetters(body, a.data)
         == Octets(Group([p[0], p[1], p[2], p[3]]), 3) + DecodedLetters(body[4..], a.data)
    ensures Positions(p[4..], body[4..], a)
  {
    hide Octets, Code, Group;
    CodesArePositions(p, body, a);
    GroupFits(p[0], p[1], p[2], p[3]);
  }

  /** Letters 4g to 4g+3 make a number of 24 bits, and octets 3g to 3g+2 are its bytes. */
  lemma {:induction false} DecodedByPosition(p: seq<nat>, body: Bytes, g: nat, x: byte, y: byte, z: byte, a: Alphabet)
    requires WellFormed(a) && Positions(p, body, a) && 4 * g + 4 <= |body|
    requires p[4 * g] * 262144 + p[4 * g + 1] * 4096 + p[4 * g + 2] * 64 + p[4 * g + 3]
          == x as int * 65536 + y as int * 256 + z as int
    ensures 3 * g + 3 <= |DecodedLetters(body, a.data)|
    ensures DecodedLetters(body, a.data)[3 * g..3 * g + 3] == [x, y, z]
    decreases g
  {
    hide DecodedLetters, Octets, Group;
    DecodedStep(p, body, a);
    var first, rest := Octets(Group([p[0], p[1], p[2], p[3]]), 3), DecodedLetters(body[4..], a.data);
    if g == 0 {
      GroupOfFour(p[0], p[1], p[2], p[3]);
      OctetsOfTriple(x, y, z);
      assert (first + rest)[..3] == first;
    } else {
      DecodedByPosition(p[4..], body[4..], g - 1, x, y, z, a);
      assert (first + rest)[3 * g..3 * g + 3] == rest[3 * (g - 1)..3 * (g - 1) + 3];
    }
  }

  lemma DecodedEnd(p: seq<nat>, body: Bytes, x: byte, y: byte, left: nat, a: Alphabet)
    requires WellFormed(a) && Positions(p, body, a) && |body| in [0, 2, 3]
    requires |body| == 2 ==> left < 16 && p[0] * 64 + p[1] == x as int * 16 + left
    requires |body| == 3 ==> left < 4 && p[0] * 4096 + p[1] * 64 + p[2] == x as int * 1024 + y as int * 4 + left
    ensures DecodedLetters(body, a.data) == if |body| == 0 then [] else if |body| == 2 then [x] else [x, y]
  {
    hide Octets, Code, Group;
    CodesArePositions(p, body, a);
    if |body| == 2 {
      GroupOfFour(p[0], p[1], 0, 0);
      OctetsOfTriple(x, (left * 16) as char, '\0');
    } else if |body| == 3 {
      GroupOfFour(p[0], p[1], p[2], 0);
      OctetsOfTriple(x, y, (left * 64) as char);
    }
  }

  /** Two letters at the end give one octet, three give two; the bits left over are dropped. */
  lemma {:induction false} DecodedEnds(p: seq<nat>, body: Bytes, g: nat, x: byte, y: byte, left: nat, a: Alphabet)
    requires WellFormed(a) && Positions(p, body, a) && |body| - 4 * g in [0, 2, 3]
    requires |body| == 4 * g + 2 ==> left < 16 && p[4 * g] * 64 + p[4 * g + 1] == x as int * 16 + left
    requires |body| == 4 * g + 3 ==>
      left < 4 && p[4 * g] * 4096 + p[4 * g + 1] * 64 + p[4 * g + 2] == x as int * 1024 + y as int * 4 + left
    ensures 3 * g <= |DecodedLetters(body, a.data)|
    ensures DecodedLetters(body, a.data)[3 * g..]
         == if |body| == 4 * g then [] else if |body| == 4 * g + 2 then [x] else [x, y]
    decreases g
  {
    hide DecodedLetters, Octets, Group;
    if g == 0 {
      DecodedEnd(p, body, x, y, left, a);
      assert DecodedLetters(body, a.data)[0..] == DecodedLetters(body, a.data);
    } else {
      var first := Octets(Group([p[0], p[1], p[2], p[3]]), 3);
      DecodedStep(p, body, a);
      DecodedEnds(p[4..], body[4..], g - 1, x, y, left, a);
      assert (first + DecodedLetters(body[4..], a.data))[3 * g..] == DecodedLetters(body[4..], a.data)[3 * (g - 1)..];
    }
  }

  lemma FillsLiterally(fill: Bytes)
    ensures Repeat(fill, 0) == [] && Repeat(fill, 1) == fill && Repeat(fill, 2) == fill + fill
    ensures Repeat(fill, 3) == fill + fill + fill
  {
    assert [] + fill == fill;
    assert Repeat(fill, 1) == Repeat(fill, 0) + fill;
    assert Repeat(fill, 2) == Repeat(fill, 1) + fill;
    assert Repeat(fill, 3) == Repeat(fill, 2) + fill;
  }

  lemma PaddedLiterally(base: Bytes, a: Alphabet)
    ensures Padded(base, a) == match |base| % 4
      case 0 => base
      case 1 => base + (a.fill + a.fill + a.fill)
      case 2 => base + (a.fill + a.fill)
      case _ => base + a.fill
  {
    FillsLiterally(a.fill);
  }

  // ---- Refusal ----

  /** More characters than one fill, the last of which are a fill. */
  predicate EndsWithFill(s: Bytes, fill: Bytes) {
    |s| > |fill| && s[|s| - |fill|..] == fill
  }

  lemma StripOnce(s: Bytes, fill: Bytes, size: nat, count: nat)
    requires fill != [] && size <= |s| && count <= 2
    ensures EndsWithFill(s[..size], fill) <==> size > |fill| && s[size - |fill|..size] == fill
    ensures StripFill(s, fill, size, count)
         == if !EndsWithFill(s[..size], fill) then Some((size, count))
            else if count == 2 then None
            else StripFill(s, fill, size - |fill|, count + 1)
  {
    if size > |fill| {
      assert s[..size][size - |fill|..] == s[size - |fill|..size];
    }
  }

  /** `x` and then `k` fills. */
  function Filled(x: Bytes, k: nat, fill: Bytes): Bytes
    requires k <= 3
  {
    match k
    case 0 => x
    case 1 => x + fill
    case 2 => x + fill + fill
    case _ => x + fill + fill + fill
  }

  /** One fill is taken off the end, and counted. */
  lemma StripFilled(s: Bytes, x: Bytes, k: nat, fill: Bytes, count: nat)
    requires fill != [] && x != [] && 1 <= k <= 3 && count <= 2 && Filled(x, k, fill) <= s
    ensures |Filled(x, k, fill)| == |Filled(x, k - 1, fill)| + |fill| && Filled(x, k - 1, fill) <= s
    ensures StripFill(s, fill, |Filled(x, k, fill)|, count)
         == if count == 2 then None else StripFill(s, fill, |Filled(x, k - 1, fill)|, count + 1)
  {
    hide StripFill;
    StripBehind(s, Filled(x, k - 1, fill), fill, count);
  }

  lemma StripAll(s: Bytes, x: Bytes, k: nat, fill: Bytes)
    requires fill != [] && k <= 3 && s == Filled(x, k, fill)
    requires k > 0 ==> x != []
    requires k < 3 ==> !EndsWithFill(x, fill)
    ensures StripFill(s, fill, |s|, 0) == if k == 3 then None else Some((|x|, k))
  {
    hide StripFill, EndsWithFill, Filled;
    if k > 0 {
      StripFilled(s, x, k, fill, 0);
    }
    if k > 1 {
      StripFilled(s, x, k - 1, fill, 1);
    }
    if k > 2 {
      StripFilled(s, x, k - 2, fill, 2);
    } else {
      FilledZero(x, fill);
      assert s[..|x|] == x;
      StripOnce(s, fill, |x|, k);
    }
  }

  lemma FilledZero(x: Bytes, fill: Bytes)
    ensures Filled(x, 0, fill) == x
  {
  }

  lemma StartOfFilled(x: Bytes, k: nat, fill: Bytes)
    requires k <= 3
    ensures |x| <= |Filled(x, k, fill)| && Filled(x, k, fill)[..|x|] == x
  {
  }

  lemma InAlphabetLiterally(x: Bytes, data: Bytes)
    ensures InAlphabet(x, data) <==> !exists i :: 0 <= i < |x| && x[i] !in data
  {
    hide IsLetter;
    forall i | 0 <= i < |x| ensures IsLetter(x[i], data) <==> x[i] in data {
      LettersLiterally(x[i], data);
    }
  }

  /**
   * What is decoded, and what is refused and why, of a text that is `x` and `k` fills, where `x` does not end with a
   * fill any more: every text is of that form, or has three fills at its end, with something in front of them.
   */
  lemma DecodedExactly(x: Bytes, k: nat, a: Alphabet)
    requires a.fill != [] && k <= 3
    requires k > 0 ==> x != []
    requires k < 3 ==> !EndsWithFill(x, a.fill)
    ensures Decoded(Filled(x, k, a.fill), a) ==
      if k == 3 then Err(TooMuchFill)
      else if (|x| + k) % 4 != 0 then Err(WrongTotalSize)
      else if exists i :: 0 <= i < |x| && x[i] !in a.data then Err(NotInAlphabet)
      else Ok(DecodedLetters(x, a.data))
  {
    hide DecodedLetters, EndsWithFill, StripFill, InAlphabet, Filled;
    var s := Filled(x, k, a.fill);
    StripAll(s, x, k, a.fill);
    StartOfFilled(x, k, a.fill);
    InAlphabetLiterally(x, a.data);
  }

  /** Every text is of one of these forms. */
  lemma FormExists(s: Bytes, fill: Bytes) returns (x: Bytes, k: nat)
    requires fill != []
    ensures k <= 3 && s == Filled(x, k, fill) && (k > 0 ==> x != []) && (k < 3 ==> !EndsWithFill(x, fill))
  {
    x, k := s, 0;
    while k < 3 && EndsWithFill(x, fill)
      invariant k <= 3 && (k > 0 ==> x != []) && s == Filled(x, k, fill)
      decreases 3 - k
    {
      var y := x[..|x| - |fill|];
      assert x == y + fill;
      x, k := y, k + 1;
    }
  }
}

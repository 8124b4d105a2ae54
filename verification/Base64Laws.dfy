/** What encoding, decoding, padding and trimming are to one another, for every well-formed alphabet. */
module Base64Laws {
  import opened ByteStrings
  import opened Base64

  // ---- The fill at the end ----

  /** Where no letter starts a fill, nothing is stripped. */
  lemma BodyIsKept(base: Bytes, size: nat, a: Alphabet, count: nat)
    requires WellFormed(a) && size <= |base| && InAlphabet(base[..size], a.data) && count <= 2
    ensures StripFill(base, a.fill, size, count) == Some((size, count))
  {
    if size > |a.fill| {
      var last := base[size - |a.fill|..size];
      assert last[0] == base[..size][size - |a.fill|];
      assert last != a.fill;
    }
  }

  /** A fill with something in front of it is taken off and counted. */
  lemma StripBehind(base: Bytes, front: Bytes, fill: Bytes, count: nat)
    requires fill != [] && front != [] && count <= 2 && front + fill <= base
    ensures front <= base
    ensures StripFill(base, fill, |front| + |fill|, count)
         == if count == 2 then None else StripFill(base, fill, |front|, count + 1)
  {
    var size := |front| + |fill|;
    assert base[..size] == front + fill;
    assert base[|front|..size] == base[..size][|front|..] == fill;
    assert base[..|front|] == base[..size][..|front|] == front;
  }

  /** The fills after a body are counted exactly, up to the third, which is an error. */
  lemma {:induction false} StripCountsFills(base: Bytes, body: Bytes, m: nat, a: Alphabet, count: nat)
    requires WellFormed(a) && InAlphabet(body, a.data) && (body != [] || m == 0) && count <= 2
    requires body + Repeat(a.fill, m) <= base
    ensures StripFill(base, a.fill, |body| + |Repeat(a.fill, m)|, count)
         == if count + m > 2 then None else Some((|body|, count + m))
  {
    hide InAlphabet, StripFill;
    if m == 0 {
      assert base[..|body|] == body && body + [] == body;
      BodyIsKept(base, |body|, a, count);
    } else {
      var shorter := body + Repeat(a.fill, m - 1);
      assert body + Repeat(a.fill, m) == shorter + a.fill;
      StripBehind(base, shorter, a.fill, count);
      if count < 2 {
        StripCountsFills(base, body, m - 1, a, count + 1);
      }
    }
  }

  /** Whatever was stripped were fills. */
  lemma {:induction false} StripLeavesPrefix(base: Bytes, fill: Bytes, size: nat, count: nat, stripped: (nat, nat))
    requires fill != [] && size <= |base| && count <= 2
    requires StripFill(base, fill, size, count) == Some(stripped)
    ensures base[..size] == base[..stripped.0] + Repeat(fill, stripped.1 - count)
  {
    if size > |fill| && base[size - |fill|..size] == fill {
      var shorter := size - |fill|;
      StripLeavesPrefix(base, fill, shorter, count + 1, stripped);
      assert base[..size] == base[..shorter] + fill;
    }
  }

  // ---- Which strings decode ----

  /** `s` is a body of letters followed by `k` fills, and both lengths fit. */
  ghost predicate IsShape(s: Bytes, body: Bytes, k: nat, a: Alphabet) {
    && k <= 2
    && s == body + Repeat(a.fill, k)
    && InAlphabet(body, a.data)
    && |body| % 4 == (if k == 0 then 0 else 4 - k)
  }

  /** Three octets for each whole group of letters, and one fewer than letters that are left over. */
  lemma {:induction false} DecodedLength(body: Bytes, data: Bytes, g: nat)
    requires |body| - 4 * g in [0, 2, 3]
    ensures |DecodedLetters(body, data)| == 3 * g + if |body| == 4 * g then 0 else |body| - 4 * g - 1
    decreases g
  {
    if g > 0 {
      DecodedLength(body[4..], data, g - 1);
    }
  }

  lemma WholeOctets(n: nat)
    requires n % 4 != 1
    ensures n - 4 * (n / 4) in [0, 2, 3]
    ensures 3 * n / 4 == 3 * (n / 4) + if n == 4 * (n / 4) then 0 else n - 4 * (n / 4) - 1
  {
    var q := n / 4;
    if n % 4 == 0 {
      assert n == 4 * q;
    } else if n % 4 == 2 {
      assert n == 4 * q + 2 && 3 * n / 4 == 3 * q + 1;
    } else {
      assert n == 4 * q + 3 && 3 * n / 4 == 3 * q + 2;
    }
  }

  lemma ShapeDecodes(s: Bytes, body: Bytes, k: nat, a: Alphabet)
    requires WellFormed(a) && IsShape(s, body, k, a)
    ensures Decoded(s, a) == Ok(DecodedLetters(body, a.data))
    ensures |DecodedLetters(body, a.data)| == 3 * |body| / 4
  {
    hide DecodedLetters, InAlphabet, Repeat;
    StripCountsFills(s, body, k, a, 0);
    assert s[..|body|] == body && s[..|s|] == s;
    WholeGroups(|body|, k);
    WholeOctets(|body|);
    DecodedLength(body, a.data, |body| / 4);
  }

  /** `decode` returns exactly on letters followed by the fills their number calls for. */
  lemma DecodeAcceptsShapes(s: Bytes, a: Alphabet)
    requires WellFormed(a)
    ensures Decoded(s, a).Ok? <==> exists body, k :: IsShape(s, body, k, a)
  {
    hide InAlphabet, DecodedLetters;
    if Decoded(s, a).Ok? {
      var (size, count) := StripFill(s, a.fill, |s|, 0).value;
      StripLeavesPrefix(s, a.fill, |s|, 0, (size, count));
      assert s[..|s|] == s;
      WholeGroups(size, count);
      assert IsShape(s, s[..size], count, a);
    }
    forall body, k | IsShape(s, body, k, a) ensures Decoded(s, a).Ok? {
      ShapeDecodes(s, body, k, a);
    }
  }

  // ---- Round trips ----

  lemma CodeOfLetter(i: nat, a: Alphabet)
    requires WellFormed(a) && i < 64
    ensures Code(a.data[i], a.data) == i
  {
    CodeIsFirst(a.data[i], a.data, i);
  }

  /** The letters of `bin` without the fills. */
  function EncodedLetters(bin: Bytes, data: Bytes): Bytes
    requires |data| == 64
  {
    match |bin|
    case 0 => []
    case 1 => Letters(Triple(bin[0], '\0', '\0'), 2, data)
    case 2 => Letters(Triple(bin[0], bin[1], '\0'), 3, data)
    case _ => Letters(Triple(bin[0], bin[1], bin[2]), 4, data) + EncodedLetters(bin[3..], data)
  }

  function FillCount(size: nat): nat {
    if size % 3 == 0 then 0 else 3 - size % 3
  }

  lemma LettersAreLetters(triple: nat, n: nat, a: Alphabet)
    requires WellFormed(a)
    ensures InAlphabet(Letters(triple, n, a.data), a.data)
    ensures forall i :: 0 <= i < n ==> Code(Letters(triple, n, a.data)[i], a.data) == SextetAt(triple, i)
  {
    forall i | 0 <= i < n ensures Code(Letters(triple, n, a.data)[i], a.data) == SextetAt(triple, i) {
      CodeOfLetter(SextetAt(triple, i), a);
    }
  }

  lemma {:induction false} EncodedSplits(bin: Bytes, a: Alphabet)
    requires |a.data| == 64
    ensures Encoded(bin, a) == EncodedLetters(bin, a.data) + Repeat(a.fill, FillCount(|bin|))
  {
    if |bin| >= 3 {
      EncodedSplits(bin[3..], a);
      assert FillCount(|bin|) == FillCount(|bin[3..]|);
    } else {
      assert Repeat(a.fill, 1) == [] + a.fill;
      assert Repeat(a.fill, 2) == Repeat(a.fill, 1) + a.fill;
    }
  }

  lemma {:induction false} EncodedLettersFit(bin: Bytes, a: Alphabet)
    requires WellFormed(a)
    ensures InAlphabet(EncodedLetters(bin, a.data), a.data)
    ensures |EncodedLetters(bin, a.data)| % 4 == if |bin| % 3 == 0 then 0 else 1 + |bin| % 3
  {
    if |bin| >= 3 {
      LettersAreLetters(Triple(bin[0], bin[1], bin[2]), 4, a);
      EncodedLettersFit(bin[3..], a);
    } else if |bin| == 1 {
      LettersAreLetters(Triple(bin[0], '\0', '\0'), 2, a);
    } else if |bin| == 2 {
      LettersAreLetters(Triple(bin[0], bin[1], '\0'), 3, a);
    }
  }

  /** Encoding produces a shape, so its output is always accepted. */
  lemma EncodedIsShape(bin: Bytes, a: Alphabet)
    requires WellFormed(a)
    ensures IsShape(Encoded(bin, a), EncodedLetters(bin, a.data), FillCount(|bin|), a)
  {
    EncodedSplits(bin, a);
    EncodedLettersFit(bin, a);
  }

  /** Four sextets make a number of 24 bits. */
  lemma GroupOfFour(a: nat, b: nat, c: nat, d: nat)
    ensures Group([a, b, c, d]) == a * 0x40000 + b * 0x1000 + c * 0x40 + d
  {
    assert [a, b, c, d][..3] == [a, b, c] && [a, b, c][..2] == [a, b] && [a, b][..1] == [a] && [a][..0] == [];
    assert Group([a]) == a;
    assert Group([a, b]) == a * 64 + b;
    assert Group([a, b, c]) == (a * 64 + b) * 64 + c;
  }

  /** A number below 64^4 has one way of being written with four sextets. */
  lemma GroupDigits(a: nat, b: nat, c: nat, d: nat)
    requires a < 64 && b < 64 && c < 64 && d < 64
    ensures var t := Group([a, b, c, d]);
      && t / 0x40000 % 64 == a && t / 0x1000 % 64 == b && t / 0x40 % 64 == c && t % 64 == d
  {
    GroupOfFour(a, b, c, d);
    var t := a * 0x40000 + b * 0x1000 + c * 0x40 + d;
    assert t / 0x40000 == a;
    assert t / 0x1000 == a * 64 + b;
    assert t / 0x40 == a * 0x1000 + b * 64 + c;
  }

  lemma ShiftedBySixes(t: nat)
    ensures t / 64 / 64 == t / 0x1000 && t / 64 / 64 / 64 == t / 0x40000
  {
  }

  /** The sextets of a number are its digits to the base 64. */
  lemma SextetsAreDigits(t: nat)
    ensures SextetAt(t, 0) == t / 0x40000 % 64 && SextetAt(t, 1) == t / 0x1000 % 64
    ensures SextetAt(t, 2) == t / 0x40 % 64 && SextetAt(t, 3) == t % 64
  {
    ShiftedBySixes(t);
    var u := t / 64;
    var v := u / 64;
    var w := v / 64;
    assert SextetAt(t, 2) == SextetAt(u, 3);
    assert SextetAt(t, 1) == SextetAt(u, 2) == SextetAt(v, 3);
    assert SextetAt(t, 0) == SextetAt(u, 1) == SextetAt(v, 2) == SextetAt(w, 3);
  }

  lemma SextetsRegroup(t: nat)
    requires t < 0x1000000
    ensures Group([SextetAt(t, 0), SextetAt(t, 1), SextetAt(t, 2), SextetAt(t, 3)]) == t
  {
    hide SextetAt, Group;
    SextetsAreDigits(t);
    ShiftedBySixes(t);
    var u := t / 64;
    var v := u / 64;
    GroupOfFour(v / 64, v % 64, u % 64, t % 64);
    assert v / 64 < 64;
  }

  lemma OctetDigits(x: byte, y: byte, z: byte)
    ensures var t := Triple(x, y, z);
      OctetAt(t, 0) == x && OctetAt(t, 1) == y && OctetAt(t, 2) == z
    ensures z == '\0' ==> SextetAt(Triple(x, y, z), 3) == 0
    ensures y == z == '\0' ==> SextetAt(Triple(x, y, z), 2) == 0
  {
    var t := Triple(x, y, z);
    assert t / 0x10000 == x as int;
    assert t / 0x100 == x as int * 0x100 + y as int;
    assert z == '\0' ==> t == 64 * (x as int * 1024 + y as int * 4);
    assert y == z == '\0' ==> t / 64 == 64 * (x as int * 16);
  }

  /** Decoding the letters of a group, whole or cut short, gives the octets back. */
  lemma GroupDecodesBack(x: byte, y: byte, z: byte, n: nat, a: Alphabet)
    requires WellFormed(a) && 2 <= n <= 4
    requires (n < 4 ==> z == '\0') && (n < 3 ==> y == '\0')
    ensures DecodedLetters(Letters(Triple(x, y, z), n, a.data), a.data) == [x, y, z][..n - 1]
  {
    hide Group, Triple, SextetAt, OctetAt, Letters;
    var t := Triple(x, y, z);
    LettersAreLetters(t, n, a);
    SextetsRegroup(t);
    OctetDigits(x, y, z);
    assert DecodedLetters(Letters(t, n, a.data), a.data) == Octets(t, n - 1);
  }

  /** Decoding goes group by group. */
  lemma DecodedGroups(group: Bytes, rest: Bytes, data: Bytes)
    requires |group| == 4
    ensures DecodedLetters(group + rest, data) == DecodedLetters(group, data) + DecodedLetters(rest, data)
  {
    var body := group + rest;
    assert body[4..] == rest && group[4..] == [];
    assert forall i :: 0 <= i < 4 ==> body[i] == group[i];
  }

  lemma {:induction false} LettersDecodeBack(bin: Bytes, a: Alphabet)
    requires WellFormed(a)
    ensures DecodedLetters(EncodedLetters(bin, a.data), a.data) == bin
  {
    hide Octets, OctetAt, Group, Triple, SextetAt;
    if |bin| >= 3 {
      var group := Letters(Triple(bin[0], bin[1], bin[2]), 4, a.data);
      DecodedGroups(group, EncodedLetters(bin[3..], a.data), a.data);
      GroupDecodesBack(bin[0], bin[1], bin[2], 4, a);
      LettersDecodeBack(bin[3..], a);
    } else if |bin| == 1 {
      GroupDecodesBack(bin[0], '\0', '\0', 2, a);
    } else if |bin| == 2 {
      GroupDecodesBack(bin[0], bin[1], '\0', 3, a);
    }
  }

  /** `decode(encode(x)) == x`, for every byte string. */
  lemma DecodeEncode(bin: Bytes, a: Alphabet)
    requires WellFormed(a)
    ensures Decoded(Encoded(bin, a), a) == Ok(bin)
  {
    EncodedIsShape(bin, a);
    ShapeDecodes(Encoded(bin, a), EncodedLetters(bin, a.data), FillCount(|bin|), a);
    LettersDecodeBack(bin, a);
  }

  // ---- Padding bits ----

  /** The bits of the last letter that belong to no octet are all zero (section 3.5 of RFC 4648). */
  predicate PadBitsZero(body: Bytes, data: Bytes) {
    match |body| % 4
    case 2 => Code(body[|body| - 1], data) % 16 == 0
    case 3 => Code(body[|body| - 1], data) % 4 == 0
    case _ => true
  }

  lemma OctetsRegroup(t: nat)
    requires t < 0x1000000
    ensures Triple(OctetAt(t, 0), OctetAt(t, 1), OctetAt(t, 2)) == t
    ensures Triple(OctetAt(t, 0), OctetAt(t, 1), '\0') == t - t % 0x100
    ensures Triple(OctetAt(t, 0), '\0', '\0') == t - t % 0x10000
  {
    var u := t / 0x100;
    var v := u / 0x100;
    assert t == v * 0x10000 + u % 0x100 * 0x100 + t % 0x100;
    assert t / 0x10000 == v;
  }

  lemma LowBits(k: nat, r: nat)
    ensures r < 0x100 ==> (k * 0x100 + r) % 0x100 == r
    ensures r < 0x10000 ==> (k * 0x10000 + r) % 0x10000 == r
  {
  }

  /** Dropping the last one or two octets of a group clears the bits the shorter group of letters has too many. */
  lemma CutGroup(a: nat, b: nat, c: nat)
    requires a < 64 && b < 64 && c < 64
    ensures var t := Group([a, b, c, 0]); t - t % 0x100 == Group([a, b, RoundedDown(c, 4), 0])
    ensures var t := Group([a, b, 0, 0]); t - t % 0x10000 == Group([a, RoundedDown(b, 16), 0, 0])
  {
    hide Group;
    GroupOfFour(a, b, c, 0);
    GroupOfFour(a, b, RoundedDown(c, 4), 0);
    GroupOfFour(a, b, 0, 0);
    GroupOfFour(a, RoundedDown(b, 16), 0, 0);
    var q, r := c / 4, c % 4;
    LowBits(a * 1024 + b * 16 + q, r * 0x40);
    assert Group([a, b, 4 * q + r, 0]) == (a * 1024 + b * 16 + q) * 0x100 + r * 0x40;
    var u, v := b / 16, b % 16;
    LowBits(a * 4 + u, v * 0x1000);
    assert Group([a, 16 * u + v, 0, 0]) == (a * 4 + u) * 0x10000 + v * 0x1000;
  }

  lemma GroupFits(x: nat, y: nat, z: nat, w: nat)
    requires x < 64 && y < 64 && z < 64 && w < 64
    ensures Group([x, y, z, w]) < 0x1000000
  {
    hide Group;
    GroupOfFour(x, y, z, w);
  }

  /** The largest multiple of `m` that is not above `n`. */
  function RoundedDown(n: nat, m: nat): (r: nat)
    requires m > 0
    ensures r <= n && (r == n <==> n % m == 0)
  {
    assert n == n / m * m + n % m;
    n / m * m
  }

  /** The letters of a number made of four sextets are the letters of the sextets. */
  lemma GroupLetters(x: nat, y: nat, z: nat, w: nat, n: nat, data: Bytes)
    requires |data| == 64 && x < 64 && y < 64 && z < 64 && w < 64 && n <= 4
    ensures Letters(Group([x, y, z, w]), n, data) == [data[x], data[y], data[z], data[w]][..n]
  {
    hide SextetAt, Group;
    SextetsAreDigits(Group([x, y, z, w]));
    GroupDigits(x, y, z, w);
  }

  lemma Reencoded2(x: nat, y: nat, t: nat, data: Bytes)
    requires |data| == 64 && x < 64 && y < 64 && t == Group([x, y, 0, 0])
    ensures EncodedLetters([OctetAt(t, 0)], data) == [data[x], data[RoundedDown(y, 16)]]
  {
    hide OctetAt, Group, Triple, Letters, SextetAt, RoundedDown;
    GroupFits(x, y, 0, 0);
    OctetsRegroup(t);
    CutGroup(x, y, 0);
    GroupLetters(x, RoundedDown(y, 16), 0, 0, 2, data);
  }

  lemma Reencoded3(x: nat, y: nat, z: nat, t: nat, data: Bytes)
    requires |data| == 64 && x < 64 && y < 64 && z < 64 && t == Group([x, y, z, 0])
    ensures EncodedLetters([OctetAt(t, 0), OctetAt(t, 1)], data) == [data[x], data[y], data[RoundedDown(z, 4)]]
  {
    hide OctetAt, Group, Triple, Letters, SextetAt, RoundedDown;
    GroupFits(x, y, z, 0);
    OctetsRegroup(t);
    CutGroup(x, y, z);
    GroupLetters(x, y, RoundedDown(z, 4), 0, 3, data);
  }

  lemma Reencoded4(x: nat, y: nat, z: nat, w: nat, t: nat, data: Bytes)
    requires |data| == 64 && x < 64 && y < 64 && z < 64 && w < 64 && t == Group([x, y, z, w])
    ensures EncodedLetters([OctetAt(t, 0), OctetAt(t, 1), OctetAt(t, 2)], data) == [data[x], data[y], data[z], data[w]]
  {
    hide OctetAt, Group, Triple, Letters, SextetAt, RoundedDown;
    GroupFits(x, y, z, w);
    OctetsRegroup(t);
    GroupLetters(x, y, z, w, 4, data);
  }

  lemma FewLetters(body: Bytes, x: nat, y: nat, z: nat, w: nat, data: Bytes)
    requires 2 <= |body| <= 4 && x == Code(body[0], data) && y == Code(body[1], data)
    requires if |body| > 2 then z == Code(body[2], data) else z == 0
    requires if |body| > 3 then w == Code(body[3], data) else w == 0
    ensures DecodedLetters(body, data) == Octets(Group([x, y, z, w]), |body| - 1)
  {
    if |body| == 4 {
      assert DecodedLetters(body[4..], data) == [];
    }
  }

  lemma PairEncodesBack(body: Bytes, a: Alphabet)
    requires WellFormed(a) && InAlphabet(body, a.data) && |body| == 2
    ensures EncodedLetters(DecodedLetters(body, a.data), a.data) == body <==> PadBitsZero(body, a.data)
  {
    hide OctetAt, Group, DecodedLetters, EncodedLetters, RoundedDown;
    var x, y := Code(body[0], a.data), Code(body[1], a.data);
    var t := Group([x, y, 0, 0]);
    FewLetters(body, x, y, 0, 0, a.data);
    assert Octets(t, 1) == [OctetAt(t, 0)];
    Reencoded2(x, y, t, a.data);
    CodeOfLetter(RoundedDown(y, 16), a);
  }

  lemma TripleEncodesBack(body: Bytes, a: Alphabet)
    requires WellFormed(a) && InAlphabet(body, a.data) && |body| == 3
    ensures EncodedLetters(DecodedLetters(body, a.data), a.data) == body <==> PadBitsZero(body, a.data)
  {
    hide OctetAt, Group, DecodedLetters, EncodedLetters, RoundedDown;
    var x, y, z := Code(body[0], a.data), Code(body[1], a.data), Code(body[2], a.data);
    var t := Group([x, y, z, 0]);
    FewLetters(body, x, y, z, 0, a.data);
    assert Octets(t, 2) == [OctetAt(t, 0), OctetAt(t, 1)];
    Reencoded3(x, y, z, t, a.data);
    CodeOfLetter(RoundedDown(z, 4), a);
  }

  lemma QuadEncodesBack(body: Bytes, a: Alphabet)
    requires WellFormed(a) && InAlphabet(body, a.data) && |body| == 4
    ensures EncodedLetters(DecodedLetters(body, a.data), a.data) == body
  {
    hide OctetAt, Group, DecodedLetters, EncodedLetters;
    var x, y, z, w := Code(body[0], a.data), Code(body[1], a.data), Code(body[2], a.data), Code(body[3], a.data);
    var t := Group([x, y, z, w]);
    FewLetters(body, x, y, z, w, a.data);
    assert Octets(t, 3) == [OctetAt(t, 0), OctetAt(t, 1), OctetAt(t, 2)];
    Reencoded4(x, y, z, w, t, a.data);
  }

  /** Encoding the octets of a group gives the group back exactly if the bits it drops are zero. */
  lemma GroupEncodesBack(body: Bytes, a: Alphabet)
    requires WellFormed(a) && InAlphabet(body, a.data) && 2 <= |body| <= 4
    ensures EncodedLetters(DecodedLetters(body, a.data), a.data) == body <==> PadBitsZero(body, a.data)
  {
    hide DecodedLetters, EncodedLetters;
    match |body| {
      case 2 => PairEncodesBack(body, a);
      case 3 => TripleEncodesBack(body, a);
      case _ => QuadEncodesBack(body, a);
    }
  }

  /** Encoding goes group by group. */
  lemma EncodedGroups(group: Bytes, rest: Bytes, data: Bytes)
    requires |data| == 64 && |group| == 3
    ensures EncodedLetters(group + rest, data) == EncodedLetters(group, data) + EncodedLetters(rest, data)
  {
    var bin := group + rest;
    assert bin[3..] == rest && group[3..] == [];
    assert forall i :: 0 <= i < 3 ==> bin[i] == group[i];
  }

  lemma PadBitsOfRest(body: Bytes, data: Bytes)
    requires |body| > 4 && |body| % 4 != 1
    ensures PadBitsZero(body, data) <==> PadBitsZero(body[4..], data)
  {
    var rest := body[4..];
    assert |rest| % 4 == |body| % 4;
    assert rest[|rest| - 1] == body[|body| - 1];
  }

  lemma {:induction false} LettersEncodeBack(body: Bytes, a: Alphabet)
    requires WellFormed(a) && InAlphabet(body, a.data) && |body| % 4 != 1
    ensures EncodedLetters(DecodedLetters(body, a.data), a.data) == body <==> PadBitsZero(body, a.data)
  {
    if |body| > 4 {
      var group, rest := body[..4], body[4..];
      PadBitsOfRest(body, a.data);
      LettersEncodeBack(rest, a);
      GroupEncodesBack(group, a);
      DecodedLength(group, a.data, 1);
      EncodedGroups(DecodedLetters(group, a.data), DecodedLetters(rest, a.data), a.data);
      DecodedGroups(group, rest, a.data);
      assert body == group + rest;
    } else if |body| >= 2 {
      GroupEncodesBack(body, a);
    }
  }

  lemma FillCountOfDecoded(n: nat, k: nat)
    requires k <= 2 && n % 4 == if k == 0 then 0 else 4 - k
    ensures FillCount(3 * n / 4) == k
  {
    var q := n / 4;
    if k == 0 {
      assert n == 4 * q && 3 * n / 4 == 3 * q;
    } else if k == 1 {
      assert n == 4 * q + 3 && 3 * n / 4 == 3 * q + 2;
    } else {
      assert n == 4 * q + 2 && 3 * n / 4 == 3 * q + 1;
    }
  }

  /** `encode(decode(s)) == s` exactly for the accepted strings whose dropped bits are zero. */
  lemma EncodeDecode(s: Bytes, body: Bytes, k: nat, a: Alphabet)
    requires WellFormed(a) && IsShape(s, body, k, a)
    ensures Decoded(s, a).Ok?
    ensures Encoded(Decoded(s, a).value, a) == s <==> PadBitsZero(body, a.data)
  {
    ShapeDecodes(s, body, k, a);
    var bin := DecodedLetters(body, a.data);
    LettersEncodeBack(body, a);
    FillCountOfDecoded(|body|, k);
    EncodedSplits(bin, a);
    SameTail(EncodedLetters(bin, a.data), body, Repeat(a.fill, k));
  }

  lemma SameTail(x: Bytes, y: Bytes, tail: Bytes)
    ensures x + tail == y + tail <==> x == y
  {
    if x + tail == y + tail {
      assert x == (x + tail)[..|x|];
      assert y == (y + tail)[..|y|];
    }
  }

  // ---- Padding and trimming ----

  /** Trimming a body of letters with fills behind it leaves the body. */
  lemma TrimmedShape(s: Bytes, body: Bytes, k: nat, a: Alphabet)
    requires WellFormed(a) && InAlphabet(body, a.data) && s == body + Repeat(a.fill, k)
    ensures Trimmed(s, a) == body
  {
    forall i: nat | i < |body| ensures !OccursAt(s, a.fill, i) {
      assert s[i] == body[i];
      assert i + |a.fill| <= |s| ==> s[i..i + |a.fill|][0] == s[i];
    }
    if k > 0 {
      RepeatStartsWithFill(a.fill, k);
      assert s[|body|..|body| + |a.fill|] == Repeat(a.fill, k)[..|a.fill|];
      assert OccursAt(s, a.fill, |body|);
    }
  }

  lemma {:induction false} RepeatStartsWithFill(fill: Bytes, k: nat)
    requires k > 0
    ensures fill <= Repeat(fill, k)
  {
    if k > 1 {
      RepeatStartsWithFill(fill, k - 1);
    }
  }

  /** `pad(trim(encode(x))) == encode(x)`, so a token may carry the encoding without its fills. */
  lemma PadTrimEncode(bin: Bytes, a: Alphabet)
    requires WellFormed(a)
    ensures Trimmed(Encoded(bin, a), a) == EncodedLetters(bin, a.data)
    ensures Padded(Trimmed(Encoded(bin, a), a), a) == Encoded(bin, a)
    ensures Decoded(Padded(Trimmed(Encoded(bin, a), a), a), a) == Ok(bin)
  {
    hide Encoded, EncodedLetters, Decoded, Trimmed, InAlphabet;
    EncodedIsShape(bin, a);
    TrimmedShape(Encoded(bin, a), EncodedLetters(bin, a.data), FillCount(|bin|), a);
    DecodeEncode(bin, a);
  }

  /** `trim(pad(b)) == b` for letters only; padding makes them decodable unless one letter is left over. */
  lemma TrimPad(body: Bytes, a: Alphabet)
    requires WellFormed(a) && InAlphabet(body, a.data)
    ensures Trimmed(Padded(body, a), a) == body
    ensures |body| % 4 != 1 ==> Decoded(Padded(body, a), a) == Ok(DecodedLetters(body, a.data))
    ensures |body| % 4 == 1 ==> Decoded(Padded(body, a), a) == Err(TooMuchFill)
  {
    TrimmedShape(Padded(body, a), body, PadCount(|body|), a);
    if |body| % 4 == 1 {
      OneLetterTooMany(body, a);
    } else {
      ShapeDecodes(Padded(body, a), body, PadCount(|body|), a);
    }
  }

  lemma OneLetterTooMany(body: Bytes, a: Alphabet)
    requires WellFormed(a) && InAlphabet(body, a.data) && |body| % 4 == 1
    ensures Decoded(Padded(body, a), a) == Err(TooMuchFill)
  {
    hide InAlphabet, StripFill, Repeat;
    StripCountsFills(Padded(body, a), body, 3, a, 0);
  }
}

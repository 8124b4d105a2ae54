/** The base64 family of encodings, generic in the 64 letters and in the fill string. */
module Base64 {
  import opened ByteStrings

  datatype Alphabet = Alphabet(data: Bytes, fill: Bytes)

  datatype DecodeError = TooMuchFill | WrongTotalSize | NotInAlphabet

  type Decoding = Result<Bytes, DecodeError>

  /** The `n` consecutive characters from `first`. */
  function Run(first: byte, n: nat): Bytes
    requires first as int + n <= 256
  {
    seq(n, i requires 0 <= i < n => (first as int + i) as char)
  }

  const ALPHANUMERICS: Bytes := Run('A', 26) + Run('a', 26) + Run('0', 10)

  const BASE64: Alphabet := Alphabet(ALPHANUMERICS + "+/", "=")

  const BASE64URL: Alphabet := Alphabet(ALPHANUMERICS + "-_", "%3d")

  /** What the codec needs of an alphabet; the fill may contain letters, but must not start with one. */
  ghost predicate WellFormed(a: Alphabet) {
    && |a.data| == 64
    && (forall i, j :: 0 <= i < j < 64 ==> a.data[i] != a.data[j])
    && a.fill != []
    && !IsLetter(a.fill[0], a.data)
  }

  lemma AlphabetsAreWellFormed()
    ensures WellFormed(BASE64) && WellFormed(BASE64URL)
    ensures !IsLetter('.', BASE64URL.data) && '.' !in BASE64URL.fill
  {
  }

  // ---- Encoding ----

  /** The `i`-th of the four sextets of a 24-bit group, counted from the highest: the lowest, shifted to the end. */
  function SextetAt(triple: nat, i: nat): (r: nat)
    ensures r < 64
    decreases 3 - i
  {
    if i < 3 then SextetAt(triple / 0x40, i + 1) else triple % 0x40
  }

  /** The letters of the `n` highest sextets. */
  function Letters(triple: nat, n: nat, data: Bytes): (r: Bytes)
    requires |data| == 64
    ensures |r| == n
  {
    seq(n, i requires 0 <= i < n => data[SextetAt(triple, i)])
  }

  function Triple(x: byte, y: byte, z: byte): (r: nat)
    ensures r < 0x1000000
  {
    x as int * 0x10000 + y as int * 0x100 + z as int
  }

  /** What `encode` returns: whole triples first, then one or two octets padded with zero bits and fills. */
  function Encoded(bin: Bytes, a: Alphabet): Bytes
    requires |a.data| == 64
  {
    match |bin|
    case 0 => []
    case 1 => Letters(Triple(bin[0], '\0', '\0'), 2, a.data) + a.fill + a.fill
    case 2 => Letters(Triple(bin[0], bin[1], '\0'), 3, a.data) + a.fill
    case _ => Letters(Triple(bin[0], bin[1], bin[2]), 4, a.data) + Encoded(bin[3..], a)
  }

  lemma EncodedStep(bin: Bytes, i: nat, a: Alphabet)
    requires |a.data| == 64 && i + 3 <= |bin|
    ensures Encoded(bin[i..], a)
         == Letters(Triple(bin[i], bin[i + 1], bin[i + 2]), 4, a.data) + Encoded(bin[i + 3..], a)
  {
    assert bin[i..][3..] == bin[i + 3..];
  }

  /** The last one or two octets, filled up with zero bits. */
  method EncodeTail(bin: Bytes, fastSize: nat, a: Alphabet) returns (res: Bytes)
    requires |a.data| == 64 && fastSize + 1 <= |bin| <= fastSize + 2
    ensures res == Encoded(bin[fastSize..], a)
  {
    var octetB := if fastSize + 1 < |bin| then bin[fastSize + 1] else '\0';
    var triple := Triple(bin[fastSize], octetB, '\0');
    if |bin| == fastSize + 1 {
      res := Letters(triple, 2, a.data) + a.fill + a.fill;
    } else {
      res := Letters(triple, 3, a.data) + a.fill;
    }
  }

  method Encode(bin: Bytes, a: Alphabet) returns (res: Bytes)
    requires |a.data| == 64
    ensures res == Encoded(bin, a)
  {
    hide Letters, Triple;
    var size := |bin|;
    res := [];
    var fastSize := size - size % 3;
    var i := 0;
    ghost var left: nat := size / 3;
    while i < fastSize
      invariant i + 3 * left == fastSize
      invariant res + Encoded(bin[i..], a) == Encoded(bin, a)
    {
      assert left >= 1;
      EncodedStep(bin, i, a);
      var triple := Triple(bin[i], bin[i + 1], bin[i + 2]);
      res := res + Letters(triple, 4, a.data);
      i := i + 3;
      left := left - 1;
    }
    if fastSize == size {
      return;
    }
    var tail := EncodeTail(bin, fastSize, a);
    res := res + tail;
  }

  // ---- Decoding ----

  /** The position of a letter, the six bits it stands for; `|data|` for a character that is no letter. */
  function Code(c: byte, data: Bytes): (i: nat)
    ensures i <= |data| && (i < |data| ==> data[i] == c)
  {
    if data == [] || data[0] == c then 0 else 1 + Code(c, data[1..])
  }

  lemma {:induction false} CodeIsFirst(c: byte, data: Bytes, i: nat)
    requires i <= |data| && (i < |data| ==> data[i] == c)
    requires forall j :: 0 <= j < i ==> data[j] != c
    ensures Code(c, data) == i
  {
    if i > 0 {
      CodeIsFirst(c, data[1..], i - 1);
    }
  }

  predicate IsLetter(c: byte, data: Bytes) {
    Code(c, data) < |data|
  }

  predicate InAlphabet(s: Bytes, data: Bytes) {
    forall i :: 0 <= i < |s| ==> IsLetter(s[i], data)
  }

  lemma InAlphabetSplit(s: Bytes, i: nat, data: Bytes)
    requires i <= |s|
    ensures InAlphabet(s, data) <==> InAlphabet(s[..i], data) && InAlphabet(s[i..], data)
  {
    assert s == s[..i] + s[i..];
  }

  /** The number that sextets make, the highest first. */
  function Group(sextets: seq<nat>): nat {
    if sextets == [] then 0 else Group(sextets[..|sextets| - 1]) * 0x40 + sextets[|sextets| - 1]
  }

  /** The `i`-th of the three octets of a 24-bit group, counted from the highest: the lowest, shifted to the end. */
  function OctetAt(triple: nat, i: nat): byte
    decreases 2 - i
  {
    if i < 2 then OctetAt(triple / 0x100, i + 1) else (triple % 0x100) as char
  }

  /** The `n` highest octets. */
  function Octets(triple: nat, n: nat): (r: Bytes)
    ensures |r| == n
  {
    seq(n, i requires 0 <= i < n => OctetAt(triple, i))
  }

  /** The octets a run of letters stands for; bits left over after the last whole octet are dropped. */
  function DecodedLetters(body: Bytes, data: Bytes): Bytes
  {
    match |body|
    case 0 => []
    case 1 => []
    case 2 => Octets(Group([Code(body[0], data), Code(body[1], data), 0, 0]), 1)
    case 3 => Octets(Group([Code(body[0], data), Code(body[1], data), Code(body[2], data), 0]), 2)
    case _ =>
      Octets(Group([Code(body[0], data), Code(body[1], data), Code(body[2], data), Code(body[3], data)]), 3)
      + DecodedLetters(body[4..], data)
  }

  /** Take fills off the end while something would be left in front of them; a third fill is an error. */
  function StripFill(base: Bytes, fill: Bytes, size: nat, count: nat): (r: Option<(nat, nat)>)
    requires fill != [] && size <= |base| && count <= 2
    ensures r.Some? ==> r.value.0 <= size && count <= r.value.1 <= 2
  {
    if size > |fill| && base[size - |fill|..size] == fill then
      if count == 2 then None else StripFill(base, fill, size - |fill|, count + 1)
    else
      Some((size, count))
  }

  /** What `decode` returns or throws. */
  function Decoded(base: Bytes, a: Alphabet): Decoding
    requires a.fill != []
  {
    match StripFill(base, a.fill, |base|, 0)
    case None => Err(TooMuchFill)
    case Some((size, count)) =>
      if (size + count) % 4 != 0 then Err(WrongTotalSize)
      else if !InAlphabet(base[..size], a.data) then Err(NotInAlphabet)
      else Ok(DecodedLetters(base[..size], a.data))
  }

  method GetSextet(base: Bytes, offset: nat, a: Alphabet) returns (r: Result<nat, DecodeError>)
    requires offset < |base|
    ensures r == if IsLetter(base[offset], a.data) then Ok(Code(base[offset], a.data)) else Err(NotInAlphabet)
    ensures r.Err? ==> !InAlphabet(base, a.data)
  {
    for i := 0 to |a.data|
      invariant forall j :: 0 <= j < i ==> a.data[j] != base[offset]
    {
      if a.data[i] == base[offset] {
        CodeIsFirst(base[offset], a.data, i);
        return Ok(i);
      }
    }
    CodeIsFirst(base[offset], a.data, |a.data|);
    return Err(NotInAlphabet);
  }

  lemma DecodedLettersStep(body: Bytes, i: nat, data: Bytes)
    requires i + 4 <= |body|
    ensures DecodedLetters(body[i..], data)
         == Octets(Group([Code(body[i], data), Code(body[i + 1], data),
                         Code(body[i + 2], data), Code(body[i + 3], data)]), 3)
          + DecodedLetters(body[i + 4..], data)
  {
    assert body[i..][4..] == body[i + 4..];
  }

  method CountFill(base: Bytes, fill: Bytes) returns (r: Option<(nat, nat)>)
    requires fill != []
    ensures r == StripFill(base, fill, |base|, 0)
  {
    var size: nat, fillCount: nat := |base|, 0;
    while size > |fill|
      invariant size <= |base| && fillCount <= 2
      invariant StripFill(base, fill, size, fillCount) == StripFill(base, fill, |base|, 0)
    {
      if base[size - |fill|..size] == fill {
        fillCount := fillCount + 1;
        size := size - |fill|;
        if fillCount > 2 {
          return None;
        }
      } else {
        break;
      }
    }
    return Some((size, fillCount));
  }

  /** The switch over the fill count: what follows the whole groups. */
  method DecodeTail(body: Bytes, i: nat, fillCount: nat, a: Alphabet) returns (r: Decoding)
    requires fillCount <= 2 && i <= |body| && |body| - i == if fillCount == 0 then 0 else 4 - fillCount
    ensures r == if InAlphabet(body[i..], a.data) then Ok(DecodedLetters(body[i..], a.data)) else Err(NotInAlphabet)
  {
    hide Octets, Group;
    if fillCount == 0 {
      return Ok([]);
    }
    var sextetA :- GetSextet(body, i, a);
    var sextetB :- GetSextet(body, i + 1, a);
    if fillCount == 1 {
      var sextetC :- GetSextet(body, i + 2, a);
      r := Ok(Octets(Group([sextetA, sextetB, sextetC, 0]), 2));
    } else {
      r := Ok(Octets(Group([sextetA, sextetB, 0, 0]), 1));
    }
  }

  /** One round of the loop: four letters give three octets. */
  method DecodeGroup(body: Bytes, i: nat, a: Alphabet) returns (r: Decoding)
    requires i + 4 <= |body|
    ensures r.Err? ==> !InAlphabet(body, a.data) && r.error == NotInAlphabet
    ensures r.Ok? ==> forall j :: i <= j < i + 4 ==> IsLetter(body[j], a.data)
    ensures r.Ok? ==>
              DecodedLetters(body[i..], a.data) == r.value + DecodedLetters(body[i + 4..], a.data)
  {
    hide Octets, Group;
    var sextetA :- GetSextet(body, i, a);
    var sextetB :- GetSextet(body, i + 1, a);
    var sextetC :- GetSextet(body, i + 2, a);
    var sextetD :- GetSextet(body, i + 3, a);
    DecodedLettersStep(body, i, a.data);
    var octets := Octets(Group([sextetA, sextetB, sextetC, sextetD]), 3);
    assert DecodedLetters(body[i..], a.data) == octets + DecodedLetters(body[i + 4..], a.data);
    r := Ok(octets);
  }

  /** The loop over whole groups, then the tail. */
  method DecodeBody(body: Bytes, fastSize: nat, ghost groups: nat, fillCount: nat, a: Alphabet) returns (r: Decoding)
    requires fastSize == 4 * groups && fillCount <= 2
    requires |body| == fastSize + if fillCount == 0 then 0 else 4 - fillCount
    ensures r == if InAlphabet(body, a.data) then Ok(DecodedLetters(body, a.data)) else Err(NotInAlphabet)
  {
    var res := [];
    var i := 0;
    ghost var left: nat := groups;
    while i < fastSize
      invariant i + 4 * left == fastSize
      invariant forall j :: 0 <= j < i ==> IsLetter(body[j], a.data)
      invariant res + DecodedLetters(body[i..], a.data) == DecodedLetters(body, a.data)
    {
      assert left >= 1;
      var octets :- DecodeGroup(body, i, a);
      res := res + octets;
      i := i + 4;
      left := left - 1;
    }
    InAlphabetSplit(body, i, a.data);
    var tail :- DecodeTail(body, i, fillCount, a);
    return Ok(res + tail);
  }

  /** What the check of the total size says about the length without the fills. */
  lemma WholeGroups(n: nat, k: nat)
    requires k <= 2
    ensures (n + k) % 4 == 0 <==> n % 4 == if k == 0 then 0 else 4 - k
    ensures n - n % 4 == 4 * (n / 4)
  {
  }

  method Decode(base: Bytes, a: Alphabet) returns (r: Decoding)
    requires a.fill != []
    ensures r == Decoded(base, a)
  {
    hide DecodedLetters, InAlphabet;
    var stripped := CountFill(base, a.fill);
    if stripped.None? {
      return Err(TooMuchFill);
    }
    var (size, fillCount) := stripped.value;
    WholeGroups(size, fillCount);
    if (size + fillCount) % 4 != 0 {
      return Err(WrongTotalSize);
    }
    r := DecodeBody(base[..size], size - size % 4, size / 4, fillCount, a);
  }

  // ---- Padding and trimming ----

  /** How many fills `pad` appends: the switch falls through from 1 to 3. */
  function PadCount(size: nat): nat {
    if size % 4 == 0 then 0 else 4 - size % 4
  }

  function Repeat(fill: Bytes, k: nat): Bytes {
    if k == 0 then [] else Repeat(fill, k - 1) + fill
  }

  function Padded(base: Bytes, a: Alphabet): Bytes {
    base + Repeat(a.fill, PadCount(|base|))
  }

  method Pad(base: Bytes, a: Alphabet) returns (res: Bytes)
    ensures res == Padded(base, a)
  {
    var padding: Bytes := [];
    var mod := |base| % 4;
    if mod == 1 {
      padding := padding + a.fill;
    }
    if mod == 1 || mod == 2 {
      padding := padding + a.fill;
    }
    if mod == 1 || mod == 2 || mod == 3 {
      padding := padding + a.fill;
    }
    assert Repeat(a.fill, 1) == [] + a.fill;
    assert Repeat(a.fill, 2) == Repeat(a.fill, 1) + a.fill;
    assert Repeat(a.fill, 3) == Repeat(a.fill, 2) + a.fill;
    res := base + padding;
  }

  /** Everything before the first fill. */
  function Trimmed(base: Bytes, a: Alphabet): Bytes {
    match Find(base, a.fill, 0)
    case None => base
    case Some(pos) => base[..pos]
  }
}

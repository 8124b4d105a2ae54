/** Printing and then parsing: what comes back, and how much text it takes. */
module JsonLaws {
  import opened ByteStrings
  import opened Json
  import opened JsonGrammar
  import Decimal

  // ---- Strings ----

  lemma HexOfControl(c: byte, rest: Bytes)
    requires c as int < 0x80
    ensures QuadHex("00" + [Hex(c as int / 16), Hex(c as int % 16)] + rest) == Some((c as int, rest))
  {
    var s := "00" + [Hex(c as int / 16), Hex(c as int % 16)] + rest;
    assert HexValue(s[0]) == 0 && HexValue(s[1]) == 0;
    assert HexValue(s[2]) == c as int / 16 && HexValue(s[3]) == c as int % 16;
    assert HexNumber(s, 1) == 0;
    assert HexNumber(s, 2) == 0;
    assert HexNumber(s, 3) == c as int / 16;
    assert HexNumber(s, 4) == c as int;
    assert s[4..] == rest;
  }

  /** Reading one written byte gives the byte. */
  lemma EscapedByteReads(c: byte, rest: Bytes, done: Bytes)
    ensures StringTail(EscapedByte(c) + rest, done) == StringTail(rest, done + [c])
  {
    var s := EscapedByte(c) + rest;
    if |EscapedByte(c)| == 1 {
      assert s[1..] == rest;
    } else if |EscapedByte(c)| == 2 {
      assert s[1..][1..] == rest;
    } else {
      var hex := "00" + [Hex(c as int / 16), Hex(c as int % 16)] + rest;
      HexOfControl(c, rest);
      assert s[1..][1..] == hex;
    }
  }

  /** A quoted string reads as its bytes, whatever text follows. */
  lemma {:induction false} QuotedReads(s: Bytes, rest: Bytes, done: Bytes)
    ensures StringTail(Escaped(s) + "\"" + rest, done) == Some((done + s, rest))
  {
    var text := Escaped(s) + "\"" + rest;
    if s == [] {
      assert text == "\"" + rest;
      assert text[1..] == rest && done + s == done;
    } else {
      var tail := Escaped(s[1..]) + "\"" + rest;
      assert text == EscapedByte(s[0]) + tail;
      EscapedByteReads(s[0], tail, done);
      QuotedReads(s[1..], rest, done + [s[0]]);
      assert done + [s[0]] + s[1..] == done + s;
    }
  }

  // ---- Numbers ----

  /** What may follow a value: anything, except that a number must not be continued. */
  predicate MayFollow(v: Value, suffix: Bytes) {
    v.Int? ==> suffix == [] || !IsNumberChar(suffix[0])
  }

  lemma {:induction false} NumberTailOf(text: Bytes, suffix: Bytes, done: Bytes)
    requires forall i :: 0 <= i < |text| ==> IsNumberChar(text[i])
    requires suffix == [] || !IsNumberChar(suffix[0])
    ensures NumberTail(text + suffix, done) == (done + text, suffix)
  {
    if text == [] {
      assert text + suffix == suffix && done + text == done;
    } else {
      assert (text + suffix)[1..] == text[1..] + suffix;
      NumberTailOf(text[1..], suffix, done + [text[0]]);
      assert done + [text[0]] + text[1..] == done + text;
    }
  }

  lemma IntReads(i: int64, suffix: Bytes)
    requires suffix == [] || !IsNumberChar(suffix[0])
    ensures var c := Decimal.IntText(i)[0]; Decimal.IsDigit(c) || c == '-'
    ensures Number(Decimal.IntText(i) + suffix) == Parsed(Int(i), suffix)
  {
    var text := Decimal.IntText(i);
    assert forall k :: 0 <= k < |text| ==> IsNumberChar(text[k]);
    NumberTailOf(text, suffix, []);
    Decimal.ScanIntText(i, []);
    assert text + [] == text && [] + text == text;
  }

  // ---- White space ----

  predicate AllWhite(s: Bytes) {
    forall i :: 0 <= i < |s| ==> IsWhite(s[i])
  }

  lemma {:induction false} SkipsWhite(white: Bytes, s: Bytes)
    requires AllWhite(white) && s != [] && !IsWhite(s[0])
    ensures SkipWhite(white + s) == s
  {
    if white == [] {
      assert white + s == s;
    } else {
      assert (white + s)[1..] == white[1..] + s;
      SkipsWhite(white[1..], s);
    }
  }

  lemma {:induction false} SpacesAreWhite(n: nat)
    ensures AllWhite(Spaces(n))
  {
    if n > 0 {
      SpacesAreWhite(n - 1);
    }
  }

  lemma NewLineIsWhite(indent: int)
    ensures AllWhite(NewLine(indent))
  {
    if indent >= 0 {
      SpacesAreWhite(2 * indent);
    }
  }

  /** Behind white space, `Expect` sees the next character. */
  lemma ExpectSees(white: Bytes, c: byte, rest: Bytes, wanted: byte)
    requires AllWhite(white) && !IsWhite(c)
    ensures Expect(white + [c] + rest, wanted) == if c == wanted then Some(rest) else None
    ensures SkipWhite(white + [c] + rest) == [c] + rest
  {
    assert white + [c] + rest == white + ([c] + rest);
    SkipsWhite(white, [c] + rest);
    assert ([c] + rest)[1..] == rest;
  }

  // ---- Sequences of elements, as text ----

  lemma ValueSkipsWhite(white: Bytes, s: Bytes, depth: nat)
    requires AllWhite(white) && s != [] && !IsWhite(s[0])
    ensures ParseValue(white + s, depth) == ParseValue(s, depth)
  {
    SkipsWhite(white, s);
    SkipsWhite([], s);
  }

  /** What follows an element: a comma and more elements, or the closing bracket. */
  function Following(more: Bytes, indent: int, close: byte, suffix: Bytes): Bytes {
    if more == [] then NewLine(indent) + [close] + suffix else [','] + more
  }

  lemma FollowingIsSeen(more: Bytes, indent: int, close: byte, suffix: Bytes)
    requires close == ']' || close == '}'
    ensures var s := Following(more, indent, close, suffix);
      && s != [] && !IsNumberChar(s[0])
      && Expect(s, ',') == (if more == [] then None else Some(more))
      && (more == [] ==> Expect(s, close) == Some(suffix))
  {
    if more == [] {
      NewLineIsWhite(indent);
      ExpectSees(NewLine(indent), close, suffix, ',');
      ExpectSees(NewLine(indent), close, suffix, close);
    } else {
      ExpectSees([], ',', more, ',');
      assert [] + [','] + more == [','] + more;
    }
  }

  /** Everything from an element on: the elements, the closing bracket and the text behind it. */
  function Elements(texts: seq<Bytes>, inner: int, indent: int, close: byte, suffix: Bytes): Bytes {
    if texts == [] then [] else Joined(texts, inner) + (NewLine(indent) + [close] + suffix)
  }

  lemma ElementsSplit(texts: seq<Bytes>, inner: int, indent: int, close: byte, suffix: Bytes)
    requires texts != []
    ensures Elements(texts, inner, indent, close, suffix)
         == NewLine(inner)
            + (texts[0] + Following(Elements(texts[1..], inner, indent, close, suffix), indent, close, suffix))
    ensures |texts| > 1 ==> Elements(texts[1..], inner, indent, close, suffix) != []
  {
  }

  /** `text` may be taken for `v`: parsing it, no number behind it, gives `v`, or failure if nothing fits. */
  ghost predicate ReadsAs(text: Bytes, v: Value, fits: bool, depth: nat) {
    && text != []
    && !IsWhite(text[0])
    && forall after: Bytes :: after != [] && !IsNumberChar(after[0]) ==>
        ParseValue(text + after, depth) == if fits then Parsed(v, after) else Failed
  }

  /** One round of the loop of `_parse_array`. */
  lemma ItemRound(text: Bytes, v: Value, fits: bool, depth: nat, white: Bytes, more: Bytes, indent: int, suffix: Bytes,
                  done: seq<Value>)
    requires ReadsAs(text, v, fits, depth) && AllWhite(white)
    ensures ParseItems(white + (text + Following(more, indent, ']', suffix)), done, depth)
         == if !fits then Failed
            else if more == [] then Parsed(Arr(done + [v]), suffix)
            else ParseItems(more, done + [v], depth)
  {
    var after := Following(more, indent, ']', suffix);
    FollowingIsSeen(more, indent, ']', suffix);
    ValueSkipsWhite(white, text + after, depth);
  }

  ghost predicate AllReadAs(texts: seq<Bytes>, items: seq<Value>, fits: seq<bool>, depth: nat) {
    && |texts| == |items| == |fits|
    && forall i :: 0 <= i < |texts| ==> ReadsAs(texts[i], items[i], fits[i], depth)
  }

  predicate AllOf(bs: seq<bool>) {
    bs == [] || (bs[0] && AllOf(bs[1..]))
  }

  lemma DoneGrows(done: seq<Value>, items: seq<Value>)
    requires items != []
    ensures done + [items[0]] + items[1..] == done + items
    ensures |items| == 1 ==> done + [items[0]] == done + items
  {
  }

  lemma {:induction false} ItemsRead(texts: seq<Bytes>, items: seq<Value>, fits: seq<bool>, depth: nat, inner: int,
                                     indent: int,
                                     suffix: Bytes, done: seq<Value>)
    requires texts != [] && AllReadAs(texts, items, fits, depth)
    ensures ParseItems(Elements(texts, inner, indent, ']', suffix), done, depth)
         == if AllOf(fits) then Parsed(Arr(done + items), suffix) else Failed
  {
    ElementsSplit(texts, inner, indent, ']', suffix);
    NewLineIsWhite(inner);
    var more := Elements(texts[1..], inner, indent, ']', suffix);
    ItemRound(texts[0], items[0], fits[0], depth, NewLine(inner), more, indent, suffix, done);
    DoneGrows(done, items);
    if |texts| > 1 && fits[0] {
      ItemsRead(texts[1..], items[1..], fits[1..], depth, inner, indent, suffix, done + [items[0]]);
    }
  }

  // ---- Sequences of members, as text ----

  lemma ColonSeen(indent: int, rest: Bytes)
    ensures Expect([':'] + rest, ':') == Some(rest)
    ensures KeySeparator(indent) + rest == [':'] + ((if indent == COMPACT then [] else " ") + rest)
  {
    ExpectSees([], ':', rest, ':');
    assert [] + [':'] + rest == [':'] + rest;
  }

  lemma MemberTextSplits(white: Bytes, key: Bytes, separator: Bytes, text: Bytes, after: Bytes)
    ensures white + (Quoted(key) + separator + text + after)
         == white + ['"'] + (Escaped(key) + "\"" + (separator + (text + after)))
  {
  }

  lemma KeyReads(white: Bytes, key: Bytes, indent: int, rest: Bytes)
    requires AllWhite(white)
    ensures ParseKey(white + ['"'] + (Escaped(key) + "\"" + (KeySeparator(indent) + rest)))
         == Some((key, (if indent == COMPACT then [] else " ") + rest))
  {
    var colon := KeySeparator(indent) + rest;
    ExpectSees(white, '"', Escaped(key) + "\"" + colon, '"');
    QuotedReads(key, colon, []);
    ColonSeen(indent, (if indent == COMPACT then [] else " ") + rest);
    ColonSeen(indent, rest);
    assert [] + key == key;
  }

  /** White space in front of a value and text behind it do not matter. */
  lemma ReadsInContext(white: Bytes, text: Bytes, v: Value, fits: bool, depth: nat, after: Bytes)
    requires ReadsAs(text, v, fits, depth) && AllWhite(white) && after != [] && !IsNumberChar(after[0])
    ensures ParseValue(white + (text + after), depth) == if fits then Parsed(v, after) else Failed
  {
    ValueSkipsWhite(white, text + after, depth);
  }

  lemma MembersStep(s: Bytes, key: Bytes, t: Bytes, r: Outcome<Value>, depth: nat, done: Object)
    requires ParseKey(s) == Some((key, t)) && ParseValue(t, depth) == r && !r.NonInteger?
    ensures r.Failed? ==> ParseMembers(s, done, depth) == Failed
    ensures r.Parsed? && Expect(r.rest, ',').Some? ==>
      ParseMembers(s, done, depth) == ParseMembers(Expect(r.rest, ',').value, done[key := r.value], depth)
    ensures r.Parsed? && Expect(r.rest, ',').None? && Expect(r.rest, '}').Some? ==>
      ParseMembers(s, done, depth) == Parsed(Obj(done[key := r.value]), Expect(r.rest, '}').value)
  {
  }

  /** One round of the loop of `_parse_object`. */
  lemma MemberRound(key: Bytes, text: Bytes, v: Value, fits: bool, depth: nat, white: Bytes, inner: int, more: Bytes,
                    indent: int, suffix: Bytes, done: Object)
    requires ReadsAs(text, v, fits, depth) && AllWhite(white)
    ensures ParseMembers(white + (Quoted(key) + KeySeparator(inner) + text + Following(more, indent, '}', suffix)),
                         done, depth)
         == if !fits then Failed
            else if more == [] then Parsed(Obj(done[key := v]), suffix)
            else ParseMembers(more, done[key := v], depth)
  {
    var after := Following(more, indent, '}', suffix);
    var gap: Bytes := if inner == COMPACT then [] else " ";
    FollowingIsSeen(more, indent, '}', suffix);
    MemberTextSplits(white, key, KeySeparator(inner), text, after);
    KeyReads(white, key, inner, text + after);
    ReadsInContext(gap, text, v, fits, depth, after);
    MembersStep(white + (Quoted(key) + KeySeparator(inner) + text + after), key, gap + (text + after),
      if fits then Parsed(v, after) else Failed, depth, done);
  }

  ghost predicate AllMembersReadAs(texts: seq<Bytes>, keys: seq<Bytes>, values: seq<Value>, fits: seq<bool>, depth: nat,
                                   inner: int) {
    && |texts| == |keys| == |values| == |fits|
    && forall i :: 0 <= i < |texts| ==> MemberReadsAs(texts[i], keys[i], values[i], fits[i], depth, inner)
  }

  ghost predicate MemberReadsAs(text: Bytes, key: Bytes, v: Value, fits: bool, depth: nat, inner: int) {
    exists valueText :: text == Quoted(key) + KeySeparator(inner) + valueText && ReadsAs(valueText, v, fits, depth)
  }

  /** `done` with members entered one after the other. */
  function Entered(done: Object, keys: seq<Bytes>, values: seq<Value>): Object
    requires |keys| == |values|
    decreases |keys|
  {
    if keys == [] then done else Entered(done[keys[0] := values[0]], keys[1..], values[1..])
  }

  lemma {:induction false} MembersRead(texts: seq<Bytes>, keys: seq<Bytes>, values: seq<Value>, fits: seq<bool>,
                                       depth: nat,
                                       inner: int, indent: int, suffix: Bytes, done: Object)
    requires texts != [] && AllMembersReadAs(texts, keys, values, fits, depth, inner)
    ensures ParseMembers(Elements(texts, inner, indent, '}', suffix), done, depth)
         == if AllOf(fits) then Parsed(Obj(Entered(done, keys, values)), suffix) else Failed
    decreases |texts|
  {
    ElementsSplit(texts, inner, indent, '}', suffix);
    NewLineIsWhite(inner);
    var more := Elements(texts[1..], inner, indent, '}', suffix);
    var text :| texts[0] == Quoted(keys[0]) + KeySeparator(inner) + text && ReadsAs(text, values[0], fits[0], depth);
    MemberRound(keys[0], text, values[0], fits[0], depth, NewLine(inner), inner, more, indent, suffix, done);
    if |texts| > 1 && fits[0] {
      MembersRead(texts[1..], keys[1..], values[1..], fits[1..], depth, inner, indent, suffix,
                  done[keys[0] := values[0]]);
    }
  }

  function ValuesOf(keys: seq<Bytes>, members: Object): (r: seq<Value>)
    requires forall k :: k in keys ==> k in members
    ensures |r| == |keys| && forall i :: 0 <= i < |keys| ==> r[i] == members[keys[i]]
  {
    if keys == [] then [] else [members[keys[0]]] + ValuesOf(keys[1..], members)
  }

  /** Entering members one by one unites them with what is there. */
  lemma {:induction false} EnteredIsUnion(done: Object, keys: seq<Bytes>, members: Object)
    requires forall k :: k in keys ==> k in members
    ensures Entered(done, keys, ValuesOf(keys, members)) == done + map k | k in keys :: members[k]
    decreases |keys|
  {
    if keys != [] {
      var values := ValuesOf(keys, members);
      var done' := done[keys[0] := values[0]];
      assert values[1..] == ValuesOf(keys[1..], members);
      EnteredIsUnion(done', keys[1..], members);
      UnionStep(done, keys, members);
    }
  }

  lemma UnionStep(done: Object, keys: seq<Bytes>, members: Object)
    requires keys != [] && forall k :: k in keys ==> k in members
    ensures done[keys[0] := members[keys[0]]] + (map k | k in keys[1..] :: members[k])
         == done + map k | k in keys :: members[k]
  {
    assert forall k :: k in keys <==> k == keys[0] || k in keys[1..];
  }

  // ---- Values ----

  /** `depth` arrays may be opened around any array or object inside `v`. */
  ghost predicate Fits(v: Value, depth: nat)
    decreases v
  {
    match v
    case Arr(items) => depth > 0 && forall i :: 0 <= i < |items| ==> Fits(items[i], depth - 1)
    case Obj(members) => depth > 0 && forall k :: k in members ==> Fits(members[k], depth)
    case _ => true
  }

  ghost function ItemsFit(items: seq<Value>, depth: nat): (r: seq<bool>)
    ensures |r| == |items|
    ensures forall i :: 0 <= i < |items| ==> r[i] == Fits(items[i], depth)
  {
    if items == [] then [] else [Fits(items[0], depth)] + ItemsFit(items[1..], depth)
  }

  lemma {:induction false} AllOfItemsFit(items: seq<Value>, depth: nat)
    ensures AllOf(ItemsFit(items, depth)) <==> forall i :: 0 <= i < |items| ==> Fits(items[i], depth)
  {
    if items != [] {
      AllOfItemsFit(items[1..], depth);
      assert forall i :: 1 <= i < |items| ==> items[i] == items[1..][i - 1];
    }
  }

  /** What parsing the text of `v` must give: the value, or failure exactly if arrays are nested too deeply. */
  ghost function Expected(v: Value, depth: nat, suffix: Bytes): Outcome<Value> {
    if Fits(v, depth) then Parsed(v, suffix) else Failed
  }

  lemma TextStarts(v: Value, indent: int)
    ensures Text(v, indent) != [] && !IsWhite(Text(v, indent)[0])
    ensures Text(v, indent)[0] != ']' && Text(v, indent)[0] != '}'
  {
    if v.Int? {
      IntReads(v.i, []);
    }
  }

  /** Without white space in front, the first character decides. */
  lemma FirstCharacterDecides(first: byte, tail: Bytes, depth: nat)
    requires !IsWhite(first)
    ensures SkipWhite([first] + tail) == [first] + tail && ([first] + tail)[1..] == tail
    ensures first == '[' ==> ParseValue([first] + tail, depth) == ParseArray(tail, depth)
    ensures first == '{' ==> ParseValue([first] + tail, depth) == ParseObject(tail, depth)
    ensures Decimal.IsDigit(first) || first == '-' ==> ParseValue([first] + tail, depth) == Number([first] + tail)
  {
    var s := [first] + tail;
    assert s[1..] == tail;
  }

  lemma NullReads(depth: nat, suffix: Bytes)
    ensures ParseValue("null" + suffix, depth) == Parsed(Null, suffix)
  {
    FirstCharacterDecides('n', "ull" + suffix, depth);
    assert "null" + suffix == ['n'] + ("ull" + suffix);
  }

  lemma BoolReads(b: bool, depth: nat, suffix: Bytes)
    ensures ParseValue((if b then "true" else "false") + suffix, depth) == Parsed(Bool(b), suffix)
  {
    if b {
      FirstCharacterDecides('t', "rue" + suffix, depth);
      assert "true" + suffix == ['t'] + ("rue" + suffix);
    } else {
      FirstCharacterDecides('f', "alse" + suffix, depth);
      assert "false" + suffix == ['f'] + ("alse" + suffix);
    }
  }

  lemma StrReads(text: Bytes, depth: nat, suffix: Bytes)
    ensures ParseValue(Quoted(text) + suffix, depth) == Parsed(Str(text), suffix)
  {
    var tail := Escaped(text) + "\"" + suffix;
    FirstCharacterDecides('"', tail, depth);
    assert Quoted(text) + suffix == ['"'] + tail;
    QuotedReads(text, suffix, []);
    assert [] + text == text;
  }

  lemma NumberReads(i: int64, depth: nat, suffix: Bytes)
    requires suffix == [] || !IsNumberChar(suffix[0])
    ensures ParseValue(Decimal.IntText(i) + suffix, depth) == Parsed(Int(i), suffix)
  {
    var text := Decimal.IntText(i);
    IntReads(i, suffix);
    FirstCharacterDecides(text[0], text[1..] + suffix, depth);
    assert text + suffix == [text[0]] + (text[1..] + suffix);
  }

  /** The text behind an opening bracket. */
  function Inside(texts: seq<Bytes>, indent: int, close: byte, suffix: Bytes): Bytes {
    if texts == [] then [close] + suffix else Elements(texts, Inner(indent), indent, close, suffix)
  }

  lemma BracketedSplits(open: byte, texts: seq<Bytes>, indent: int, close: byte, suffix: Bytes)
    ensures Bracketed(open, texts, indent, close) + suffix == [open] + Inside(texts, indent, close, suffix)
  {
  }

  lemma ClosesAtOnce(close: byte, suffix: Bytes)
    requires !IsWhite(close)
    ensures Expect([close] + suffix, close) == Some(suffix)
  {
    ExpectSees([], close, suffix, close);
    assert [] + [close] + suffix == [close] + suffix;
  }

  /** Skipping white space in front of an element changes nothing. */
  lemma ValueAfterSkip(s: Bytes, depth: nat)
    ensures ParseValue(SkipWhite(s), depth) == ParseValue(s, depth)
  {
    SkipTwice(s);
  }

  lemma ItemsAfterSkip(s: Bytes, depth: nat)
    ensures ParseItems(SkipWhite(s), [], depth) == ParseItems(s, [], depth)
  {
    ValueAfterSkip(s, depth);
  }

  lemma KeyAfterSkip(s: Bytes)
    ensures ParseKey(SkipWhite(s)) == ParseKey(s)
  {
    SkipTwice(s);
  }

  lemma MembersAfterSkip(s: Bytes, depth: nat)
    ensures ParseMembers(SkipWhite(s), map[], depth) == ParseMembers(s, map[], depth)
  {
    KeyAfterSkip(s);
  }

  /** Elements do not start with the closing bracket. */
  lemma ElementsStart(texts: seq<Bytes>, inner: int, indent: int, close: byte, suffix: Bytes)
    requires texts != [] && texts[0] != [] && !IsWhite(texts[0][0]) && texts[0][0] != close
    ensures Expect(Elements(texts, inner, indent, close, suffix), close) == None
  {
    var rest := Following(Elements(texts[1..], inner, indent, close, suffix), indent, close, suffix);
    ElementsSplit(texts, inner, indent, close, suffix);
    NewLineIsWhite(inner);
    SkipsWhite(NewLine(inner), texts[0] + rest);
  }

  lemma NothingDone(items: seq<Value>)
    ensures [] + items == items
  {
  }

  lemma ArrayStep(s: Bytes, inside: nat)
    ensures ParseArray(s, inside + 1)
         == match Expect(s, ']')
            case Some(rest) => Parsed(Arr([]), rest)
            case None => ParseItems(s, [], inside)
  {
    ItemsAfterSkip(s, inside);
  }

  lemma ObjectStep(s: Bytes, depth: nat)
    requires depth > 0
    ensures ParseObject(s, depth)
         == match Expect(s, '}')
            case Some(rest) => Parsed(Obj(map[]), rest)
            case None => ParseMembers(s, map[], depth)
  {
    MembersAfterSkip(s, depth);
  }

  lemma ParseArrayOf(texts: seq<Bytes>, items: seq<Value>, fits: seq<bool>, inside: nat, indent: int, suffix: Bytes)
    requires AllReadAs(texts, items, fits, inside)
    requires texts != [] ==> texts[0][0] != ']'
    ensures ParseArray(Inside(texts, indent, ']', suffix), inside + 1)
         == if AllOf(fits) then Parsed(Arr(items), suffix) else Failed
  {
    ArrayStep(Inside(texts, indent, ']', suffix), inside);
    if texts == [] {
      ClosesAtOnce(']', suffix);
    } else {
      ElementsStart(texts, Inner(indent), indent, ']', suffix);
      ItemsRead(texts, items, fits, inside, Inner(indent), indent, suffix, []);
      NothingDone(items);
    }
  }

  lemma ParseObjectOf(texts: seq<Bytes>, keys: seq<Bytes>, values: seq<Value>, fits: seq<bool>, depth: nat, indent: int,
                      suffix: Bytes)
    requires depth > 0 && AllMembersReadAs(texts, keys, values, fits, depth, Inner(indent))
    ensures ParseObject(Inside(texts, indent, '}', suffix), depth)
         == if AllOf(fits) then Parsed(Obj(Entered(map[], keys, values)), suffix) else Failed
  {
    ObjectStep(Inside(texts, indent, '}', suffix), depth);
    if texts == [] {
      ClosesAtOnce('}', suffix);
    } else {
      assert MemberReadsAs(texts[0], keys[0], values[0], fits[0], depth, Inner(indent));
      assert texts[0][0] == '"';
      ElementsStart(texts, Inner(indent), indent, '}', suffix);
      MembersRead(texts, keys, values, fits, depth, Inner(indent), indent, suffix, map[]);
    }
  }

  /**
   * Parsing a value's text, compact or indented, gives the value and stops right behind the text;
   * it fails exactly if arrays are nested too deeply.
   */
  lemma {:induction false} ValueReads(v: Value, indent: int, depth: nat, suffix: Bytes)
    requires indent >= COMPACT && MayFollow(v, suffix)
    ensures ParseValue(Text(v, indent) + suffix, depth) == Expected(v, depth, suffix)
    decreases v, 2
  {
    match v {
      case Null => NullReads(depth, suffix);
      case Bool(b) => BoolReads(b, depth, suffix);
      case Int(i) => NumberReads(i, depth, suffix);
      case Str(text) => StrReads(text, depth, suffix);
      case Arr(items) => ArrayReads(v, indent, depth, suffix);
      case Obj(members) => ObjectReads(v, indent, depth, suffix);
    }
  }

  lemma {:induction false} TextReadsAs(v: Value, indent: int, depth: nat)
    requires indent >= COMPACT
    ensures ReadsAs(Text(v, indent), v, Fits(v, depth), depth)
    decreases v, 3
  {
    TextStarts(v, indent);
    forall after: Bytes | after != [] && !IsNumberChar(after[0])
      ensures ParseValue(Text(v, indent) + after, depth) == Expected(v, depth, after)
    {
      ValueReads(v, indent, depth, after);
    }
  }

  lemma {:induction false} ArrayReads(v: Value, indent: int, depth: nat, suffix: Bytes)
    requires indent >= COMPACT && v.Arr?
    ensures ParseValue(Text(v, indent) + suffix, depth) == Expected(v, depth, suffix)
    decreases v, 1
  {
    var inner := Inner(indent);
    var texts := ItemTexts(v.items, inner);
    BracketedSplits('[', texts, indent, ']', suffix);
    FirstCharacterDecides('[', Inside(texts, indent, ']', suffix), depth);
    if depth > 0 {
      var fits := ItemsFit(v.items, depth - 1);
      forall i | 0 <= i < |texts| ensures ReadsAs(texts[i], v.items[i], fits[i], depth - 1) {
        TextReadsAs(v.items[i], inner, depth - 1);
      }
      if texts != [] {
        TextStarts(v.items[0], inner);
      }
      ParseArrayOf(texts, v.items, fits, depth - 1, indent, suffix);
      AllOfItemsFit(v.items, depth - 1);
    }
  }

  lemma {:induction false} MembersReadAs(v: Value, keys: seq<Bytes>, inner: int, depth: nat)
    requires inner >= COMPACT && v.Obj? && forall k :: k in keys ==> k in v.members
    ensures AllMembersReadAs(MemberTexts(v, keys, inner), keys, ValuesOf(keys, v.members),
              ItemsFit(ValuesOf(keys, v.members), depth), depth, inner)
    decreases v, 0
  {
    var texts, values := MemberTexts(v, keys, inner), ValuesOf(keys, v.members);
    forall i | 0 <= i < |keys|
      ensures MemberReadsAs(texts[i], keys[i], values[i], ItemsFit(values, depth)[i], depth, inner)
    {
      assert keys[i] in v.members;
      TextReadsAs(v.members[keys[i]], inner, depth);
    }
  }

  lemma {:induction false} ObjectReads(v: Value, indent: int, depth: nat, suffix: Bytes)
    requires indent >= COMPACT && v.Obj?
    ensures ParseValue(Text(v, indent) + suffix, depth) == Expected(v, depth, suffix)
    decreases v, 1
  {
    var inner := Inner(indent);
    var keys := SortedKeys(v.members.Keys);
    var texts := MemberTexts(v, keys, inner);
    BracketedSplits('{', texts, indent, '}', suffix);
    FirstCharacterDecides('{', Inside(texts, indent, '}', suffix), depth);
    if depth > 0 {
      MembersReadAs(v, keys, inner, depth);
      var values := ValuesOf(keys, v.members);
      ParseObjectOf(texts, keys, values, ItemsFit(values, depth), depth, indent, suffix);
      WholeObject(v.members, keys, depth);
    }
  }

  lemma WholeObject(members: Object, keys: seq<Bytes>, depth: nat)
    requires forall k :: k in keys <==> k in members
    ensures Entered(map[], keys, ValuesOf(keys, members)) == members
    ensures AllOf(ItemsFit(ValuesOf(keys, members), depth)) <==> forall k :: k in members ==> Fits(members[k], depth)
  {
    EnteredIsUnion(map[], keys, members);
    assert map[] + (map k | k in keys :: members[k]) == members;
    var values := ValuesOf(keys, members);
    AllOfItemsFit(values, depth);
    if forall i :: 0 <= i < |values| ==> Fits(values[i], depth) {
      forall k | k in members ensures Fits(members[k], depth) {
        var i :| 0 <= i < |keys| && keys[i] == k;
        assert values[i] == members[k];
      }
    } else {
      var i :| 0 <= i < |values| && !Fits(values[i], depth);
      assert keys[i] in members && values[i] == members[keys[i]];
    }
  }

  // ---- Different values have different texts ----

  lemma {:induction false} FitsMore(v: Value, depth: nat, more: nat)
    requires Fits(v, depth) && depth <= more
    ensures Fits(v, more)
    decreases v
  {
    match v {
      case Arr(items) =>
        forall i | 0 <= i < |items| ensures Fits(items[i], more - 1) {
          FitsMore(items[i], depth - 1, more - 1);
        }
      case Obj(members) =>
        forall k | k in members ensures Fits(members[k], more) {
          FitsMore(members[k], depth, more);
        }
      case _ =>
    }
  }

  lemma {:induction false} FitsSomehow(v: Value) returns (depth: nat)
    ensures Fits(v, depth)
    decreases v, 1
  {
    match v {
      case Arr(items) =>
        depth := ItemsFitSomehow(items);
        depth := depth + 1;
      case Obj(members) =>
        depth := MembersFitSomehow(v, members.Keys);
      case _ => depth := 0;
    }
  }

  lemma {:induction false} ItemsFitSomehow(items: seq<Value>) returns (depth: nat)
    ensures forall i :: 0 <= i < |items| ==> Fits(items[i], depth)
    decreases items, 0
  {
    depth := 0;
    if items != [] {
      var first := FitsSomehow(items[0]);
      var others := ItemsFitSomehow(items[1..]);
      depth := if first < others then others else first;
      forall i | 0 <= i < |items| ensures Fits(items[i], depth) {
        if i == 0 {
          FitsMore(items[0], first, depth);
        } else {
          assert items[i] == items[1..][i - 1];
          FitsMore(items[i], others, depth);
        }
      }
    }
  }

  lemma {:induction false} MembersFitSomehow(o: Value, keys: set<Bytes>) returns (depth: nat)
    requires o.Obj? && keys <= o.members.Keys
    ensures depth > 0 && forall k :: k in keys ==> Fits(o.members[k], depth)
    decreases o, 0, |keys|
  {
    depth := 1;
    if keys != {} {
      var key :| key in keys;
      var first := FitsSomehow(o.members[key]);
      var others := MembersFitSomehow(o, keys - {key});
      depth := if first < others then others else first;
      forall k | k in keys ensures Fits(o.members[k], depth) {
        FitsMore(o.members[k], if k == key then first else others, depth);
      }
    }
  }

  /** The text of a value, compact or pretty, determines the value. */
  lemma SerializedInjective(v: Value, w: Value, prettify: bool)
    ensures Serialized(v, prettify) == Serialized(w, prettify) <==> v == w
  {
    if Serialized(v, prettify) == Serialized(w, prettify) {
      var d := FitsSomehow(v);
      var e := FitsSomehow(w);
      var depth := d + e;
      var indent := if prettify then 0 else COMPACT;
      var suffix: Bytes := if prettify then "\n" else [];
      FitsMore(v, d, depth);
      FitsMore(w, e, depth);
      assert Serialized(v, prettify) == Text(v, indent) + suffix;
      assert Serialized(w, prettify) == Text(w, indent) + suffix;
      ValueReads(v, indent, depth, suffix);
      ValueReads(w, indent, depth, suffix);
    }
  }

  // ---- What is parsed can be printed and parsed again ----

  ghost predicate AllFit(items: seq<Value>, depth: nat) {
    forall i :: 0 <= i < |items| ==> Fits(items[i], depth)
  }

  ghost predicate MembersFit(members: Object, depth: nat) {
    forall k :: k in members ==> Fits(members[k], depth)
  }

  /** A value that was parsed within a depth budget fits into it. */
  lemma {:induction false} ParsedFits(s: Bytes, depth: nat)
    ensures ParseValue(s, depth).Parsed? ==> Fits(ParseValue(s, depth).value, depth)
    decreases |s|, 0
  {
    var t := SkipWhite(s);
    if t != [] {
      if t[0] == '[' {
        ParsedArrayFits(t[1..], depth);
      } else if t[0] == '{' {
        ParsedObjectFits(t[1..], depth);
      }
    }
  }

  lemma {:induction false} ParsedArrayFits(s: Bytes, depth: nat)
    ensures ParseArray(s, depth).Parsed? ==> Fits(ParseArray(s, depth).value, depth)
    decreases |s|, 2
  {
    if depth > 0 && Expect(s, ']').None? {
      ParsedItemsFit(SkipWhite(s), [], depth - 1);
    }
  }

  lemma {:induction false} ParsedItemsFit(s: Bytes, done: seq<Value>, depth: nat)
    requires AllFit(done, depth)
    ensures var r := ParseItems(s, done, depth); r.Parsed? ==> r.value.Arr? && AllFit(r.value.items, depth)
    decreases |s|, 1
  {
    ParsedFits(s, depth);
    var r := ParseValue(s, depth);
    if r.Parsed? {
      var next := Expect(r.rest, ',');
      if next.Some? {
        ParsedItemsFit(next.value, done + [r.value], depth);
      }
    }
  }

  lemma {:induction false} ParsedObjectFits(s: Bytes, depth: nat)
    ensures ParseObject(s, depth).Parsed? ==> Fits(ParseObject(s, depth).value, depth)
    decreases |s|, 2
  {
    if depth > 0 && Expect(s, '}').None? {
      ParsedMembersFit(SkipWhite(s), map[], depth);
    }
  }

  lemma {:induction false} ParsedMembersFit(s: Bytes, done: Object, depth: nat)
    requires MembersFit(done, depth)
    ensures var r := ParseMembers(s, done, depth); r.Parsed? ==> r.value.Obj? && MembersFit(r.value.members, depth)
    decreases |s|, 1
  {
    var key := ParseKey(s);
    if key.Some? {
      ParsedFits(key.value.1, depth);
      var r := ParseValue(key.value.1, depth);
      if r.Parsed? {
        var next := Expect(r.rest, ',');
        if next.Some? {
          ParsedMembersFit(next.value, done[key.value.0 := r.value], depth);
        }
      }
    }
  }

  /** Whatever was parsed: printing it at any indentation and parsing that gives the same value. */
  lemma ParsePrintParse(s: Bytes, depth: nat, indent: int, suffix: Bytes)
    requires ParseValue(s, depth).Parsed? && indent >= COMPACT && MayFollow(ParseValue(s, depth).value, suffix)
    ensures var v := ParseValue(s, depth).value; ParseValue(Text(v, indent) + suffix, depth) == Parsed(v, suffix)
  {
    ParsedFits(s, depth);
    ValueReads(ParseValue(s, depth).value, indent, depth, suffix);
  }
}

/**
 * JSON text, character by character: which texts the parser takes, and what they mean. The grammar is that of RFC 8259
 * with integers for numbers, and with zeros allowed in front of them.
 */
module JsonSyntax {
  import opened ByteStrings
  import opened Json
  import opened JsonGrammar
  import opened JsonLaws
  import opened UnicodeLaws
  import Decimal
  import Utf8

  // ---- Strings ----

  type Code = n: nat | n <= 0x10ffff

  /** A character of a string: as it is, as a one-letter escape, or as what is behind its `\u`. */
  datatype Char = Plain(c: byte) | Short(c: byte) | Unicode(text: Bytes, n: Code)

  ghost predicate IsChar(ch: Char) {
    match ch
    case Plain(c) => c >= ' ' && c != '"' && c != '\\'
    case Short(c) => c in "\"\\/bfnrt"
    case Unicode(text, n) =>
      (|text| == 4 && DenotesBasic(text, n, [])) || (|text| == 10 && DenotesPair(text, n, []))
  }

  ghost predicate AreChars(chars: seq<Char>) {
    forall i :: 0 <= i < |chars| ==> IsChar(chars[i])
  }

  function CharText(ch: Char): Bytes {
    match ch
    case Plain(c) => [c]
    case Short(c) => ['\\', c]
    case Unicode(text, _) => "\\u" + text
  }

  function ShortByte(c: byte): byte {
    if c == 'b' then '\U{8}' else if c == 'f' then '\U{c}' else if c == 'n' then '\n'
    else if c == 'r' then '\r' else if c == 't' then '\t' else c
  }

  function CharBytes(ch: Char): Bytes {
    match ch
    case Plain(c) => [c]
    case Short(c) => [ShortByte(c)]
    case Unicode(_, n) => Utf8.Encoded(n)
  }

  function CharsText(chars: seq<Char>): Bytes {
    if chars == [] then [] else CharText(chars[0]) + CharsText(chars[1..])
  }

  function CharsBytes(chars: seq<Char>): Bytes {
    if chars == [] then [] else CharBytes(chars[0]) + CharsBytes(chars[1..])
  }

  lemma SpellsLonger(s: Bytes, n: nat, rest: Bytes)
    requires |s| >= 4
    ensures Spells(s, n) <==> Spells(s + rest, n)
  {
    forall x, y, z, w ensures SpellsWith(s, n, x, y, z, w) <==> SpellsWith(s + rest, n, x, y, z, w) {
    }
  }

  lemma DenotesLonger(text: Bytes, n: nat, rest: Bytes)
    ensures |text| == 4 ==> (DenotesBasic(text, n, []) <==> DenotesBasic(text + rest, n, rest))
    ensures |text| == 10 ==> (DenotesPair(text, n, []) <==> DenotesPair(text + rest, n, rest))
  {
    hide Spells;
    var s := text + rest;
    if |text| == 4 {
      SpellsLonger(text, n, rest);
      assert s[4..] == rest && text[4..] == [];
    } else if |text| == 10 && 0x10000 <= n <= 0x10ffff {
      SpellsLonger(text, 0xd800 + (n - 0x10000) / 0x400, rest);
      SpellsLonger(text[6..], 0xdc00 + (n - 0x10000) % 0x400, rest);
      assert s[6..] == text[6..] + rest && s[10..] == rest && s[4..6] == text[4..6] && text[10..] == [];
    }
  }

  lemma ShortLiterally(c: byte)
    ensures ShortEscape(c) == if c in "\"\\/bfnrt" then Some(ShortByte(c)) else None
  {
  }

  lemma CharReads(ch: Char, rest: Bytes, done: Bytes)
    requires IsChar(ch)
    ensures StringTail(CharText(ch) + rest, done) == StringTail(rest, done + CharBytes(ch))
  {
    hide CodePoint, DenotesBasic, DenotesPair, Utf8.Encoded, ShortEscape, ShortByte;
    var s := CharText(ch) + rest;
    match ch
    case Plain(c) =>
      assert s[1..] == rest;
    case Short(c) =>
      ShortLiterally(c);
      assert s[0] == '\\' && s[1..] == [c] + rest && s[1..][1..] == rest && c != 'u';
    case Unicode(text, n) =>
      DenotesLonger(text, n, rest);
      EscapesDenote(text + rest, n, rest);
      assert s[0] == '\\' && s[1..] == "u" + (text + rest) && s[1..][1..] == text + rest;
  }

  /** Every string of such characters is read as their bytes. */
  lemma {:induction false} CharsRead(chars: seq<Char>, rest: Bytes, done: Bytes)
    requires AreChars(chars)
    ensures StringTail(CharsText(chars) + ("\"" + rest), done) == Some((done + CharsBytes(chars), rest))
    decreases |chars|
  {
    hide IsChar, CharText, CharBytes;
    if chars == [] {
      assert [] + ("\"" + rest) == "\"" + rest && ("\"" + rest)[1..] == rest && done + [] == done;
    } else {
      assert IsChar(chars[0]);
      var tail := CharsText(chars[1..]) + ("\"" + rest);
      assert CharsText(chars) + ("\"" + rest) == CharText(chars[0]) + tail;
      CharReads(chars[0], tail, done);
      CharsRead(chars[1..], rest, done + CharBytes(chars[0]));
      assert done + CharBytes(chars[0]) + CharsBytes(chars[1..]) == done + CharsBytes(chars);
    }
  }

  /** The character that an accepted string starts with. */
  lemma FirstChar(s: Bytes, done: Bytes) returns (ch: Char, rest: Bytes)
    requires StringTail(s, done).Some? && s[0] != '"'
    ensures IsChar(ch) && s == CharText(ch) + rest && StringTail(s, done) == StringTail(rest, done + CharBytes(ch))
    ensures |rest| < |s|
  {
    hide CodePoint, Spells, Utf8.Encoded, ShortEscape, ShortByte;
    if s[0] != '\\' {
      ch, rest := Plain(s[0]), s[1..];
      assert s == [s[0]] + rest;
      return;
    }
    var t := s[1..];
    if t[0] != 'u' {
      ShortLiterally(t[0]);
      ch, rest := Short(t[0]), t[1..];
      assert s == ['\\', t[0]] + rest;
      return;
    }
    var u := t[1..];
    var (n, after) := CodePoint(u).value;
    rest := after;
    EscapesDenote(u, n, rest);
    SpellsIsLong(u);
    var k := if DenotesBasic(u, n, rest) then 4 else 10;
    ch := Unicode(u[..k], n);
    assert u == u[..k] + rest && s == "\\u" + u[..k] + rest;
    DenotesLonger(u[..k], n, rest);
  }

  lemma SpellsIsLong(u: Bytes)
    ensures forall n :: Spells(u, n) ==> |u| >= 4
  {
  }

  lemma {:induction false} StringIsWritten(s: Bytes, done: Bytes) returns (chars: seq<Char>)
    requires StringTail(s, done).Some?
    ensures AreChars(chars)
    ensures s == CharsText(chars) + ("\"" + StringTail(s, done).value.1)
    ensures StringTail(s, done).value.0 == done + CharsBytes(chars)
    decreases |s|
  {
    hide IsChar, CharText, CharBytes;
    if s[0] == '"' {
      chars := [];
      assert s == [] + ("\"" + s[1..]) && done + [] == done;
    } else {
      var ch, rest := FirstChar(s, done);
      var more := StringIsWritten(rest, done + CharBytes(ch));
      chars := [ch] + more;
      assert chars[1..] == more;
      assert done + CharBytes(ch) + CharsBytes(more) == done + CharsBytes(chars);
    }
  }

  // ---- Numbers ----

  lemma NumberCharsLiterally(c: byte)
    ensures IsNumberChar(c) <==> c in "0123456789+-eE."
  {
    if '0' <= c <= '9' {
      Decimal.DigitsLiterally(c);
    }
  }

  predicate IsNumeral(negative: bool, digits: Bytes) {
    && digits != "" && Decimal.AllDigits(digits)
    && Decimal.Value(digits) <= if negative then 0x8000_0000_0000_0000 else 0x7fff_ffff_ffff_ffff
  }

  function NumeralText(negative: bool, digits: Bytes): Bytes {
    if negative then "-" + digits else digits
  }

  function NumeralValue(negative: bool, digits: Bytes): int64
    requires IsNumeral(negative, digits)
  {
    var n: int := Decimal.Value(digits);
    if negative then -n else n
  }

  lemma NumeralScans(negative: bool, digits: Bytes)
    requires IsNumeral(negative, digits)
    ensures IntegerOf(NumeralText(negative, digits)) == Some(NumeralValue(negative, digits))
  {
    Decimal.DigitRunOf(digits, []);
    assert digits + [] == digits && digits[..|digits|] == digits;
    Decimal.ScanSigned(digits, [], Decimal.Value(digits));
    assert "-" + digits + [] == "-" + digits;
  }

  lemma NumeralReads(negative: bool, digits: Bytes, suffix: Bytes)
    requires IsNumeral(negative, digits) && (suffix == [] || suffix[0] !in "0123456789+-eE.")
    ensures NumeralText(negative, digits) != []
    ensures Number(NumeralText(negative, digits) + suffix) == Parsed(Int(NumeralValue(negative, digits)), suffix)
  {
    hide Decimal.Value, IntegerOf, NumeralValue;
    var text := NumeralText(negative, digits);
    NumberCharsLiterally(if suffix == [] then ' ' else suffix[0]);
    assert forall i :: 0 <= i < |text| ==> IsNumberChar(text[i]);
    NumberTailOf(text, suffix, []);
    NumeralScans(negative, digits);
    assert [] + text == text;
  }

  lemma {:induction false} NumberTailSplits(s: Bytes, done: Bytes)
    ensures var (text, rest) := NumberTail(s, done);
      && done <= text && s == text[|done|..] + rest
      && (rest == [] || rest[0] !in "0123456789+-eE.")
    decreases |s|
  {
    if s != [] && IsNumberChar(s[0]) {
      NumberTailSplits(s[1..], done + [s[0]]);
      var (text, rest) := NumberTail(s, done);
      assert text[|done|..] == [s[0]] + text[|done| + 1..];
      assert done == (done + [s[0]])[..|done|] && done + [s[0]] == text[..|done| + 1];
      assert text[..|done|] == text[..|done| + 1][..|done|];
    } else {
      NumberCharsLiterally(if s == [] then ' ' else s[0]);
      assert s == [] + s && done[|done|..] == [];
    }
  }

  /** A number that was read is a numeral. */
  lemma NumeralIsWritten(s: Bytes) returns (negative: bool, digits: Bytes)
    requires s != [] && (Decimal.IsDigit(s[0]) || s[0] == '-') && Number(s).Parsed?
    ensures IsNumeral(negative, digits) && s == NumeralText(negative, digits) + Number(s).rest
    ensures Number(s).value == Int(NumeralValue(negative, digits))
    ensures Number(s).rest == [] || Number(s).rest[0] !in "0123456789+-eE."
  {
    hide Decimal.Value;
    NumberTailSplits(s, []);
    var (text, rest) := NumberTail(s, []);
    assert text[0..] == text && text != [] && text[0] == s[0] by {
      NumberTailStarts(s);
    }
    negative := text[0] == '-';
    digits := if negative then text[1..] else text;
    assert Decimal.SpaceRun(text) == 0;
    assert digits[..|digits|] == digits;
    assert text == if negative then "-" + digits else digits;
  }

  lemma NumberTailStarts(s: Bytes)
    requires s != [] && IsNumberChar(s[0])
    ensures NumberTail(s, []).0 != []
  {
    NumberTailSplits(s[1..], [s[0]]);
    assert [] + [s[0]] == [s[0]];
  }

  // ---- Values ----

  /** A value as it stands in a text; elements and members have the white space around them with them. */
  datatype Node =
    | Null
    | True
    | False
    | Numeral(negative: bool, digits: Bytes)
    | Quote(chars: seq<Char>)
    | List(items: seq<Item>, gap: Bytes)
    | Record(members: seq<Member>, gap: Bytes)

  datatype Item = Item(before: Bytes, node: Node, after: Bytes)

  datatype Member =
    Member(before: Bytes, key: seq<Char>, afterKey: Bytes, afterColon: Bytes, node: Node, after: Bytes)

  predicate IsGap(s: Bytes) {
    forall i :: 0 <= i < |s| ==> s[i] in " \t\n\r"
  }

  ghost predicate IsNode(n: Node)
    decreases n
  {
    match n
    case Numeral(negative, digits) => IsNumeral(negative, digits)
    case Quote(chars) => AreChars(chars)
    case List(items, gap) => IsGap(gap) && forall i :: 0 <= i < |items| ==> IsItem(items[i])
    case Record(members, gap) => IsGap(gap) && forall i :: 0 <= i < |members| ==> IsMember(members[i])
    case _ => true
  }

  ghost predicate IsItem(item: Item)
    decreases item
  {
    IsGap(item.before) && IsNode(item.node) && IsGap(item.after)
  }

  ghost predicate IsMember(m: Member)
    decreases m
  {
    && IsGap(m.before) && AreChars(m.key) && IsGap(m.afterKey) && IsGap(m.afterColon)
    && IsNode(m.node) && IsGap(m.after)
  }

  function Written(n: Node): Bytes
    decreases n, 1
  {
    match n
    case Null => "null"
    case True => "true"
    case False => "false"
    case Numeral(negative, digits) => NumeralText(negative, digits)
    case Quote(chars) => "\"" + CharsText(chars) + "\""
    case List(items, gap) => "[" + (if items == [] then gap else ItemsText(items)) + "]"
    case Record(members, gap) => "{" + (if members == [] then gap else MembersText(members)) + "}"
  }

  function ItemsText(items: seq<Item>): Bytes
    requires items != []
    decreases items, 0
  {
    items[0].before + Written(items[0].node) + items[0].after
    + if |items| == 1 then [] else "," + ItemsText(items[1..])
  }

  function MembersText(members: seq<Member>): Bytes
    requires members != []
    decreases members, 0
  {
    var m := members[0];
    m.before + "\"" + CharsText(m.key) + "\"" + m.afterKey + ":" + m.afterColon + Written(m.node) + m.after
    + if |members| == 1 then [] else "," + MembersText(members[1..])
  }

  /** What a text means; of members with the same key, the last one counts. */
  ghost function Meaning(n: Node): Value
    requires IsNode(n)
    decreases n, 1
  {
    match n
    case Null => Value.Null
    case True => Bool(true)
    case False => Bool(false)
    case Numeral(negative, digits) => Int(NumeralValue(negative, digits))
    case Quote(chars) => Str(CharsBytes(chars))
    case List(items, _) => Arr(ItemsMeaning(items))
    case Record(members, _) => Obj(MembersMeaning(members, map[]))
  }

  ghost function ItemsMeaning(items: seq<Item>): seq<Value>
    requires forall i :: 0 <= i < |items| ==> IsItem(items[i])
    decreases items, 0
  {
    if items == [] then []
    else
      assert IsItem(items[0]);
      [Meaning(items[0].node)] + ItemsMeaning(items[1..])
  }

  ghost function MembersMeaning(members: seq<Member>, done: Object): Object
    requires forall i :: 0 <= i < |members| ==> IsMember(members[i])
    decreases members, 0
  {
    if members == [] then done
    else
      assert IsMember(members[0]);
      MembersMeaning(members[1..], done[CharsBytes(members[0].key) := Meaning(members[0].node)])
  }

  /** No array or object has `depth` arrays around it. */
  predicate IsWithin(n: Node, depth: nat)
    decreases n
  {
    match n
    case List(items, _) => depth > 0 && forall i :: 0 <= i < |items| ==> ItemIsWithin(items[i], depth - 1)
    case Record(members, _) => depth > 0 && forall i :: 0 <= i < |members| ==> MemberIsWithin(members[i], depth)
    case _ => true
  }

  predicate ItemIsWithin(item: Item, depth: nat)
    decreases item
  {
    IsWithin(item.node, depth)
  }

  predicate MemberIsWithin(m: Member, depth: nat)
    decreases m
  {
    IsWithin(m.node, depth)
  }

  /** A numeral must not be continued by what follows. */
  predicate MayBeBefore(n: Node, suffix: Bytes) {
    n.Numeral? && suffix != [] ==> suffix[0] !in "0123456789+-eE."
  }

  // ---- Reading what is written ----

  lemma EmptyNodes(gap: Bytes, depth: nat)
    requires IsGap(gap) && depth > 0
    ensures IsNode(List([], gap)) && IsWithin(List([], gap), depth)
    ensures Meaning(List([], gap)) == Arr([]) && Written(List([], gap)) == "[" + gap + "]"
    ensures IsNode(Record([], gap)) && IsWithin(Record([], gap), depth)
    ensures Meaning(Record([], gap)) == Obj(map[]) && Written(Record([], gap)) == "{" + gap + "}"
  {
  }

  lemma GapIsWhite(s: Bytes)
    ensures IsGap(s) <==> AllWhite(s)
  {
  }

  lemma NodeStarts(n: Node)
    requires IsNode(n)
    ensures Written(n) != [] && Written(n)[0] !in " \t\n\r]},:"
  {
  }

  lemma {:induction false} NodeReads(n: Node, depth: nat, suffix: Bytes)
    requires IsNode(n) && IsWithin(n, depth) && MayBeBefore(n, suffix)
    ensures ParseValue(Written(n) + suffix, depth) == Parsed(Meaning(n), suffix)
    decreases n, 2
  {
    match n {
      case Null => NullReads(depth, suffix);
      case True => BoolReads(true, depth, suffix);
      case False => BoolReads(false, depth, suffix);
      case Numeral(negative, digits) => NumeralNodeReads(negative, digits, depth, suffix);
      case Quote(chars) => QuoteReads(chars, depth, suffix);
      case List(items, gap) => ListReads(n, depth, suffix);
      case Record(members, gap) => RecordReads(n, depth, suffix);
    }
  }

  lemma NumeralNodeReads(negative: bool, digits: Bytes, depth: nat, suffix: Bytes)
    requires IsNumeral(negative, digits) && MayBeBefore(Numeral(negative, digits), suffix)
    ensures ParseValue(NumeralText(negative, digits) + suffix, depth)
         == Parsed(Int(NumeralValue(negative, digits)), suffix)
  {
    hide Decimal.Value, Number, NumeralValue;
    var text := NumeralText(negative, digits);
    NumeralReads(negative, digits, suffix);
    FirstCharacterDecides(text[0], text[1..] + suffix, depth);
    assert text + suffix == [text[0]] + (text[1..] + suffix);
  }

  lemma QuoteReads(chars: seq<Char>, depth: nat, suffix: Bytes)
    requires AreChars(chars)
    ensures ParseValue("\"" + CharsText(chars) + "\"" + suffix, depth) == Parsed(Str(CharsBytes(chars)), suffix)
  {
    hide StringTail, CharsText;
    var tail := CharsText(chars) + ("\"" + suffix);
    CharsRead(chars, suffix, []);
    FirstCharacterDecides('"', tail, depth);
    assert "\"" + CharsText(chars) + "\"" + suffix == ['"'] + tail;
    assert [] + CharsBytes(chars) == CharsBytes(chars);
  }

  /** A value with white space in front, in a context where no number goes on. */
  lemma {:induction false} NodeReadsInContext(gap: Bytes, n: Node, depth: nat, suffix: Bytes)
    requires IsGap(gap) && IsNode(n) && IsWithin(n, depth) && MayBeBefore(n, suffix)
    ensures ParseValue(gap + (Written(n) + suffix), depth) == Parsed(Meaning(n), suffix)
    decreases n, 3
  {
    NodeReads(n, depth, suffix);
    NodeStarts(n);
    GapIsWhite(gap);
    ValueSkipsWhite(gap, Written(n) + suffix, depth);
  }

  lemma SeesAfterGap(gap: Bytes, c: byte, rest: Bytes, wanted: byte)
    requires IsGap(gap) && c !in " \t\n\r"
    ensures Expect(gap + ([c] + rest), wanted) == if c == wanted then Some(rest) else None
  {
    GapIsWhite(gap);
    ExpectSees(gap, c, rest, wanted);
    assert gap + [c] + rest == gap + ([c] + rest);
  }

  lemma GapMayFollow(n: Node, gap: Bytes, c: byte, rest: Bytes)
    requires IsGap(gap) && c in ",]}"
    ensures MayBeBefore(n, gap + ([c] + rest))
  {
  }

  /** What follows an element or a member. */
  function Behind(more: Bytes, close: byte, suffix: Bytes): Bytes {
    if more == [] then [close] + suffix else [','] + more
  }

  lemma RegroupLast(x: Bytes, y: Bytes, z: Bytes, end: Bytes)
    ensures x + y + z + [] + end == x + (y + (z + end))
  {
  }

  lemma RegroupMore(x: Bytes, y: Bytes, z: Bytes, u: Bytes, end: Bytes)
    ensures x + y + z + ([','] + u) + end == x + (y + (z + ([','] + (u + end))))
  {
  }

  /** The text from an element on, behind which more elements, or the end, come. */
  function MoreItems(items: seq<Item>, suffix: Bytes): Bytes {
    if |items| <= 1 then [] else ItemsText(items[1..]) + ([']'] + suffix)
  }

  lemma ItemsTextStarts(items: seq<Item>)
    requires items != []
    ensures ItemsText(items) == items[0].before + Written(items[0].node) + items[0].after
                                + if |items| == 1 then [] else [','] + ItemsText(items[1..])
  {
    hide Written;
  }

  lemma ItemsSplit(items: seq<Item>, suffix: Bytes)
    requires items != []
    ensures ItemsText(items) + ([']'] + suffix)
         == items[0].before
            + (Written(items[0].node) + (items[0].after + Behind(MoreItems(items, suffix), ']', suffix)))
  {
    hide Written, ItemsText;
    var x, y, z := items[0].before, Written(items[0].node), items[0].after;
    ItemsTextStarts(items);
    if |items| == 1 {
      RegroupLast(x, y, z, [']'] + suffix);
    } else {
      RegroupMore(x, y, z, ItemsText(items[1..]), [']'] + suffix);
      assert MoreItems(items, suffix) != [];
    }
  }

  lemma {:induction false} ItemsAreRead(items: seq<Item>, depth: nat, done: seq<Value>, suffix: Bytes)
    requires items != [] && (forall i :: 0 <= i < |items| ==> IsItem(items[i]) && ItemIsWithin(items[i], depth))
    ensures ParseItems(ItemsText(items) + ([']'] + suffix), done, depth)
         == Parsed(Arr(done + ItemsMeaning(items)), suffix)
    decreases items, 4
  {
    hide ParseValue, IsNode, Expect, Written, Meaning, IsWithin;
    var item := items[0];
    assert IsItem(item) && ItemIsWithin(item, depth);
    var more := MoreItems(items, suffix);
    ItemsSplit(items, suffix);
    var behind := Behind(more, ']', suffix);
    GapMayFollow(item.node, item.after, behind[0], behind[1..]);
    assert behind == [behind[0]] + behind[1..];
    NodeReadsInContext(item.before, item.node, depth, item.after + behind);
    SeesAfterGap(item.after, behind[0], behind[1..], ',');
    SeesAfterGap(item.after, behind[0], behind[1..], ']');
    var v := Meaning(item.node);
    if |items| == 1 {
      assert items[1..] == [] && ItemsMeaning(items) == [v] + [] && done + [v] == done + ([v] + []);
      assert behind[1..] == suffix;
    } else {
      ItemsAreRead(items[1..], depth, done + [v], suffix);
      assert done + [v] + ItemsMeaning(items[1..]) == done + ([v] + ItemsMeaning(items[1..]));
      assert behind[1..] == more;
    }
  }

  /** No element starts with the closing bracket. */
  lemma NodeIsSeen(gap: Bytes, n: Node, rest: Bytes)
    requires IsGap(gap) && IsNode(n)
    ensures Expect(gap + (Written(n) + rest), ']') == None
  {
    NodeStarts(n);
    var text := Written(n);
    SeesAfterGap(gap, text[0], text[1..] + rest, ']');
    assert text + rest == [text[0]] + (text[1..] + rest);
  }

  lemma {:induction false} ListReads(n: Node, depth: nat, suffix: Bytes)
    requires n.List? && IsNode(n) && IsWithin(n, depth)
    ensures ParseValue(Written(n) + suffix, depth) == Parsed(Meaning(n), suffix)
    decreases n, 1
  {
    hide Expect, ParseItems, ItemsText, IsMember, MembersText, CharsText, Number;
    hide ParseValue, ParseArray, MoreItems, Behind;
    var inside := (if n.items == [] then n.gap else ItemsText(n.items)) + ([']'] + suffix);
    assert Written(n) + suffix == ['['] + inside;
    FirstCharacterDecides('[', inside, depth);
    ArrayStep(inside, depth - 1);
    if n.items == [] {
      SeesAfterGap(n.gap, ']', suffix, ']');
    } else {
      assert IsItem(n.items[0]) && forall i :: 0 <= i < |n.items| ==> ItemIsWithin(n.items[i], depth - 1);
      var more := MoreItems(n.items, suffix);
      ItemsSplit(n.items, suffix);
      NodeIsSeen(n.items[0].before, n.items[0].node, n.items[0].after + Behind(more, ']', suffix));
      ItemsAreRead(n.items, depth - 1, [], suffix);
      assert [] + ItemsMeaning(n.items) == ItemsMeaning(n.items);
    }
  }

  function KeyText(m: Member): Bytes {
    m.before + "\"" + CharsText(m.key) + "\"" + m.afterKey + ":"
  }

  function MoreMembers(members: seq<Member>, suffix: Bytes): Bytes {
    if |members| <= 1 then [] else MembersText(members[1..]) + (['}'] + suffix)
  }

  lemma MembersTextStarts(members: seq<Member>)
    requires members != []
    ensures var m := members[0];
      MembersText(members) == KeyText(m) + m.afterColon + Written(m.node) + m.after
                              + if |members| == 1 then [] else [','] + MembersText(members[1..])
  {
    hide Written, CharsText;
  }

  lemma MembersSplit(members: seq<Member>, suffix: Bytes)
    requires members != []
    ensures var m := members[0];
      MembersText(members) + (['}'] + suffix)
        == KeyText(m) + (m.afterColon
            + (Written(m.node) + (m.after + Behind(MoreMembers(members, suffix), '}', suffix))))
  {
    hide Written, MembersText, KeyText;
    var m := members[0];
    var x, y, z := KeyText(m) + m.afterColon, Written(m.node), m.after;
    MembersTextStarts(members);
    assert forall w: Bytes :: KeyText(m) + m.afterColon + w == KeyText(m) + (m.afterColon + w);
    if |members| == 1 {
      RegroupLast(x, y, z, ['}'] + suffix);
    } else {
      RegroupMore(x, y, z, MembersText(members[1..]), ['}'] + suffix);
      assert MoreMembers(members, suffix) != [];
    }
  }

  lemma KeyRegroups(before: Bytes, key: Bytes, afterKey: Bytes, rest: Bytes)
    ensures before + "\"" + key + "\"" + afterKey + ":" + rest
         == before + (['"'] + (key + ("\"" + (afterKey + ([':'] + rest)))))
  {
  }

  lemma KeyIsRead(m: Member, rest: Bytes)
    requires IsMember(m)
    ensures ParseKey(KeyText(m) + rest) == Some((CharsBytes(m.key), rest))
    ensures Expect(KeyText(m) + rest, '}') == None
  {
    hide Expect, StringTail, CharsText, CharsBytes, AreChars, IsNode, IsGap;
    var tail := m.afterKey + ([':'] + rest);
    var inside := CharsText(m.key) + ("\"" + tail);
    KeyRegroups(m.before, CharsText(m.key), m.afterKey, rest);
    SeesAfterGap(m.before, '"', inside, '"');
    SeesAfterGap(m.before, '"', inside, '}');
    CharsRead(m.key, tail, []);
    SeesAfterGap(m.afterKey, ':', rest, ':');
    assert [] + CharsBytes(m.key) == CharsBytes(m.key);
  }

  lemma {:induction false} MembersAreRead(members: seq<Member>, depth: nat, done: Object, suffix: Bytes)
    requires members != []
    requires forall i :: 0 <= i < |members| ==> IsMember(members[i]) && MemberIsWithin(members[i], depth)
    ensures ParseMembers(MembersText(members) + (['}'] + suffix), done, depth)
         == Parsed(Obj(MembersMeaning(members, done)), suffix)
    decreases members, 4
  {
    hide ParseValue, ParseKey, IsNode, Expect, Written, Meaning, IsWithin, KeyText;
    var m := members[0];
    assert IsMember(m) && MemberIsWithin(m, depth);
    var more := MoreMembers(members, suffix);
    MembersSplit(members, suffix);
    var behind := Behind(more, '}', suffix);
    var value := m.afterColon + (Written(m.node) + (m.after + behind));
    KeyIsRead(m, value);
    GapMayFollow(m.node, m.after, behind[0], behind[1..]);
    assert behind == [behind[0]] + behind[1..];
    NodeReadsInContext(m.afterColon, m.node, depth, m.after + behind);
    SeesAfterGap(m.after, behind[0], behind[1..], ',');
    SeesAfterGap(m.after, behind[0], behind[1..], '}');
    MembersStep(KeyText(m) + value, CharsBytes(m.key), value, Parsed(Meaning(m.node), m.after + behind), depth, done);
    if |members| == 1 {
      assert members[1..] == [] && behind[1..] == suffix;
    } else {
      MembersAreRead(members[1..], depth, done[CharsBytes(m.key) := Meaning(m.node)], suffix);
      assert behind[1..] == more;
    }
  }

  lemma {:induction false} RecordReads(n: Node, depth: nat, suffix: Bytes)
    requires n.Record? && IsNode(n) && IsWithin(n, depth)
    ensures ParseValue(Written(n) + suffix, depth) == Parsed(Meaning(n), suffix)
    decreases n, 1
  {
    hide Expect, ParseMembers, KeyText, CharsText, MembersText, MembersMeaning;
    var inside := (if n.members == [] then n.gap else MembersText(n.members)) + (['}'] + suffix);
    assert Written(n) + suffix == ['{'] + inside;
    FirstCharacterDecides('{', inside, depth);
    ObjectStep(inside, depth);
    if n.members == [] {
      EmptyNodes(n.gap, depth);
      SeesAfterGap(n.gap, '}', suffix, '}');
    } else {
      var m := n.members[0];
      assert IsMember(m) && forall i :: 0 <= i < |n.members| ==> MemberIsWithin(n.members[i], depth);
      var more := MoreMembers(n.members, suffix);
      MembersSplit(n.members, suffix);
      KeyIsRead(m, m.afterColon + (Written(m.node) + (m.after + Behind(more, '}', suffix))));
      MembersAreRead(n.members, depth, map[], suffix);
    }
  }

  // ---- Everything that is read is written like that ----

  lemma {:induction false} SkipSplits(s: Bytes) returns (gap: Bytes)
    ensures IsGap(gap) && s == gap + SkipWhite(s)
  {
    gap := [];
    if s != [] && IsWhite(s[0]) {
      gap := SkipSplits(s[1..]);
      assert s == [s[0]] + s[1..] && [s[0]] + (gap + SkipWhite(s[1..])) == [s[0]] + gap + SkipWhite(s[1..]);
      gap := [s[0]] + gap;
    } else {
      assert [] + s == s;
    }
  }

  lemma ExpectSplits(s: Bytes, c: byte) returns (gap: Bytes)
    requires Expect(s, c).Some?
    ensures IsGap(gap) && s == gap + ([c] + Expect(s, c).value)
  {
    gap := SkipSplits(s);
    var t := SkipWhite(s);
    assert t == [c] + t[1..];
  }

  /** A parsed value, and the text that it was parsed from. */
  ghost predicate IsReading(s: Bytes, depth: nat, gap: Bytes, n: Node, v: Value, rest: Bytes) {
    IsGap(gap) && s == gap + (Written(n) + rest) && IsWhatIsRead(n, depth, v, rest)
  }

  ghost predicate IsWhatIsRead(n: Node, depth: nat, v: Value, rest: Bytes) {
    IsNode(n) && IsWithin(n, depth) && MayBeBefore(n, rest) && v == Meaning(n)
  }

  lemma WordSplits(first: byte, t: Bytes, text: Bytes, v: Value)
    requires t != [] && t[0] == first && Literal(t[1..], text, v).Parsed?
    ensures t == [first] + text + Literal(t[1..], text, v).rest && Literal(t[1..], text, v).value == v
  {
  }

  lemma WordDecides(t: Bytes, depth: nat)
    requires t != []
    ensures t[0] == 'n' ==> ParseValue(t, depth) == Literal(t[1..], "ull", Value.Null)
    ensures t[0] == 'f' ==> ParseValue(t, depth) == Literal(t[1..], "alse", Bool(false))
    ensures t[0] == 't' ==> ParseValue(t, depth) == Literal(t[1..], "rue", Bool(true))
  {
    hide StringTail, Number, ParseArray, ParseObject, Literal;
  }

  lemma WordIsWritten(t: Bytes, depth: nat) returns (n: Node)
    requires t != [] && t[0] in "nft" && ParseValue(t, depth).Parsed?
    ensures t == Written(n) + ParseValue(t, depth).rest
    ensures IsWhatIsRead(n, depth, ParseValue(t, depth).value, ParseValue(t, depth).rest)
  {
    hide ParseValue, Literal;
    WordDecides(t, depth);
    if t[0] == 'n' {
      n := Node.Null;
      WordSplits('n', t, "ull", Value.Null);
    } else if t[0] == 'f' {
      n := False;
      WordSplits('f', t, "alse", Bool(false));
    } else {
      n := True;
      WordSplits('t', t, "rue", Bool(true));
    }
  }

  lemma QuoteIsWritten(t: Bytes, depth: nat) returns (n: Node)
    requires t != [] && t[0] == '"' && ParseValue(t, depth).Parsed?
    ensures t == Written(n) + ParseValue(t, depth).rest
    ensures IsWhatIsRead(n, depth, ParseValue(t, depth).value, ParseValue(t, depth).rest)
  {
    hide StringTail, Number, ParseArray, ParseObject, AreChars, CharsText, CharsBytes;
    var rest := ParseValue(t, depth).rest;
    var chars := StringIsWritten(t[1..], []);
    n := Quote(chars);
    assert t == ['"'] + t[1..] && [] + CharsBytes(chars) == CharsBytes(chars);
    assert ['"'] + (CharsText(chars) + ("\"" + rest)) == "\"" + CharsText(chars) + "\"" + rest;
  }

  lemma NumeralNodeIsWritten(t: Bytes, depth: nat) returns (n: Node)
    requires t != [] && (Decimal.IsDigit(t[0]) || t[0] == '-') && ParseValue(t, depth).Parsed?
    ensures t == Written(n) + ParseValue(t, depth).rest
    ensures IsWhatIsRead(n, depth, ParseValue(t, depth).value, ParseValue(t, depth).rest)
  {
    hide ParseValue, Number, IsNumeral, NumeralText, NumeralValue;
    FirstCharacterDecides(t[0], t[1..], depth);
    assert t == [t[0]] + t[1..];
    var negative, digits := NumeralIsWritten(t);
    n := Numeral(negative, digits);
  }

  lemma FirstCharacterKnown(t: Bytes, depth: nat)
    requires t != [] && !IsWhite(t[0]) && ParseValue(t, depth).Parsed?
    ensures t[0] in "nft\"[{" || Decimal.IsDigit(t[0]) || t[0] == '-'
  {
    hide StringTail, Number, ParseArray, ParseObject;
  }

  lemma {:induction false} ValueIsWritten(s: Bytes, depth: nat) returns (gap: Bytes, n: Node)
    requires ParseValue(s, depth).Parsed?
    ensures IsReading(s, depth, gap, n, ParseValue(s, depth).value, ParseValue(s, depth).rest)
    decreases |s|, 0
  {
    hide ParseValue, ParseArray, ParseObject, Written, IsNode, Meaning, IsWithin;
    gap := SkipSplits(s);
    var t := SkipWhite(s);
    ValueAfterSkip(s, depth);
    SomeTextIsParsed(t, depth);
    FirstCharacterKnown(t, depth);
    FirstCharacterDecides(t[0], t[1..], depth);
    assert t == [t[0]] + t[1..];
    if t[0] == '"' {
      n := QuoteIsWritten(t, depth);
    } else if t[0] == '[' {
      n := ArrayIsWritten(t[1..], depth);
    } else if t[0] == '{' {
      n := ObjectIsWritten(t[1..], depth);
    } else if t[0] in "nft" {
      n := WordIsWritten(t, depth);
    } else {
      n := NumeralNodeIsWritten(t, depth);
    }
  }

  lemma SomeTextIsParsed(t: Bytes, depth: nat)
    requires ParseValue(t, depth).Parsed?
    ensures t != []
  {
    hide StringTail, Number, ParseArray, ParseObject;
  }

  lemma ListOf(items: seq<Item>, depth: nat)
    requires items != [] && depth > 0
    requires forall i :: 0 <= i < |items| ==> IsItem(items[i]) && ItemIsWithin(items[i], depth - 1)
    ensures var n := List(items, []);
      && IsNode(n) && IsWithin(n, depth) && Meaning(n) == Arr(ItemsMeaning(items))
      && Written(n) == "[" + ItemsText(items) + "]"
  {
    hide ItemsText, IsItem, ItemIsWithin;
  }

  lemma RecordOf(members: seq<Member>, depth: nat)
    requires members != [] && depth > 0
    requires forall i :: 0 <= i < |members| ==> IsMember(members[i]) && MemberIsWithin(members[i], depth)
    ensures var n := Record(members, []);
      && IsNode(n) && IsWithin(n, depth) && Meaning(n) == Obj(MembersMeaning(members, map[]))
      && Written(n) == "{" + MembersText(members) + "}"
  {
    hide MembersText, IsMember, MemberIsWithin;
  }

  lemma {:induction false} ArrayIsWritten(s: Bytes, depth: nat) returns (n: Node)
    requires ParseArray(s, depth).Parsed?
    ensures n.List? && IsNode(n) && IsWithin(n, depth) && Meaning(n) == ParseArray(s, depth).value
    ensures ['['] + s == Written(n) + ParseArray(s, depth).rest
    decreases |s|, 2
  {
    hide ParseItems, Expect, ItemsText, IsNode, IsWithin, Meaning, Written;
    ArrayStep(s, depth - 1);
    var rest := ParseArray(s, depth).rest;
    if Expect(s, ']').Some? {
      var gap := ExpectSplits(s, ']');
      n := List([], gap);
      EmptyNodes(gap, depth);
      assert ['['] + (gap + ([']'] + rest)) == "[" + gap + "]" + rest;
    } else {
      var items := ItemsAreWritten(s, [], depth - 1);
      n := List(items, []);
      ListOf(items, depth);
      assert ['['] + (ItemsText(items) + ([']'] + rest)) == "[" + ItemsText(items) + "]" + rest;
      assert [] + ItemsMeaning(items) == ItemsMeaning(items);
    }
  }

  lemma MoreItem(item: Item, items: seq<Item>, suffix: Bytes)
    requires items != []
    ensures ItemsText([item] + items) + ([']'] + suffix)
         == item.before + (Written(item.node) + (item.after + ([','] + (ItemsText(items) + ([']'] + suffix)))))
  {
    hide Written, ItemsText;
    assert ([item] + items)[1..] == items;
    ItemsSplit([item] + items, suffix);
  }

  lemma OneItem(item: Item, suffix: Bytes)
    ensures ItemsText([item]) + ([']'] + suffix)
         == item.before + (Written(item.node) + (item.after + ([']'] + suffix)))
  {
    ItemsSplit([item], suffix);
  }

  lemma {:induction false} ItemsAreWritten(s: Bytes, done: seq<Value>, depth: nat) returns (items: seq<Item>)
    requires ParseItems(s, done, depth).Parsed?
    ensures items != [] && forall i :: 0 <= i < |items| ==> IsItem(items[i]) && ItemIsWithin(items[i], depth)
    ensures s == ItemsText(items) + ([']'] + ParseItems(s, done, depth).rest)
    ensures ParseItems(s, done, depth).value == Arr(done + ItemsMeaning(items))
    decreases |s|, 1
  {
    hide ParseValue, Expect, IsNode, Written, Meaning, IsWithin, ItemsText;
    var gap, n := ValueIsWritten(s, depth);
    var r := ParseValue(s, depth);
    if Expect(r.rest, ',').Some? {
      var after := ExpectSplits(r.rest, ',');
      var more := ItemsAreWritten(Expect(r.rest, ',').value, done + [r.value], depth);
      var item := Item(gap, n, after);
      items := [item] + more;
      MoreItem(item, more, ParseItems(s, done, depth).rest);
      assert items[1..] == more && IsItem(item) && ItemIsWithin(item, depth);
      assert done + [r.value] + ItemsMeaning(more) == done + ([r.value] + ItemsMeaning(more));
    } else {
      var after := ExpectSplits(r.rest, ']');
      var item := Item(gap, n, after);
      items := [item];
      OneItem(item, ParseItems(s, done, depth).rest);
      assert items[1..] == [] && IsItem(item) && ItemIsWithin(item, depth) && [r.value] + [] == [r.value];
    }
  }

  lemma {:induction false} ObjectIsWritten(s: Bytes, depth: nat) returns (n: Node)
    requires ParseObject(s, depth).Parsed?
    ensures n.Record? && IsNode(n) && IsWithin(n, depth) && Meaning(n) == ParseObject(s, depth).value
    ensures ['{'] + s == Written(n) + ParseObject(s, depth).rest
    decreases |s|, 2
  {
    hide ParseMembers, Expect, MembersText, IsNode, IsWithin, Meaning, Written;
    ObjectStep(s, depth);
    var rest := ParseObject(s, depth).rest;
    if Expect(s, '}').Some? {
      var gap := ExpectSplits(s, '}');
      n := Record([], gap);
      EmptyNodes(gap, depth);
      assert ['{'] + (gap + (['}'] + rest)) == "{" + gap + "}" + rest;
    } else {
      var members := MembersAreWritten(s, map[], depth);
      n := Record(members, []);
      RecordOf(members, depth);
      assert ['{'] + (MembersText(members) + (['}'] + rest)) == "{" + MembersText(members) + "}" + rest;
    }
  }

  lemma KeyIsWritten(s: Bytes) returns (before: Bytes, key: seq<Char>, afterKey: Bytes)
    requires ParseKey(s).Some?
    ensures IsGap(before) && AreChars(key) && IsGap(afterKey)
    ensures s == before + "\"" + CharsText(key) + "\"" + afterKey + ":" + ParseKey(s).value.1
    ensures ParseKey(s).value.0 == CharsBytes(key)
  {
    hide Expect, StringTail, CharsText, CharsBytes, IsChar;
    before := ExpectSplits(s, '"');
    var t := Expect(s, '"').value;
    key := StringIsWritten(t, []);
    var u := StringTail(t, []).value.1;
    afterKey := ExpectSplits(u, ':');
    assert [] + CharsBytes(key) == CharsBytes(key);
    var v := Expect(u, ':').value;
    assert before + (['"'] + (CharsText(key) + ("\"" + (afterKey + ([':'] + v)))))
        == before + "\"" + CharsText(key) + "\"" + afterKey + ":" + v;
  }

  lemma MoreMember(m: Member, members: seq<Member>, suffix: Bytes)
    requires members != []
    ensures MembersText([m] + members) + (['}'] + suffix)
         == KeyText(m) + (m.afterColon
            + (Written(m.node) + (m.after + ([','] + (MembersText(members) + (['}'] + suffix))))))
  {
    hide Written, MembersText, KeyText;
    assert ([m] + members)[1..] == members;
    MembersSplit([m] + members, suffix);
  }

  lemma OneMember(m: Member, suffix: Bytes)
    ensures MembersText([m]) + (['}'] + suffix)
         == KeyText(m) + (m.afterColon + (Written(m.node) + (m.after + (['}'] + suffix))))
  {
    hide KeyText;
    MembersSplit([m], suffix);
  }

  lemma {:induction false} MembersAreWritten(s: Bytes, done: Object, depth: nat) returns (members: seq<Member>)
    requires ParseMembers(s, done, depth).Parsed?
    ensures members != []
    ensures forall i :: 0 <= i < |members| ==> IsMember(members[i]) && MemberIsWithin(members[i], depth)
    ensures s == MembersText(members) + (['}'] + ParseMembers(s, done, depth).rest)
    ensures ParseMembers(s, done, depth).value == Obj(MembersMeaning(members, done))
    decreases |s|, 1
  {
    hide ParseValue, ParseKey, Expect, IsNode, Written, Meaning, IsWithin, MembersText, CharsText, CharsBytes, AreChars;
    var before, key, afterKey := KeyIsWritten(s);
    var t := ParseKey(s).value.1;
    var afterColon, n := ValueIsWritten(t, depth);
    var r := ParseValue(t, depth);
    if Expect(r.rest, ',').Some? {
      var after := ExpectSplits(r.rest, ',');
      var m := Member(before, key, afterKey, afterColon, n, after);
      var more := MembersAreWritten(Expect(r.rest, ',').value, done[CharsBytes(key) := r.value], depth);
      members := [m] + more;
      MoreMember(m, more, ParseMembers(s, done, depth).rest);
      assert members[1..] == more && IsMember(m) && MemberIsWithin(m, depth);
    } else {
      var after := ExpectSplits(r.rest, '}');
      var m := Member(before, key, afterKey, afterColon, n, after);
      members := [m];
      OneMember(m, ParseMembers(s, done, depth).rest);
      assert members[1..] == [] && IsMember(m) && MemberIsWithin(m, depth);
    }
  }

  /** A number behind which no number character comes. */
  predicate StartsWithNumeral(s: Bytes, negative: bool, digits: Bytes, rest: Bytes) {
    && IsNumeral(negative, digits) && s == NumeralText(negative, digits) + rest
    && (rest == [] || rest[0] !in "0123456789+-eE.")
  }

  /** Where a number starts, parsing does not fail; it stops exactly if that is no integer of 64 bits. */
  lemma NumberIsCut(s: Bytes, depth: nat)
    requires s != [] && s[0] in "-0123456789"
    ensures !ParseValue(s, depth).Failed?
    ensures ParseValue(s, depth).NonInteger? <==> !exists negative, digits, rest ::
      StartsWithNumeral(s, negative, digits, rest)
  {
    hide ParseValue, IsNumeral, NumeralText, NumeralValue, IntegerOf, NumberTail;
    Decimal.DigitsLiterally(s[0]);
    FirstCharacterDecides(s[0], s[1..], depth);
    assert s == [s[0]] + s[1..];
    if Number(s).Parsed? {
      var negative, digits := NumeralIsWritten(s);
      assert StartsWithNumeral(s, negative, digits, Number(s).rest);
    }
    forall negative, digits, rest | StartsWithNumeral(s, negative, digits, rest) ensures Number(s).Parsed? {
      NumeralReads(negative, digits, rest);
    }
  }

  /**
   * The parser takes exactly the texts of the grammar whose arrays are not nested too deeply, behind any white space,
   * gives their meaning, and stops right behind them.
   */
  lemma ParsedExactly(s: Bytes, depth: nat, v: Value, rest: Bytes)
    ensures ParseValue(s, depth) == Parsed(v, rest) <==> exists gap, n :: IsReading(s, depth, gap, n, v, rest)
  {
    hide ParseValue, IsReading;
    if ParseValue(s, depth) == Parsed(v, rest) {
      var gap, n := ValueIsWritten(s, depth);
      assert IsReading(s, depth, gap, n, v, rest);
    }
    forall gap, n | IsReading(s, depth, gap, n, v, rest) ensures ParseValue(s, depth) == Parsed(v, rest) {
      ReadingIsRead(s, depth, gap, n, v, rest);
    }
  }

  lemma ReadingIsRead(s: Bytes, depth: nat, gap: Bytes, n: Node, v: Value, rest: Bytes)
    requires IsReading(s, depth, gap, n, v, rest)
    ensures ParseValue(s, depth) == Parsed(v, rest)
  {
    hide ParseValue;
    NodeReadsInContext(gap, n, depth, rest);
  }
}

/** What the serializer writes, character by character: of all texts that mean a value, this one. */
module JsonLayout {
  import opened ByteStrings
  import opened Json
  import opened JsonSyntax
  import opened UnicodeLaws
  import Decimal
  import JsonGrammar
  import JsonLaws
  import JsonPrinter
  import Utf8

  // ---- Strings ----

  /** How a character is written: as it is if it can be, else in the short form if it has one, else as four digits. */
  predicate IsPrintedChar(ch: Char) {
    match ch
    case Plain(c) => c >= ' ' && c !in "\"\\/\U{7f}"
    case Short(c) => c in "\"\\/bfnrt"
    case Unicode(text, n) =>
      && |text| == 4 && (n < 32 || n == 127) && n !in [8, 9, 10, 12, 13]
      && text == "00" + ["0123456789abcdef"[n / 16], "0123456789abcdef"[n % 16]]
  }

  predicate ArePrintedChars(chars: seq<Char>) {
    forall i :: 0 <= i < |chars| ==> IsPrintedChar(chars[i])
  }

  function PrintedChar(c: byte): Char {
    match EscapeLetter(c)
    case Some(letter) => Short(letter)
    case None =>
      if c < ' ' || c == '\U{7f}' then Unicode("00" + [Hex(c as int / 16), Hex(c as int % 16)], c as int) else Plain(c)
  }

  lemma HexLiterally(d: nat)
    requires d < 16
    ensures Hex(d) == "0123456789abcdef"[d]
  {
  }

  lemma SpelledInTwo(text: Bytes, n: nat)
    requires n < 256 && text == "00" + ["0123456789abcdef"[n / 16], "0123456789abcdef"[n % 16]]
    ensures DenotesBasic(text, n, [])
  {
    assert SpellsWith(text, n, 0, 0, n / 16, n % 16);
    assert text[4..] == [];
  }

  lemma CharIsPrinted(c: byte)
    ensures IsChar(PrintedChar(c)) && IsPrintedChar(PrintedChar(c))
    ensures CharText(PrintedChar(c)) == EscapedByte(c) && CharBytes(PrintedChar(c)) == [c]
  {
    hide Spells;
    var n := c as int;
    if EscapeLetter(c).None? && (c < ' ' || c == '\U{7f}') {
      HexLiterally(n / 16);
      HexLiterally(n % 16);
      SpelledInTwo("00" + [Hex(n / 16), Hex(n % 16)], n);
    }
  }

  lemma {:induction false} StringIsPrinted(s: Bytes) returns (chars: seq<Char>)
    ensures AreChars(chars) && ArePrintedChars(chars) && CharsText(chars) == Escaped(s) && CharsBytes(chars) == s
    decreases |s|
  {
    hide IsChar, IsPrintedChar, PrintedChar, CharText, CharBytes, EscapedByte;
    if s == [] {
      chars := [];
    } else {
      CharIsPrinted(s[0]);
      var more := StringIsPrinted(s[1..]);
      chars := [PrintedChar(s[0])] + more;
      assert chars[1..] == more && s == [s[0]] + s[1..];
    }
  }

  // ---- The order of members ----

  /** The first place where `x` and `y` differ has the smaller byte in `x`, or is where `x` ends. */
  predicate DifferAt(x: Bytes, y: Bytes, k: nat) {
    k <= |x| && k < |y| && x[..k] == y[..k] && (k == |x| || x[k] < y[k])
  }

  ghost predicate Precedes(x: Bytes, y: Bytes) {
    exists k: nat :: DifferAt(x, y, k)
  }

  lemma {:induction false} LessIsPrecedes(x: Bytes, y: Bytes)
    ensures Less(x, y) <==> Precedes(x, y)
  {
    if y == [] {
    } else if x == [] || x[0] < y[0] {
      assert DifferAt(x, y, 0);
    } else if x[0] > y[0] {
      forall k: nat ensures !DifferAt(x, y, k) {
        if 0 < k <= |x| && k < |y| {
          assert x[..k][0] == x[0] && y[..k][0] == y[0];
        }
      }
    } else {
      LessIsPrecedes(x[1..], y[1..]);
      if k: nat :| DifferAt(x[1..], y[1..], k) {
        assert x[..k + 1] == [x[0]] + x[1..][..k] && y[..k + 1] == [y[0]] + y[1..][..k];
        assert DifferAt(x, y, k + 1);
      }
      if k: nat :| DifferAt(x, y, k) {
        assert k > 0;
        assert x[1..][..k - 1] == x[..k][1..] && y[1..][..k - 1] == y[..k][1..];
        assert DifferAt(x[1..], y[1..], k - 1);
      }
    }
  }

  // ---- Values ----

  /** What is between two lines of the pretty form, the second `level` brackets deep; nothing in the compact form. */
  predicate IsBreak(gap: Bytes, level: int) {
    if level < 0 then gap == []
    else |gap| == 1 + 2 * level && gap[0] == '\n' && forall i :: 1 <= i < |gap| ==> gap[i] == ' '
  }

  function Deeper(level: int): int {
    if level < 0 then level else level + 1
  }

  /** A value as it is printed, `level` brackets deep, or compactly for a negative level. */
  ghost predicate IsLaid(n: Node, level: int)
    decreases n
  {
    match n
    case Numeral(negative, digits) => digits != "" && (digits[0] == '0' ==> digits == "0" && !negative)
    case Quote(chars) => ArePrintedChars(chars)
    case List(items, gap) => gap == [] && forall i :: 0 <= i < |items| ==> ItemIsLaid(items[i], level, i == |items| - 1)
    case Record(members, gap) =>
      && gap == []
      && (forall i :: 0 <= i < |members| ==> MemberIsLaid(members[i], level, i == |members| - 1))
      && (forall i, j :: 0 <= i < j < |members| ==> Precedes(CharsBytes(members[i].key), CharsBytes(members[j].key)))
    case _ => true
  }

  /** Each element is on a line of its own, and the closing bracket too. */
  ghost predicate ItemIsLaid(item: Item, level: int, last: bool)
    decreases item
  {
    && IsBreak(item.before, Deeper(level)) && IsLaid(item.node, Deeper(level))
    && if last then IsBreak(item.after, level) else item.after == []
  }

  ghost predicate MemberIsLaid(m: Member, level: int, last: bool)
    decreases m
  {
    && IsBreak(m.before, Deeper(level)) && ArePrintedChars(m.key)
    && m.afterKey == [] && m.afterColon == (if level < 0 then [] else " ")
    && IsLaid(m.node, Deeper(level))
    && if last then IsBreak(m.after, level) else m.after == []
  }

  lemma {:induction false} SpacesAreBlanks(n: nat)
    ensures |Spaces(n)| == n && forall i :: 0 <= i < n ==> Spaces(n)[i] == ' '
  {
    if n > 0 {
      SpacesAreBlanks(n - 1);
    }
  }

  lemma NewLineIsBreak(level: int)
    ensures IsBreak(NewLine(level), level) && IsGap(NewLine(level))
  {
    if level >= 0 {
      SpacesAreBlanks(2 * level);
    }
  }

  lemma WordIsPrinted(v: Value, level: int) returns (n: Node)
    requires v.Null? || v.Bool?
    ensures IsNode(n) && IsLaid(n, level) && Meaning(n) == v && JsonSyntax.Written(n) == Json.Text(v, level)
  {
    n := if v.Null? then Node.Null else if v.b then True else False;
  }

  lemma NumeralIsPrinted(i: int64, level: int) returns (n: Node)
    ensures IsNode(n) && IsLaid(n, level) && Meaning(n) == Int(i)
    ensures JsonSyntax.Written(n) == Decimal.IntText(i)
  {
    var k: int := i;
    var size := if k < 0 then -k else k;
    Decimal.ValueOfText(size);
    Decimal.TextIsCanonical(size);
    n := Numeral(k < 0, Decimal.Text(size));
  }

  lemma QuoteIsPrinted(s: Bytes, level: int) returns (n: Node)
    ensures IsNode(n) && IsLaid(n, level) && Meaning(n) == Str(s) && JsonSyntax.Written(n) == Quoted(s)
  {
    hide IsChar, IsPrintedChar, CharsText, CharsBytes, Escaped;
    var chars := StringIsPrinted(s);
    n := Quote(chars);
  }

  lemma EmptyIsLaid(level: int)
    requires level >= -1
    ensures IsNode(List([], [])) && IsLaid(List([], []), level) && Meaning(List([], [])) == Arr([])
    ensures JsonSyntax.Written(List([], [])) == Json.Text(Arr([]), level)
    ensures IsNode(Record([], [])) && IsLaid(Record([], []), level) && Meaning(Record([], [])) == Obj(map[])
    ensures JsonSyntax.Written(Record([], [])) == Json.Text(Obj(map[]), level)
  {
    EmptyNodes([], 1);
    assert "[" + [] + "]" == "[]" && "{" + [] + "}" == "{}";
    var none: Object := map[];
    assert none.Keys == {};
  }

  lemma ListIsLaid(items: seq<Item>, level: int)
    requires items != []
    requires forall i :: 0 <= i < |items| ==> IsItem(items[i]) && ItemIsLaid(items[i], level, i == |items| - 1)
    ensures var n := List(items, []);
      && IsNode(n) && IsLaid(n, level) && Meaning(n) == Arr(ItemsMeaning(items))
      && JsonSyntax.Written(n) == "[" + ItemsText(items) + "]"
  {
    hide ItemsText, IsItem, ItemIsLaid;
  }

  lemma RecordIsLaid(members: seq<Member>, level: int)
    requires members != []
    requires forall i :: 0 <= i < |members| ==>
      IsMember(members[i]) && MemberIsLaid(members[i], level, i == |members| - 1)
    requires forall i, j :: 0 <= i < j < |members| ==> Precedes(CharsBytes(members[i].key), CharsBytes(members[j].key))
    ensures var n := Record(members, []);
      && IsNode(n) && IsLaid(n, level) && Meaning(n) == Obj(MembersMeaning(members, map[]))
      && JsonSyntax.Written(n) == "{" + MembersText(members) + "}"
  {
    hide MembersText, IsMember, MemberIsLaid, Precedes, CharsBytes;
  }

  lemma BracketedRegroups(open: byte, joined: Bytes, line: Bytes, close: byte)
    ensures [open] + (joined + line) + [close] == [open] + joined + line + [close]
  {
  }

  lemma LastRegroups(x: Bytes, line: Bytes)
    ensures x + line + [] == x + [] + line
  {
  }

  lemma MoreRegroups(x: Bytes, joined: Bytes, line: Bytes)
    ensures x + [] + ([','] + (joined + line)) == x + ([','] + joined) + line
  {
  }

  lemma {:induction false} ArrayIsLaid(v: Value, level: int) returns (n: Node)
    requires level >= -1 && v.Arr?
    ensures IsNode(n) && IsLaid(n, level) && Meaning(n) == v && JsonSyntax.Written(n) == Json.Text(v, level)
    decreases v, 0
  {
    hide IsNode, IsLaid, Meaning, JsonSyntax.Written, IsItem, ItemIsLaid, ItemsText, Json.Joined, NewLine;
    if v.items == [] {
      EmptyIsLaid(level);
      n := List([], []);
    } else {
      var items := ItemsAreLaid(v.items, level);
      n := List(items, []);
      ListIsLaid(items, level);
      BracketedRegroups('[', Json.Joined(ItemTexts(v.items, Inner(level)), Inner(level)), NewLine(level), ']');
    }
  }

  lemma FirstItem(n: Node, level: int, last: bool) returns (item: Item)
    requires level >= -1 && IsNode(n) && IsLaid(n, Inner(level))
    ensures IsItem(item) && ItemIsLaid(item, level, last)
    ensures item == Item(NewLine(Inner(level)), n, if last then NewLine(level) else [])
  {
    hide IsNode, IsLaid, NewLine, IsBreak;
    NewLineIsBreak(level);
    NewLineIsBreak(Inner(level));
    item := Item(NewLine(Inner(level)), n, if last then NewLine(level) else []);
  }

  lemma {:induction false} ItemsAreLaid(items: seq<Value>, level: int) returns (nodes: seq<Item>)
    requires items != [] && level >= -1
    ensures |nodes| == |items|
    ensures forall i :: 0 <= i < |nodes| ==> IsItem(nodes[i]) && ItemIsLaid(nodes[i], level, i == |nodes| - 1)
    ensures ItemsMeaning(nodes) == items
    ensures ItemsText(nodes) == Json.Joined(ItemTexts(items, Inner(level)), Inner(level)) + NewLine(level)
    decreases items, 0
  {
    hide IsNode, IsLaid, Meaning, JsonSyntax.Written, Json.Text, NewLine, IsItem, ItemIsLaid, ItemsText;
    var n := TextIsLaid(items[0], Inner(level));
    var item := FirstItem(n, level, |items| == 1);
    var start := NewLine(Inner(level)) + JsonSyntax.Written(n);
    if |items| == 1 {
      nodes := [item];
      ItemOf(item);
      ItemsTextStarts(nodes);
      LastRegroups(start, NewLine(level));
      assert nodes[1..] == [] && items == [items[0]];
    } else {
      var more := ItemsAreLaid(items[1..], level);
      nodes := [item] + more;
      ItemOf(item);
      assert nodes[1..] == more && items == [items[0]] + items[1..];
      ItemsTextStarts(nodes);
      MoreRegroups(start, Json.Joined(ItemTexts(items[1..], Inner(level)), Inner(level)), NewLine(level));
    }
  }

  lemma ItemOf(item: Item)
    requires IsItem(item)
    ensures IsNode(item.node)
  {
  }

  lemma {:induction false} ObjectIsLaid(v: Value, level: int) returns (n: Node)
    requires level >= -1 && v.Obj?
    ensures IsNode(n) && IsLaid(n, level) && Meaning(n) == v && JsonSyntax.Written(n) == Json.Text(v, level)
    decreases v, 0
  {
    hide IsNode, IsLaid, Meaning, JsonSyntax.Written, IsMember, MemberIsLaid, MembersText, Json.Joined, NewLine;
    hide Less, Precedes, SortedKeys;
    var keys := SortedKeys(v.members.Keys);
    if keys == [] {
      EmptyIsLaid(level);
      n := Record([], []);
    } else {
      var members := MembersAreLaid(v, keys, map[], level);
      n := Record(members, []);
      JsonPrinter.SortedKeysAscend(v.members.Keys);
      forall i, j | 0 <= i < j < |keys| ensures Precedes(CharsBytes(members[i].key), CharsBytes(members[j].key)) {
        LessIsPrecedes(keys[i], keys[j]);
      }
      RecordIsLaid(members, level);
      JsonLaws.WholeObject(v.members, keys, 0);
      BracketedRegroups('{', Json.Joined(MemberTexts(v, keys, Inner(level)), Inner(level)), NewLine(level), '}');
    }
  }

  lemma MemberTextIs(m: Member, key: Bytes, text: Bytes, level: int)
    requires level >= -1 && CharsText(m.key) == Escaped(key) && JsonSyntax.Written(m.node) == text
    requires m.afterKey == [] && m.afterColon == (if level < 0 then [] else " ")
    ensures KeyText(m) + m.afterColon + JsonSyntax.Written(m.node) + m.after
         == m.before + (Quoted(key) + KeySeparator(Inner(level)) + text) + m.after
  {
    hide CharsText, JsonSyntax.Written, Escaped;
  }

  lemma MembersTextsStart(v: Value, keys: seq<Bytes>, inner: int)
    requires v.Obj? && keys != [] && forall k :: k in keys ==> k in v.members
    ensures MemberTexts(v, keys, inner)[0]
         == Quoted(keys[0]) + KeySeparator(inner) + Json.Text(v.members[keys[0]], inner)
    ensures MemberTexts(v, keys, inner)[1..] == MemberTexts(v, keys[1..], inner)
  {
    hide Json.Text, Quoted, KeySeparator;
  }

  lemma FirstMember(v: Value, keys: seq<Bytes>, level: int, chars: seq<Char>, n: Node, last: bool) returns (m: Member)
    requires level >= -1 && v.Obj? && keys != [] && forall k :: k in keys ==> k in v.members
    requires AreChars(chars) && ArePrintedChars(chars) && CharsText(chars) == Escaped(keys[0])
    requires IsNode(n) && IsLaid(n, Inner(level))
    requires JsonSyntax.Written(n) == Json.Text(v.members[keys[0]], Inner(level))
    ensures IsMember(m) && MemberIsLaid(m, level, last) && m.key == chars && m.node == n
    ensures m.after == if last then NewLine(level) else []
    ensures KeyText(m) + m.afterColon + JsonSyntax.Written(m.node) + m.after
         == NewLine(Inner(level)) + MemberTexts(v, keys, Inner(level))[0] + m.after
  {
    hide IsNode, IsLaid, JsonSyntax.Written, Json.Text, NewLine, IsBreak, AreChars, ArePrintedChars;
    hide CharsText, CharsBytes, Escaped, KeyText, KeySeparator, MemberTexts;
    NewLineIsBreak(level);
    NewLineIsBreak(Inner(level));
    var colon: Bytes := if level < 0 then [] else " ";
    m := Member(NewLine(Inner(level)), chars, [], colon, n, if last then NewLine(level) else []);
    MemberTextIs(m, keys[0], Json.Text(v.members[keys[0]], Inner(level)), level);
    MembersTextsStart(v, keys, Inner(level));
  }

  /** The members from some key on, with what they add to the object. */
  lemma {:induction false} MembersAreLaid(v: Value, keys: seq<Bytes>, done: Object, level: int)
    returns (nodes: seq<Member>)
    requires level >= -1 && v.Obj? && keys != [] && forall k :: k in keys ==> k in v.members
    ensures |nodes| == |keys|
    ensures forall i :: 0 <= i < |nodes| ==> IsMember(nodes[i]) && MemberIsLaid(nodes[i], level, i == |nodes| - 1)
    ensures forall i :: 0 <= i < |nodes| ==> CharsBytes(nodes[i].key) == keys[i]
    ensures MembersMeaning(nodes, done) == JsonLaws.Entered(done, keys, JsonLaws.ValuesOf(keys, v.members))
    ensures MembersText(nodes) == Json.Joined(MemberTexts(v, keys, Inner(level)), Inner(level)) + NewLine(level)
    decreases v, 0, |keys|
  {
    hide IsNode, IsLaid, Meaning, JsonSyntax.Written, Json.Text, NewLine, AreChars, ArePrintedChars, IsMember;
    hide MemberIsLaid, MemberTexts, MembersText, CharsText, CharsBytes, Escaped, KeyText;
    var value := v.members[keys[0]];
    var n := TextIsLaid(value, Inner(level));
    var chars := StringIsPrinted(keys[0]);
    var m := FirstMember(v, keys, level, chars, n, |keys| == 1);
    MembersTextsStart(v, keys, Inner(level));
    assert JsonLaws.ValuesOf(keys, v.members)[1..] == JsonLaws.ValuesOf(keys[1..], v.members);
    var start := NewLine(Inner(level)) + MemberTexts(v, keys, Inner(level))[0];
    if |keys| == 1 {
      nodes := [m];
      MembersTextStarts(nodes);
      LastRegroups(start, NewLine(level));
    } else {
      var more := MembersAreLaid(v, keys[1..], done[keys[0] := value], level);
      nodes := [m] + more;
      assert nodes[1..] == more;
      MembersTextStarts(nodes);
      MoreRegroups(start, Json.Joined(MemberTexts(v, keys[1..], Inner(level)), Inner(level)), NewLine(level));
    }
  }

  lemma LeavesAreText(v: Value, level: int)
    ensures v.Int? ==> Json.Text(v, level) == Decimal.IntText(v.i)
    ensures v.Str? ==> Json.Text(v, level) == Quoted(v.s)
  {
  }

  /** The serializer's text is the printed form of the value. */
  lemma {:induction false} TextIsLaid(v: Value, level: int) returns (n: Node)
    requires level >= -1
    ensures IsNode(n) && IsLaid(n, level) && Meaning(n) == v && JsonSyntax.Written(n) == Json.Text(v, level)
    decreases v, 1
  {
    hide IsNode, IsLaid, Meaning, JsonSyntax.Written, Json.Text;
    LeavesAreText(v, level);
    match v
    case Int(i) => n := NumeralIsPrinted(i, level);
    case Str(s) => n := QuoteIsPrinted(s, level);
    case Arr(items) => n := ArrayIsLaid(v, level);
    case Obj(members) => n := ObjectIsLaid(v, level);
    case _ => n := WordIsPrinted(v, level);
  }

  /** The whole of a serialized text: compact, or pretty with a line break at the end. */
  lemma SerializedIsLaid(v: Value, prettify: bool) returns (n: Node)
    ensures IsNode(n) && IsLaid(n, if prettify then 0 else -1) && Meaning(n) == v
    ensures Serialized(v, prettify) == if prettify then JsonSyntax.Written(n) + "\n" else JsonSyntax.Written(n)
  {
    hide IsNode, IsLaid, Meaning, JsonSyntax.Written, Json.Text;
    n := TextIsLaid(v, if prettify then 0 else -1);
  }
}

/** picojson's serializer as it runs, appending to the text written so far. */
module JsonPrinter {
  import opened ByteStrings
  import opened Json
  import Decimal

  lemma {:induction false} JoinedAppend(texts: seq<Bytes>, text: Bytes, indent: int)
    requires texts != []
    ensures Joined(texts + [text], indent) == Joined(texts, indent) + "," + (NewLine(indent) + text)
  {
    if |texts| > 1 {
      JoinedAppend(texts[1..], text, indent);
      assert (texts + [text])[1..] == texts[1..] + [text];
    } else {
      assert (texts + [text])[1..] == [text];
    }
  }

  /** The elements written so far, each with a comma in front but for the first. */
  function JoinedSoFar(texts: seq<Bytes>, indent: int): Bytes {
    if texts == [] then [] else Joined(texts, indent)
  }

  lemma SoFarAppend(texts: seq<Bytes>, text: Bytes, indent: int)
    ensures JoinedSoFar(texts + [text], indent)
         == JoinedSoFar(texts, indent) + ((if texts == [] then [] else ",") + (NewLine(indent) + text))
  {
    if texts == [] {
      assert texts + [text] == [text];
    } else {
      JoinedAppend(texts, text, indent);
    }
  }

  lemma SortedKeysStep(k: Bytes, keys: set<Bytes>)
    requires IsLeast(k, keys)
    ensures SortedKeys(keys) == [k] + SortedKeys(keys - {k})
  {
    LeastIsUnique(keys);
  }

  /** An iterator visits the keys of an object in strictly ascending order, each once. */
  lemma {:induction false} SortedKeysAscend(keys: set<Bytes>)
    ensures forall i, j :: 0 <= i < j < |SortedKeys(keys)| ==> Less(SortedKeys(keys)[i], SortedKeys(keys)[j])
    decreases |keys|
  {
    if keys != {} {
      LeastExists(keys);
      var k :| IsLeast(k, keys);
      var rest := SortedKeys(keys - {k});
      SortedKeysStep(k, keys);
      SortedKeysAscend(keys - {k});
      assert forall j :: 0 <= j < |rest| ==> rest[j] in keys && rest[j] != k;
    }
  }

  lemma QuoteClosed(oi: Bytes, text: Bytes)
    ensures oi + "\"" + text + "\"" == oi + ("\"" + text + "\"")
  {
  }

  method SerializeStr(s: Bytes, oi: Bytes) returns (r: Bytes)
    ensures r == oi + Quoted(s)
  {
    r := oi + "\"";
    for i := 0 to |s|
      invariant r + Escaped(s[i..]) == oi + "\"" + Escaped(s)
    {
      r := r + EscapedByte(s[i]);
      assert s[i..][1..] == s[i + 1..];
    }
    assert Escaped(s[|s|..]) == [] && r + [] == r;
    QuoteClosed(oi, Escaped(s));
    r := r + "\"";
  }

  lemma {:induction false} SpacesAppend(n: nat)
    ensures Spaces(n + 1) == Spaces(n) + " "
  {
    if n == 0 {
      assert " " + Spaces(0) == Spaces(0) + " ";
    } else {
      SpacesAppend(n - 1);
      assert Spaces(n + 1) == " " + (Spaces(n - 1) + " ") == (" " + Spaces(n - 1)) + " ";
    }
  }

  method Indent(indent: nat, oi: Bytes) returns (r: Bytes)
    ensures r == oi + NewLine(indent)
  {
    r := oi + "\n";
    for i := 0 to 2 * indent
      invariant r == oi + ("\n" + Spaces(i))
    {
      SpacesAppend(i);
      r := r + " ";
    }
  }

  method Serialize(v: Value, indent: int, oi: Bytes) returns (r: Bytes)
    requires indent >= COMPACT
    ensures r == oi + (Text(v, indent) + if indent == 0 then "\n" else [])
    decreases v, 2
  {
    hide Bracketed, ItemTexts, MemberTexts, SortedKeys, Quoted, Decimal.IntText;
    match v {
      case Null => r := oi + "null";
      case Bool(b) => r := oi + if b then "true" else "false";
      case Int(i) => r := oi + Decimal.IntText(i);
      case Str(s) => r := SerializeStr(s, oi);
      case Arr(items) => r := SerializeArray(v, indent, oi);
      case Obj(members) => r := SerializeObject(v, indent, oi);
    }
    if indent == 0 {
      r := r + "\n";
    }
  }

  /** `value::serialize`. */
  method SerializeText(v: Value, prettify: bool) returns (s: Bytes)
    ensures s == Serialized(v, prettify)
  {
    s := Serialize(v, if prettify then 0 else COMPACT, []);
  }

  /** A comma, unless this is the first element, and the element's line break. */
  method StartElement(first: bool, inner: int, oi: Bytes) returns (r: Bytes)
    requires inner >= COMPACT
    ensures r == oi + ((if first then [] else ",") + NewLine(inner))
  {
    r := oi;
    if !first {
      r := r + ",";
    }
    if inner != COMPACT {
      r := Indent(inner, r);
    }
  }

  /** What `StartElement` and the element add to the elements written so far. */
  lemma ElementAdded(start: Bytes, texts: seq<Bytes>, text: Bytes, inner: int)
    ensures start + JoinedSoFar(texts, inner) + ((if texts == [] then [] else ",") + NewLine(inner)) + text
         == start + JoinedSoFar(texts + [text], inner)
  {
    hide JoinedSoFar, NewLine;
    SoFarAppend(texts, text, inner);
    Regroup(start, JoinedSoFar(texts, inner), if texts == [] then [] else ",", NewLine(inner), text);
  }

  lemma Regroup(a: Bytes, b: Bytes, c: Bytes, d: Bytes, e: Bytes)
    ensures a + b + (c + d) + e == a + (b + (c + (d + e)))
  {
  }

  lemma NothingYet(start: Bytes, inner: int)
    ensures start + JoinedSoFar([], inner) == start
  {
  }

  lemma CompactIsOneLine()
    ensures NewLine(COMPACT) == []
  {
  }

  lemma BracketsAround(oi: Bytes, open: byte, text: Bytes, end: Bytes, close: byte)
    ensures oi + [open] + text + end + [close] == oi + ([open] + text + end + [close])
    ensures oi + [open] + [] + [] + [close] == oi + [open, close]
  {
  }

  lemma Closed(oi: Bytes, open: byte, texts: seq<Bytes>, indent: int, close: byte)
    ensures oi + [open] + JoinedSoFar(texts, Inner(indent)) + (if texts == [] then [] else NewLine(indent)) + [close]
         == oi + Bracketed(open, texts, indent, close)
  {
    hide Joined, NewLine;
    BracketsAround(oi, open, JoinedSoFar(texts, Inner(indent)), NewLine(indent), close);
  }

  method SerializeArray(v: Value, indent: int, oi: Bytes) returns (r: Bytes)
    requires indent >= COMPACT && v.Arr?
    ensures r == oi + Bracketed('[', ItemTexts(v.items, Inner(indent)), indent, ']')
    decreases v, 1
  {
    hide JoinedSoFar, NewLine, Bracketed, Text;
    NothingYet(oi + ['['], Inner(indent));
    r := oi + ['['];
    ghost var start := r;
    var inner := if indent != COMPACT then indent + 1 else indent;
    ghost var texts := ItemTexts(v.items, inner);
    for i := 0 to |v.items|
      invariant r == start + JoinedSoFar(texts[..i], inner)
    {
      r := StartElement(i == 0, inner, r);
      r := Serialize(v.items[i], inner, r);
      ElementAdded(start, texts[..i], texts[i], inner);
      assert texts[..i + 1] == texts[..i] + [texts[i]];
    }
    assert texts[..|v.items|] == texts;
    if indent != COMPACT && v.items != [] {
      r := Indent(indent, r);
    }
    CompactIsOneLine();
    Closed(oi, '[', texts, indent, ']');
    r := r + [']'];
  }

  /** The members are visited in the order of their keys, as an iterator of a `std::map` does. */
  method SerializeObject(v: Value, indent: int, oi: Bytes) returns (r: Bytes)
    requires indent >= COMPACT && v.Obj?
    ensures r == oi + Bracketed('{', MemberTexts(v, SortedKeys(v.members.Keys), Inner(indent)), indent, '}')
    decreases v, 1
  {
    hide MemberTexts, SortedKeys, JoinedSoFar, NewLine, Bracketed, Quoted, KeySeparator, Text;
    r := oi + ['{'];
    ghost var start := r;
    var inner := if indent != COMPACT then indent + 1 else indent;
    ghost var keys := SortedKeys(v.members.Keys);
    ghost var done: seq<Bytes> := [];
    ghost var texts: seq<Bytes> := [];
    var left := v.members.Keys;
    NothingYet(start, inner);
    NothingVisited(v, inner);
    while left != {}
      invariant left <= v.members.Keys && keys == done + SortedKeys(left)
      invariant forall k :: k in done ==> k in v.members
      invariant texts == MemberTexts(v, done, inner)
      invariant r == start + JoinedSoFar(texts, inner)
      invariant if texts == [] then left == v.members.Keys else left < v.members.Keys
      decreases left
    {
      LeastExists(left);
      var k :| IsLeast(k, left);
      KeysVisited(keys, done, k, left);
      ghost var text;
      r, text := SerializeMember(v, k, left == v.members.Keys, inner, r);
      ElementAdded(start, texts, text, inner);
      MemberTextsAppend(v, done, k, inner);
      texts := texts + [text];
      done := done + [k];
      left := left - {k};
    }
    if indent != COMPACT && v.members != map[] {
      r := Indent(indent, r);
    }
    CompactIsOneLine();
    Closed(oi, '{', texts, indent, '}');
    r := r + ['}'];
    AllVisited(keys, done);
  }

  lemma NothingVisited(v: Value, inner: int)
    requires v.Obj?
    ensures MemberTexts(v, [], inner) == []
    ensures [] + SortedKeys(v.members.Keys) == SortedKeys(v.members.Keys)
  {
  }

  lemma AllVisited(keys: seq<Bytes>, done: seq<Bytes>)
    requires keys == done + SortedKeys({})
    ensures done == keys
  {
  }

  lemma KeysVisited(keys: seq<Bytes>, done: seq<Bytes>, k: Bytes, left: set<Bytes>)
    requires keys == done + SortedKeys(left) && IsLeast(k, left)
    ensures keys == done + [k] + SortedKeys(left - {k})
  {
    SortedKeysStep(k, left);
  }

  lemma KeyWritten(start: Bytes, key: Bytes, inner: int)
    ensures start + key + ":" + (if inner != COMPACT then " " else []) == start + (key + KeySeparator(inner))
    ensures inner == COMPACT ==> start + key + ":" == start + (key + KeySeparator(inner))
  {
  }

  /** Everything of a member up to its value. */
  method SerializeKey(k: Bytes, first: bool, inner: int, oi: Bytes) returns (r: Bytes)
    requires inner >= COMPACT
    ensures r == oi + ((if first then [] else ",") + NewLine(inner)) + (Quoted(k) + KeySeparator(inner))
  {
    r := StartElement(first, inner, oi);
    ghost var start := r;
    r := SerializeStr(k, r);
    KeyWritten(start, Quoted(k), inner);
    r := r + ":";
    if inner != COMPACT {
      r := r + " ";
    }
  }

  method SerializeMember(v: Value, k: Bytes, first: bool, inner: int, oi: Bytes) returns (r: Bytes, ghost text: Bytes)
    requires inner >= COMPACT && inner != 0 && v.Obj? && k in v.members
    ensures text == Quoted(k) + KeySeparator(inner) + Text(v.members[k], inner)
    ensures r == oi + ((if first then [] else ",") + NewLine(inner)) + text
    decreases v, 0
  {
    hide Quoted, KeySeparator, NewLine, Text;
    r := SerializeKey(k, first, inner, oi);
    ghost var value := Text(v.members[k], inner);
    ValueWritten(oi + ((if first then [] else ",") + NewLine(inner)), Quoted(k) + KeySeparator(inner), value);
    r := Serialize(v.members[k], inner, r);
    text := Quoted(k) + KeySeparator(inner) + value;
  }

  lemma ValueWritten(start: Bytes, key: Bytes, value: Bytes)
    ensures start + key + (value + []) == start + (key + value)
  {
  }

  lemma {:induction false} MemberTextsAppend(o: Value, keys: seq<Bytes>, k: Bytes, indent: int)
    requires o.Obj? && k in o.members && forall x :: x in keys ==> x in o.members
    ensures MemberTexts(o, keys + [k], indent)
         == MemberTexts(o, keys, indent) + [Quoted(k) + KeySeparator(indent) + Text(o.members[k], indent)]
  {
    var all := MemberTexts(o, keys + [k], indent);
    forall i | 0 <= i < |keys| ensures all[i] == MemberTexts(o, keys, indent)[i] {
      assert (keys + [k])[i] == keys[i];
    }
  }
}

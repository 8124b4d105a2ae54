/** JSON values and their text, as picojson prints it. */
module Json {
  import opened ByteStrings
  import Decimal

  type int64 = i: int | -0x8000_0000_0000_0000 <= i < 0x8000_0000_0000_0000

  type Object = map<Bytes, Value>

  datatype Value =
    | Null
    | Bool(b: bool)
    | Int(i: int64)
    | Str(s: Bytes)
    | Arr(items: seq<Value>)
    | Obj(members: Object)

  // ---- The order of a std::map ----

  /** Byte-wise lexicographic order, that of `std::string`. */
  predicate Less(x: Bytes, y: Bytes) {
    y != [] && (x == [] || x[0] < y[0] || (x[0] == y[0] && Less(x[1..], y[1..])))
  }

  lemma {:induction false} LessIsTotal(x: Bytes, y: Bytes)
    ensures Less(x, y) || x == y || Less(y, x)
    ensures !(Less(x, y) && Less(y, x))
  {
    if x != [] && y != [] && x[0] == y[0] {
      LessIsTotal(x[1..], y[1..]);
      assert x == [x[0]] + x[1..] && y == [y[0]] + y[1..];
    }
  }

  lemma {:induction false} LessIsTransitive(x: Bytes, y: Bytes, z: Bytes)
    requires Less(x, y) && Less(y, z)
    ensures Less(x, z)
  {
    if x != [] && x[0] == y[0] == z[0] {
      LessIsTransitive(x[1..], y[1..], z[1..]);
    }
  }

  predicate IsLeast(k: Bytes, keys: set<Bytes>) {
    k in keys && forall x :: x in keys && x != k ==> Less(k, x)
  }

  lemma {:induction false} LeastExists(keys: set<Bytes>)
    requires keys != {}
    ensures exists k :: IsLeast(k, keys)
    decreases |keys|
  {
    var x :| x in keys;
    var others := keys - {x};
    if others == {} {
      assert keys == {x};
      assert IsLeast(x, keys);
    } else {
      LeastExists(others);
      var k :| IsLeast(k, others);
      LessIsTotal(x, k);
      var least := if Less(x, k) then x else k;
      forall y | y in keys && y != least ensures Less(least, y) {
        assert y in others || y == x;
        if Less(x, k) && y != k {
          LessIsTransitive(x, k, y);
        }
      }
      assert IsLeast(least, keys);
    }
  }

  lemma LeastIsUnique(keys: set<Bytes>)
    ensures forall x, y :: IsLeast(x, keys) && IsLeast(y, keys) ==> x == y
  {
    forall x, y | IsLeast(x, keys) && IsLeast(y, keys) ensures x == y {
      LessIsTotal(x, y);
    }
  }

  /** The keys in the order in which an iterator visits them. */
  function SortedKeys(keys: set<Bytes>): (r: seq<Bytes>)
    ensures forall k :: k in r <==> k in keys
    decreases |keys|
  {
    if keys == {} then []
    else
      LeastExists(keys);
      LeastIsUnique(keys);
      var k :| k in keys && IsLeast(k, keys);
      [k] + SortedKeys(keys - {k})
  }

  // ---- Text ----

  function Hex(d: nat): byte
    requires d < 16
  {
    if d < 10 then ('0' as int + d) as char else ('a' as int + d - 10) as char
  }

  /** The letter of a one-letter escape. */
  function EscapeLetter(c: byte): Option<byte> {
    match c
    case '"' => Some('"')
    case '\\' => Some('\\')
    case '/' => Some('/')
    case '\U{8}' => Some('b')
    case '\U{c}' => Some('f')
    case '\n' => Some('n')
    case '\r' => Some('r')
    case '\t' => Some('t')
    case _ => None
  }

  /** How one byte of a string is written. */
  function EscapedByte(c: byte): Bytes {
    match EscapeLetter(c)
    case Some(letter) => ['\\', letter]
    case None =>
      if c < ' ' || c == '\U{7f}' then "\\u00" + [Hex(c as int / 16), Hex(c as int % 16)] else [c]
  }

  function Escaped(s: Bytes): Bytes {
    if s == [] then [] else EscapedByte(s[0]) + Escaped(s[1..])
  }

  function Quoted(s: Bytes): Bytes {
    "\"" + Escaped(s) + "\""
  }

  const COMPACT := -1

  function Spaces(n: nat): Bytes {
    if n == 0 then [] else " " + Spaces(n - 1)
  }

  /** The line break and indentation of the pretty form; nothing in the compact form. */
  function NewLine(indent: int): Bytes {
    if indent < 0 then [] else "\n" + Spaces(2 * indent)
  }

  function Inner(indent: int): int {
    if indent == COMPACT then COMPACT else indent + 1
  }

  function KeySeparator(indent: int): Bytes {
    if indent == COMPACT then ":" else ": "
  }

  /** Elements or members one after the other, each on its own line in the pretty form. */
  function Joined(texts: seq<Bytes>, indent: int): Bytes
    requires texts != []
  {
    NewLine(indent) + texts[0] + if |texts| == 1 then [] else "," + Joined(texts[1..], indent)
  }

  function Bracketed(open: byte, texts: seq<Bytes>, indent: int, close: byte): Bytes {
    if texts == [] then [open, close] else [open] + Joined(texts, Inner(indent)) + NewLine(indent) + [close]
  }

  /** A value's own text, without the line break that ends a pretty document. */
  function Text(v: Value, indent: int): Bytes
    decreases v, 1
  {
    match v
    case Null => "null"
    case Bool(b) => if b then "true" else "false"
    case Int(i) => Decimal.IntText(i)
    case Str(s) => Quoted(s)
    case Arr(items) => Bracketed('[', ItemTexts(items, Inner(indent)), indent, ']')
    case Obj(members) => Bracketed('{', MemberTexts(v, SortedKeys(members.Keys), Inner(indent)), indent, '}')
  }

  function ItemTexts(items: seq<Value>, indent: int): (r: seq<Bytes>)
    ensures |r| == |items|
    ensures forall i :: 0 <= i < |items| ==> r[i] == Text(items[i], indent)
    decreases items, 0
  {
    if items == [] then [] else [Text(items[0], indent)] + ItemTexts(items[1..], indent)
  }

  function MemberTexts(o: Value, keys: seq<Bytes>, indent: int): (r: seq<Bytes>)
    requires o.Obj? && forall k :: k in keys ==> k in o.members
    ensures |r| == |keys|
    ensures forall i :: 0 <= i < |keys| ==>
      r[i] == Quoted(keys[i]) + KeySeparator(indent) + Text(o.members[keys[i]], indent)
    decreases o, 0, |keys|
  {
    if keys == [] then []
    else
      [Quoted(keys[0]) + KeySeparator(indent) + Text(o.members[keys[0]], indent)] + MemberTexts(o, keys[1..], indent)
  }

  /** What `serialize` returns: compact, or pretty with a final line break. */
  function Serialized(v: Value, prettify: bool): Bytes {
    if prettify then Text(v, 0) + "\n" else Text(v, COMPACT)
  }
}

/** What picojson's parser accepts and returns, as functions on the text that is still to be read. */
module JsonGrammar {
  import opened ByteStrings
  import opened Json
  import Decimal
  import Utf8

  /**
   * The outcome of parsing: a value and the text behind it, or failure. The model stops at a number that is
   * not an `int64`, where the original turns to `strtod`: the outcome is then `NonInteger`.
   */
  datatype Outcome<+T> = Failed | NonInteger | Parsed(value: T, rest: Bytes)

  predicate IsWhite(c: byte) {
    c == ' ' || c == '\t' || c == '\n' || c == '\r'
  }

  function SkipWhite(s: Bytes): (r: Bytes)
    ensures |r| <= |s|
    ensures r != [] ==> !IsWhite(r[0])
  {
    if s != [] && IsWhite(s[0]) then SkipWhite(s[1..]) else s
  }

  lemma {:induction false} SkipTwice(s: Bytes)
    ensures SkipWhite(SkipWhite(s)) == SkipWhite(s)
  {
    if s != [] && IsWhite(s[0]) {
      SkipTwice(s[1..]);
    }
  }

  /** The text behind `c`, if `c` comes next after white space. */
  function Expect(s: Bytes, c: byte): (r: Option<Bytes>)
    ensures r.Some? ==> |r.value| < |s|
  {
    var t := SkipWhite(s);
    if t != [] && t[0] == c then Some(t[1..]) else None
  }

  // ---- Strings ----

  /** The value of a hexadecimal digit of either case, 16 for any other character. */
  function HexValue(c: byte): (r: nat)
    ensures r <= 16
  {
    if '0' <= c <= '9' then c as int - '0' as int
    else if 'A' <= c <= 'F' then c as int - 'A' as int + 10
    else if 'a' <= c <= 'f' then c as int - 'a' as int + 10
    else 16
  }

  /** The first `k` characters are hexadecimal digits. */
  predicate StartsWithHex(s: Bytes, k: nat) {
    k <= |s| && forall i :: 0 <= i < k ==> HexValue(s[i]) < 16
  }

  /** The number that the first `k` digits make. */
  function HexNumber(s: Bytes, k: nat): (r: nat)
    requires k <= 4 && StartsWithHex(s, k)
    ensures r < match k case 0 => 1 case 1 => 0x10 case 2 => 0x100 case 3 => 0x1000 case _ => 0x10000
  {
    if k == 0 then 0 else HexNumber(s, k - 1) * 16 + HexValue(s[k - 1])
  }

  /** Four digits and the text behind them. */
  function QuadHex(s: Bytes): Option<(nat, Bytes)> {
    if StartsWithHex(s, 4) then Some((HexNumber(s, 4), s[4..])) else None
  }

  predicate IsHighSurrogate(n: nat) {
    0xd800 <= n < 0xdc00
  }

  predicate IsLowSurrogate(n: nat) {
    0xdc00 <= n < 0xe000
  }

  /** What must follow a high surrogate: an escape that is a low one, which completes the code point. */
  function SecondHalf(s: Bytes, first: nat): (r: Option<(nat, Bytes)>)
    requires IsHighSurrogate(first)
    ensures r.Some? ==> 0x10000 <= r.value.0 <= 0x10ffff && |r.value.1| < |s|
  {
    if !("\\u" <= s) then None
    else
      match QuadHex(s[2..])
      case None => None
      case Some((second, t)) =>
        if IsLowSurrogate(second) then Some(((first - 0xd800) * 0x400 + (second - 0xdc00) + 0x10000, t)) else None
  }

  /** The code point of an escape, read behind its `\u`: four digits, or two escapes that are a surrogate pair. */
  function CodePoint(s: Bytes): (r: Option<(nat, Bytes)>)
    ensures r.Some? ==> r.value.0 <= 0x10ffff && |r.value.1| < |s|
  {
    match QuadHex(s)
    case None => None
    case Some((first, t)) =>
      if IsLowSurrogate(first) then None
      else if IsHighSurrogate(first) then SecondHalf(t, first)
      else Some((first, t))
  }

  /** The byte that a one-letter escape stands for. */
  function ShortEscape(c: byte): Option<byte> {
    match c
    case '"' => Some('"')
    case '\\' => Some('\\')
    case '/' => Some('/')
    case 'b' => Some('\U{8}')
    case 'f' => Some('\U{c}')
    case 'n' => Some('\n')
    case 'r' => Some('\r')
    case 't' => Some('\t')
    case _ => None
  }

  /** The bytes of an escape, read behind its backslash. */
  function Escape(s: Bytes): (r: Option<(Bytes, Bytes)>)
    ensures r.Some? ==> |r.value.1| < |s|
  {
    if s == [] then None
    else if s[0] == 'u' then
      match CodePoint(s[1..])
      case None => None
      case Some((n, t)) => Some((Utf8.Encoded(n), t))
    else
      match ShortEscape(s[0])
      case None => None
      case Some(c) => Some(([c], s[1..]))
  }

  /** The rest of a string, read behind its opening quote, appended to `done`. */
  function StringTail(s: Bytes, done: Bytes): (r: Option<(Bytes, Bytes)>)
    ensures r.Some? ==> |r.value.1| < |s|
    decreases |s|
  {
    if s == [] || s[0] < ' ' then None
    else if s[0] == '"' then Some((done, s[1..]))
    else if s[0] == '\\' then
      match Escape(s[1..])
      case None => None
      case Some((bytes, t)) => StringTail(t, done + bytes)
    else StringTail(s[1..], done + [s[0]])
  }

  // ---- Numbers ----

  predicate IsNumberChar(c: byte) {
    '0' <= c <= '9' || c == '+' || c == '-' || c == 'e' || c == 'E' || c == '.'
  }

  /** The characters of a number, appended to `done`, and the text behind them. */
  function NumberTail(s: Bytes, done: Bytes): (r: (Bytes, Bytes))
    ensures |r.1| <= |s|
    ensures s != [] && IsNumberChar(s[0]) ==> |r.1| < |s|
    decreases |s|
  {
    if s != [] && IsNumberChar(s[0]) then NumberTail(s[1..], done + [s[0]]) else (done, s)
  }

  /** What `strtoimax` makes of the whole of a number's text, if it is all of it and in range. */
  function IntegerOf(text: Bytes): Option<int64> {
    match Decimal.ScanInt(text)
    case None => None
    case Some((i, end)) =>
      if end == |text| && -0x8000_0000_0000_0000 <= i < 0x8000_0000_0000_0000 then Some(i) else None
  }

  function Number(s: Bytes): (r: Outcome<Value>)
    requires s != [] && IsNumberChar(s[0])
    ensures r.Parsed? ==> |r.rest| < |s|
  {
    var (text, rest) := NumberTail(s, []);
    match IntegerOf(text)
    case None => NonInteger
    case Some(i) => Parsed(Int(i), rest)
  }

  // ---- Values ----

  function Literal(s: Bytes, text: Bytes, v: Value): (r: Outcome<Value>)
    ensures r.Parsed? ==> |r.rest| <= |s|
  {
    if text <= s then Parsed(v, s[|text|..]) else Failed
  }

  /** A value, with `depth` the number of arrays that may still be opened. */
  function ParseValue(s: Bytes, depth: nat): (r: Outcome<Value>)
    ensures r.Parsed? ==> |r.rest| < |s|
    decreases |s|, 0
  {
    var t := SkipWhite(s);
    if t == [] then Failed
    else if t[0] == 'n' then Literal(t[1..], "ull", Null)
    else if t[0] == 'f' then Literal(t[1..], "alse", Bool(false))
    else if t[0] == 't' then Literal(t[1..], "rue", Bool(true))
    else if t[0] == '"' then
      match StringTail(t[1..], [])
      case None => Failed
      case Some((text, rest)) => Parsed(Str(text), rest)
    else if t[0] == '[' then ParseArray(t[1..], depth)
    else if t[0] == '{' then ParseObject(t[1..], depth)
    else if '0' <= t[0] <= '9' || t[0] == '-' then Number(t)
    else Failed
  }

  /** An array, read behind its bracket; opening it uses up depth. */
  function ParseArray(s: Bytes, depth: nat): (r: Outcome<Value>)
    ensures r.Parsed? ==> |r.rest| < |s|
    decreases |s|, 2
  {
    if depth == 0 then Failed
    else
      match Expect(s, ']')
      case Some(rest) => Parsed(Arr([]), rest)
      case None => ParseItems(SkipWhite(s), [], depth - 1)
  }

  function ParseItems(s: Bytes, done: seq<Value>, depth: nat): (r: Outcome<Value>)
    ensures r.Parsed? ==> |r.rest| < |s|
    decreases |s|, 1
  {
    match ParseValue(s, depth)
    case Failed => Failed
    case NonInteger => NonInteger
    case Parsed(v, t) =>
      match Expect(t, ',')
      case Some(u) => ParseItems(u, done + [v], depth)
      case None =>
        match Expect(t, ']')
        case Some(rest) => Parsed(Arr(done + [v]), rest)
        case None => Failed
  }

  /** An object, read behind its brace; it needs depth but uses none up. */
  function ParseObject(s: Bytes, depth: nat): (r: Outcome<Value>)
    ensures r.Parsed? ==> |r.rest| < |s|
    decreases |s|, 2
  {
    if depth == 0 then Failed
    else
      match Expect(s, '}')
      case Some(rest) => Parsed(Obj(map[]), rest)
      case None => ParseMembers(SkipWhite(s), map[], depth)
  }

  /** A key and its colon. */
  function ParseKey(s: Bytes): (r: Option<(Bytes, Bytes)>)
    ensures r.Some? ==> |r.value.1| < |s|
  {
    match Expect(s, '"')
    case None => None
    case Some(t) =>
      match StringTail(t, [])
      case None => None
      case Some((key, u)) =>
        match Expect(u, ':')
        case None => None
        case Some(v) => Some((key, v))
  }

  function ParseMembers(s: Bytes, done: Object, depth: nat): (r: Outcome<Value>)
    ensures r.Parsed? ==> |r.rest| < |s|
    decreases |s|, 1
  {
    match ParseKey(s)
    case None => Failed
    case Some((key, t)) =>
      match ParseValue(t, depth)
      case Failed => Failed
      case NonInteger => NonInteger
      case Parsed(v, u) =>
        match Expect(u, ',')
        case Some(w) => ParseMembers(w, done[key := v], depth)
        case None =>
          match Expect(u, '}')
          case Some(rest) => Parsed(Obj(done[key := v]), rest)
          case None => Failed
  }
}

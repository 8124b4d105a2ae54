/** picojson's parser as it runs: a cursor that reads one character ahead, and a context that builds the value. */
module JsonParser {
  import opened ByteStrings
  import opened Json
  import opened JsonGrammar
  import Utf8

  const EOF := -1

  function Newlines(s: Bytes): nat {
    if s == [] then 0 else Newlines(s[..|s| - 1]) + if s[|s| - 1] == '\n' then 1 else 0
  }

  /** `input`: when `consumed` is set, the character at `cur` has been read but `cur` has not moved past it yet. */
  class Input {
    const data: Bytes
    var cur: nat
    var consumed: bool
    var line: nat

    ghost predicate Valid()
      reads this
    {
      cur <= |data| && (consumed ==> cur < |data|)
    }

    /** The line counter counts the line breaks in front of `cur`. */
    ghost predicate LineIsRight()
      requires Valid()
      reads this
    {
      line == 1 + Newlines(data[..cur])
    }

    /** The position of a plain cursor: how many characters have been read. */
    function Pos(): nat
      reads this
    {
      if consumed then cur + 1 else cur
    }

    /** The text still to be read. */
    ghost function Rest(): Bytes
      requires Valid()
      reads this
    {
      data[Pos()..]
    }

    constructor (data: Bytes)
      ensures Valid() && LineIsRight()
      ensures this.data == data && Pos() == 0 && Rest() == data
    {
      this.data := data;
      cur, consumed, line := 0, false, 1;
      new;
      assert data[..0] == [];
    }

    method Getc() returns (ch: int)
      requires Valid()
      modifies this
      ensures Valid() && (old(LineIsRight()) ==> LineIsRight())
      ensures old(Rest()) == [] ==> ch == EOF && !consumed && Rest() == []
      ensures old(Rest()) != [] ==> ch == old(Rest()[0]) as int && consumed && Rest() == old(Rest()[1..])
      ensures old(Rest()) != [] ==> cur == old(Pos())
    {
      if consumed {
        assert data[..cur + 1][..cur] == data[..cur];
        if data[cur] == '\n' {
          line := line + 1;
        }
        cur := cur + 1;
      }
      if cur == |data| {
        consumed := false;
        return EOF;
      }
      consumed := true;
      ch := data[cur] as int;
    }

    /** Take back the last character read; without one, nothing happens. */
    method Ungetc()
      requires Valid()
      modifies this
      ensures Valid() && !consumed && cur == old(cur) && (old(LineIsRight()) ==> LineIsRight())
      ensures Rest() == if old(consumed) then [data[cur]] + old(Rest()) else old(Rest())
    {
      consumed := false;
    }

    method Cur() returns (r: nat)
      requires Valid()
      modifies this
      ensures Valid() && r == old(Pos()) && Rest() == old(Rest())
    {
      if consumed {
        consumed := false;
        cur := cur + 1;
      }
      r := cur;
    }

    method SkipWs()
      requires Valid()
      modifies this
      ensures Valid() && (old(LineIsRight()) ==> LineIsRight())
      ensures Rest() == SkipWhite(old(Rest())) && !consumed
    {
      var more := true;
      while more
        invariant Valid() && (old(LineIsRight()) ==> LineIsRight())
        invariant SkipWhite(Rest()) == SkipWhite(old(Rest()))
        invariant !more ==> Rest() == SkipWhite(Rest()) && !consumed
        decreases |Rest()|, more
      {
        ghost var before := Rest();
        var ch := Getc();
        if !(ch == ' ' as int || ch == '\t' as int || ch == '\n' as int || ch == '\r' as int) {
          Ungetc();
          more := false;
          assert Rest() == before;
        }
      }
    }

    method ExpectChar(expected: byte) returns (ok: bool)
      requires Valid()
      modifies this
      ensures Valid() && (old(LineIsRight()) ==> LineIsRight())
      ensures ok == Expect(old(Rest()), expected).Some?
      ensures Rest() == if ok then Expect(old(Rest()), expected).value else SkipWhite(old(Rest()))
    {
      SkipWs();
      ghost var before := Rest();
      var ch := Getc();
      if ch != expected as int {
        Ungetc();
        assert Rest() == before;
        return false;
      }
      return true;
    }

    method Match(pattern: Bytes) returns (ok: bool)
      requires Valid()
      modifies this
      ensures Valid() && (old(LineIsRight()) ==> LineIsRight())
      ensures ok == (pattern <= old(Rest()))
      ensures ok ==> Rest() == old(Rest())[|pattern|..]
      ensures |Rest()| <= |old(Rest())|
    {
      ghost var before := Rest();
      for i := 0 to |pattern|
        invariant Valid() && (old(LineIsRight()) ==> LineIsRight())
        invariant pattern[..i] <= before && Rest() == before[i..]
      {
        var ch := Getc();
        if ch != pattern[i] as int {
          Ungetc();
          return false;
        }
      }
      return true;
    }
  }

  // ---- Strings ----

  /** `_parse_quadhex`: four digits, or -1. */
  method ParseQuadHex(input: Input) returns (n: int)
    requires input.Valid()
    modifies input
    ensures input.Valid()
    ensures |input.Rest()| <= |old(input.Rest())|
    ensures match QuadHex(old(input.Rest()))
            case None => n == -1
            case Some((v, t)) => n == v && input.Rest() == t
  {
    ghost var s := input.Rest();
    var uniCh := 0;
    for i := 0 to 4
      invariant input.Valid()
      invariant StartsWithHex(s, i) && uniCh == HexNumber(s, i)
      invariant input.Rest() == s[i..]
    {
      var hex := input.Getc();
      if hex == EOF {
        return -1;
      }
      if '0' as int <= hex <= '9' as int {
        hex := hex - '0' as int;
      } else if 'A' as int <= hex <= 'F' as int {
        hex := hex - ('A' as int - 10);
      } else if 'a' as int <= hex <= 'f' as int {
        hex := hex - ('a' as int - 10);
      } else {
        input.Ungetc();
        return -1;
      }
      uniCh := uniCh * 16 + hex;
    }
    return uniCh;
  }

  /** The bytes of a code point, pushed one by one. */
  method PushUtf8(out: Bytes, uniCh: nat) returns (r: Bytes)
    requires uniCh <= 0x10ffff
    ensures r == out + Utf8.Encoded(uniCh)
  {
    r := out;
    if uniCh < 0x80 {
      r := r + [uniCh as char];
    } else {
      if uniCh < 0x800 {
        r := r + [(0xc0 + uniCh / 0x40) as char];
      } else {
        if uniCh < 0x10000 {
          r := r + [(0xe0 + uniCh / 0x1000) as char];
        } else {
          r := r + [(0xf0 + uniCh / 0x40000) as char];
          r := r + [Utf8.Continuation(uniCh / 0x1000)];
        }
        r := r + [Utf8.Continuation(uniCh / 0x40)];
      }
      r := r + [Utf8.Continuation(uniCh)];
    }
  }

  /** The second escape of a surrogate pair; -1 if there is none. */
  method ParseSecondHalf(input: Input, first: nat) returns (uniCh: int)
    requires input.Valid() && IsHighSurrogate(first)
    modifies input
    ensures input.Valid()
    ensures |input.Rest()| <= |old(input.Rest())|
    ensures match SecondHalf(old(input.Rest()), first)
            case None => uniCh == -1
            case Some((n, t)) => uniCh == n && input.Rest() == t
  {
    ghost var s := input.Rest();
    var escaped := input.Match("\\u");
    if !escaped {
      return -1;
    }
    var second := ParseQuadHex(input);
    if !(0xdc00 <= second <= 0xdfff) {
      return -1;
    }
    uniCh := (first - 0xd800) * 0x400 + (second - 0xdc00) % 0x400;
    uniCh := uniCh + 0x10000;
  }

  /** `_parse_codepoint`: on success `r` is `out` with the escape's bytes appended. */
  method ParseCodePoint(input: Input, out: Bytes) returns (ok: bool, r: Bytes)
    requires input.Valid()
    modifies input
    ensures input.Valid()
    ensures |input.Rest()| <= |old(input.Rest())|
    ensures match CodePoint(old(input.Rest()))
            case None => !ok
            case Some((n, t)) => ok && r == out + Utf8.Encoded(n) && input.Rest() == t
  {
    var uniCh := ParseQuadHex(input);
    if uniCh == -1 {
      return false, out;
    }
    if 0xd800 <= uniCh <= 0xdfff {
      if 0xdc00 <= uniCh {
        return false, out;
      }
      uniCh := ParseSecondHalf(input, uniCh);
      if uniCh == -1 {
        return false, out;
      }
    }
    r := PushUtf8(out, uniCh);
    ok := true;
  }

  /** `_parse_string`, behind the opening quote. */
  method ParseString(input: Input) returns (ok: bool, out: Bytes)
    requires input.Valid()
    modifies input
    ensures input.Valid()
    ensures |input.Rest()| <= |old(input.Rest())|
    ensures match StringTail(old(input.Rest()), [])
            case None => !ok
            case Some((text, t)) => ok && out == text && input.Rest() == t
  {
    out := [];
    while true
      invariant input.Valid() && |input.Rest()| <= |old(input.Rest())|
      invariant StringTail(input.Rest(), out) == StringTail(old(input.Rest()), [])
      decreases |input.Rest()|
    {
      ghost var s := input.Rest();
      var ch := input.Getc();
      if ch < ' ' as int {
        input.Ungetc();
        return false, out;
      } else if ch == '"' as int {
        return true, out;
      } else if ch == '\\' as int {
        ch := input.Getc();
        if ch == EOF {
          return false, out;
        }
        if ch == 'u' as int {
          assert s[1..][1..] == input.Rest();
          var good;
          good, out := ParseCodePoint(input, out);
          if !good {
            return false, out;
          }
        } else {
          match ShortEscape(ch as char) {
            case None => return false, out;
            case Some(c) => out := out + [c];
          }
        }
      } else {
        out := out + [ch as char];
      }
    }
  }

  /** `_parse_number`: the longest run of characters that occur in numbers. */
  method ParseNumber(input: Input) returns (numStr: Bytes)
    requires input.Valid()
    modifies input
    ensures input.Valid()
    ensures |input.Rest()| <= |old(input.Rest())|
    ensures (numStr, input.Rest()) == NumberTail(old(input.Rest()), [])
  {
    numStr := [];
    while true
      invariant input.Valid() && |input.Rest()| <= |old(input.Rest())|
      invariant NumberTail(input.Rest(), numStr) == NumberTail(old(input.Rest()), [])
      decreases |input.Rest()|
    {
      ghost var before := input.Rest();
      var ch := input.Getc();
      if ch != EOF && IsNumberChar(ch as char) {
        numStr := numStr + [ch as char];
      } else {
        input.Ungetc();
        assert input.Rest() == before;
        break;
      }
    }
  }

  // ---- Values ----

  /** The parser's answer; `Cut` where the model leaves a number to `strtod`. */
  datatype Status = Rejected | Cut | Accepted

  /** `default_parse_context`: where the value goes, and how many more arrays may be opened. */
  class Context {
    var out: Value
    var depths: nat

    constructor (depths: nat)
      ensures this.depths == depths
    {
      out := Null;
      this.depths := depths;
    }
  }

  /** What a parse left behind is what the grammar says. */
  ghost predicate Agrees(r: Outcome<Value>, status: Status, out: Value, rest: Bytes) {
    match r
    case Failed => status == Rejected
    case NonInteger => status == Cut
    case Parsed(v, t) => status == Accepted && out == v && rest == t
  }

  /** The integer branch of `_parse`. */
  method ParseInteger(ctx: Context, input: Input) returns (status: Status)
    requires input.Valid() && input.Rest() != [] && IsNumberChar(input.Rest()[0])
    modifies input, ctx
    ensures input.Valid() && ctx.depths == old(ctx.depths)
    ensures |input.Rest()| <= |old(input.Rest())|
    ensures Agrees(Number(old(input.Rest())), status, ctx.out, input.Rest())
  {
    var numStr := ParseNumber(input);
    match IntegerOf(numStr) {
      case None => status := Cut;
      case Some(i) =>
        ctx.out := Int(i);
        status := Accepted;
    }
  }

  method ParseLiteral(ctx: Context, input: Input, pattern: Bytes, v: Value) returns (status: Status)
    requires input.Valid()
    modifies input, ctx
    ensures input.Valid()
    ensures |input.Rest()| <= |old(input.Rest())|
    ensures Agrees(Literal(old(input.Rest()), pattern, v), status, ctx.out, input.Rest())
  {
    var ok := input.Match(pattern);
    if !ok {
      return Rejected;
    }
    ctx.out := v;
    status := Accepted;
  }

  /** `_parse`. */
  method Parse(ctx: Context, input: Input) returns (status: Status)
    requires input.Valid()
    modifies input, ctx
    ensures input.Valid()
    ensures |input.Rest()| <= |old(input.Rest())|
    ensures Agrees(ParseValue(old(input.Rest()), old(ctx.depths)), status, ctx.out, input.Rest())
    decreases |input.Rest()|, 0
  {
    input.SkipWs();
    ghost var t := input.Rest();
    var ch := input.Getc();
    if ch == 'n' as int {
      status := ParseLiteral(ctx, input, "ull", Null);
    } else if ch == 'f' as int {
      status := ParseLiteral(ctx, input, "alse", Bool(false));
    } else if ch == 't' as int {
      status := ParseLiteral(ctx, input, "rue", Bool(true));
    } else if ch == '"' as int {
      var ok, text := ParseString(input);
      if ok {
        ctx.out := Str(text);
        status := Accepted;
      } else {
        status := Rejected;
      }
    } else if ch == '[' as int {
      status := ParseArrayInto(ctx, input);
    } else if ch == '{' as int {
      status := ParseObjectInto(ctx, input);
    } else if '0' as int <= ch <= '9' as int || ch == '-' as int {
      input.Ungetc();
      assert input.Rest() == t;
      status := ParseInteger(ctx, input);
    } else {
      input.Ungetc();
      status := Rejected;
    }
  }

  /** `parse_array_item`: a context of its own for the element, with what is left of the depth. */
  method ParseArrayItem(ctx: Context, input: Input) returns (status: Status)
    requires input.Valid() && ctx.out.Arr?
    modifies input, ctx
    ensures input.Valid() && ctx.depths == old(ctx.depths)
    ensures |input.Rest()| <= |old(input.Rest())|
    ensures match ParseValue(old(input.Rest()), ctx.depths)
            case Failed => status == Rejected
            case NonInteger => status == Cut
            case Parsed(v, t) => status == Accepted && ctx.out == Arr(old(ctx.out.items) + [v]) && input.Rest() == t
    decreases |input.Rest()|, 1
  {
    var child := new Context(ctx.depths);
    status := Parse(child, input);
    if status == Accepted {
      ctx.out := Arr(ctx.out.items + [child.out]);
    }
  }

  /** `parse_object_item`: the same for the value of a member. */
  method ParseObjectItem(ctx: Context, input: Input, key: Bytes) returns (status: Status)
    requires input.Valid() && ctx.out.Obj?
    modifies input, ctx
    ensures input.Valid() && ctx.depths == old(ctx.depths)
    ensures |input.Rest()| <= |old(input.Rest())|
    ensures match ParseValue(old(input.Rest()), ctx.depths)
            case Failed => status == Rejected
            case NonInteger => status == Cut
            case Parsed(v, t) =>
              status == Accepted && ctx.out == Obj(old(ctx.out.members)[key := v]) && input.Rest() == t
    decreases |input.Rest()|, 1
  {
    var child := new Context(ctx.depths);
    status := Parse(child, input);
    if status == Accepted {
      ctx.out := Obj(ctx.out.members[key := child.out]);
    }
  }

  /** `_parse_array`, behind the bracket. */
  method ParseArrayInto(ctx: Context, input: Input) returns (status: Status)
    requires input.Valid()
    modifies input, ctx
    ensures input.Valid()
    ensures |input.Rest()| <= |old(input.Rest())|
    ensures Agrees(ParseArray(old(input.Rest()), old(ctx.depths)), status, ctx.out, input.Rest())
    ensures status == Accepted ==> ctx.depths == old(ctx.depths)
    decreases |input.Rest()|, 2
  {
    if ctx.depths == 0 {
      return Rejected;
    }
    ctx.depths := ctx.depths - 1;
    ctx.out := Arr([]);
    var empty := input.ExpectChar(']');
    if empty {
      ctx.depths := ctx.depths + 1;
      return Accepted;
    }
    var more := true;
    while more
      invariant input.Valid() && ctx.out.Arr? && ctx.depths == old(ctx.depths) - 1
      invariant |input.Rest()| <= |old(input.Rest())|
      invariant more ==>
        ParseItems(input.Rest(), ctx.out.items, ctx.depths) == ParseArray(old(input.Rest()), old(ctx.depths))
      invariant !more ==>
        ParseArray(old(input.Rest()), old(ctx.depths))
        == match Expect(input.Rest(), ']') case Some(rest) => Parsed(ctx.out, rest) case None => Failed
      decreases |input.Rest()|, more
    {
      status := ParseArrayItem(ctx, input);
      if status != Accepted {
        return;
      }
      SkipTwice(input.Rest());
      more := input.ExpectChar(',');
    }
    var closed := input.ExpectChar(']');
    if !closed {
      return Rejected;
    }
    ctx.depths := ctx.depths + 1;
    status := Accepted;
  }

  /** `_parse_object`, behind the brace; a key that occurs again overwrites its member. */
  method ParseObjectInto(ctx: Context, input: Input) returns (status: Status)
    requires input.Valid()
    modifies input, ctx
    ensures input.Valid()
    ensures |input.Rest()| <= |old(input.Rest())|
    ensures Agrees(ParseObject(old(input.Rest()), old(ctx.depths)), status, ctx.out, input.Rest())
    decreases |input.Rest()|, 2
  {
    if ctx.depths == 0 {
      return Rejected;
    }
    ctx.out := Obj(map[]);
    var empty := input.ExpectChar('}');
    if empty {
      ctx.depths := ctx.depths + 1;
      return Accepted;
    }
    var more := true;
    while more
      invariant input.Valid() && ctx.out.Obj? && ctx.depths == old(ctx.depths)
      invariant |input.Rest()| <= |old(input.Rest())|
      invariant more ==>
        ParseMembers(input.Rest(), ctx.out.members, ctx.depths) == ParseObject(old(input.Rest()), old(ctx.depths))
      invariant !more ==>
        ParseObject(old(input.Rest()), old(ctx.depths))
        == match Expect(input.Rest(), '}') case Some(rest) => Parsed(ctx.out, rest) case None => Failed
      decreases |input.Rest()|, more
    {
      var ok, key := ParseKeyOf(input);
      if !ok {
        return Rejected;
      }
      status := ParseObjectItem(ctx, input, key);
      if status != Accepted {
        return;
      }
      SkipTwice(input.Rest());
      more := input.ExpectChar(',');
    }
    var closed := input.ExpectChar('}');
    if !closed {
      return Rejected;
    }
    ctx.depths := ctx.depths + 1;
    status := Accepted;
  }

  /** The start of a member: `in.expect('"')`, the string, `in.expect(':')`. */
  method ParseKeyOf(input: Input) returns (ok: bool, key: Bytes)
    requires input.Valid()
    modifies input
    ensures input.Valid()
    ensures |input.Rest()| <= |old(input.Rest())|
    ensures match ParseKey(old(input.Rest()))
            case None => !ok
            case Some((k, t)) => ok && key == k && input.Rest() == t
  {
    key := [];
    ok := input.ExpectChar('"');
    if !ok {
      return;
    }
    ok, key := ParseString(input);
    if !ok {
      return;
    }
    ok := input.ExpectChar(':');
  }

  const DEFAULT_MAX_DEPTHS := 100

  /**
   * `picojson::parse`: the value, and where the parser stopped. Text behind the value is not looked at,
   * and `err` is empty exactly if the parser accepted.
   */
  method ParseText(text: Bytes) returns (status: Status, out: Value, end: nat)
    ensures end <= |text| && Agrees(ParseValue(text, 100), status, out, text[end..])
  {
    var input := new Input(text);
    var ctx := new Context(DEFAULT_MAX_DEPTHS);
    status := Parse(ctx, input);
    out := ctx.out;
    end := input.Cur();
  }
}

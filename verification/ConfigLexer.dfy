/** The tokenizer of the configuration file parser. */
module ConfigLexer {
  import opened ByteStrings

  datatype TokenType = Start | Normal | StartBlock | EndBlock | Comment | StatementEnd | Eof | Error

  datatype LexState = InitialWhitespace | InSingleQuote | InDoubleQuote | InComment | InNormal

  /** What ends a word, and what must follow a quoted one. */
  predicate IsDelimiter(c: char) {
    c == ' ' || c == '\t' || c == '\n' || c == ';' || c == '{' || c == '}'
  }

  /** White space between tokens; a carriage return is skipped here, but does not end a word. */
  predicate IsGap(c: char) {
    c == ' ' || c == '\t' || c == '\n' || c == '\r'
  }

  /** A token, its text, and what is left to read. */
  datatype Lexeme = Lexeme(kind: TokenType, text: string, rest: string)

  function QuoteOf(state: LexState): char {
    if state == InSingleQuote then '\'' else '"'
  }

  /** One token from `s`, read on in `state` with `text` collected so far. */
  function Lex(s: string, state: LexState, text: string): (r: Lexeme)
    ensures |r.rest| <= |s|
    ensures state == InitialWhitespace && r.kind != Eof && r.kind != Error ==> |r.rest| < |s|
  {
    if s == "" then
      Lexeme(if state == InSingleQuote || state == InDoubleQuote then Error else Eof, text, "")
    else
      var c, rest := s[0], s[1..];
      match state
      case InitialWhitespace => LexFirst(c, rest, text)
      case InComment =>
        if c == '\n' || c == '\r' then Lexeme(Comment, text, rest) else Lex(rest, InComment, text + [c])
      case InNormal =>
        if IsDelimiter(c) then Lexeme(Normal, text, s) else Lex(rest, InNormal, text + [c])
      case _ =>
        if c != QuoteOf(state) then Lex(rest, state, text + [c])
        else Lexeme(if rest != "" && IsDelimiter(rest[0]) then Normal else Error, text + [c], rest)
  }

  /** The first character of a token, or of the white space in front of it. */
  function LexFirst(c: char, rest: string, text: string): (r: Lexeme)
    ensures |r.rest| <= |rest|
    decreases rest
  {
    match c
    case '{' => Lexeme(StartBlock, [c], rest)
    case '}' => Lexeme(EndBlock, [c], rest)
    case ';' => Lexeme(StatementEnd, [c], rest)
    case '#' => Lex(rest, InComment, [c])
    case '"' => Lex(rest, InDoubleQuote, [c])
    case '\'' => Lex(rest, InSingleQuote, [c])
    case _ => if IsGap(c) then Lex(rest, InitialWhitespace, text) else Lex(rest, InNormal, text + [c])
  }

  /** A `std::istream` over a text: a read or a look past the end leaves it no longer good. */
  class Stream {
    const data: string
    var pos: nat
    var good: bool

    ghost predicate Valid()
      reads this
    {
      pos <= |data|
    }

    ghost function Rest(): string
      requires Valid()
      reads this
    {
      if good then data[pos..] else ""
    }

    constructor (data: string)
      ensures Valid() && this.data == data && Rest() == data
    {
      this.data := data;
      pos := 0;
      good := true;
    }

    method Get() returns (c: Option<char>)
      requires Valid() && good
      modifies this
      ensures Valid()
      ensures old(Rest()) == "" ==> c == None && !good
      ensures old(Rest()) != "" ==> c == Some(old(Rest())[0]) && good && pos > 0 && Rest() == old(Rest())[1..]
      ensures old(Rest()) != "" ==> data[pos - 1..] == old(Rest())
    {
      if pos == |data| {
        good := false;
        return None;
      }
      c := Some(data[pos]);
      pos := pos + 1;
    }

    method Peek() returns (c: Option<char>)
      requires Valid() && good
      modifies this
      ensures Valid() && Rest() == old(Rest())
      ensures c == if Rest() == "" then None else Some(Rest()[0])
    {
      if pos == |data| {
        good := false;
        return None;
      }
      c := Some(data[pos]);
    }

    method Unget()
      requires Valid() && good && pos > 0
      modifies this
      ensures Valid() && good && Rest() == data[old(pos) - 1..]
    {
      pos := pos - 1;
    }
  }

  method ParseToken(input: Stream) returns (kind: TokenType, value: string)
    requires input.Valid()
    modifies input
    ensures input.Valid()
    ensures Lexeme(kind, value, input.Rest()) == Lex(old(input.Rest()), InitialWhitespace, "")
  {
    var state := InitialWhitespace;
    value := "";
    while input.good
      invariant input.Valid()
      invariant Lex(input.Rest(), state, value) == Lex(old(input.Rest()), InitialWhitespace, "")
      decreases |input.Rest()|, input.good
    {
      var next := input.Get();
      if next.None? {
        break;
      }
      var c := next.value;
      match state {
        case InitialWhitespace =>
          match c {
            case '{' => return StartBlock, [c];
            case '}' => return EndBlock, [c];
            case ';' => return StatementEnd, [c];
            case '#' => value, state := [c], InComment;
            case '"' => value, state := [c], InDoubleQuote;
            case '\'' => value, state := [c], InSingleQuote;
            case _ =>
              if !(c == ' ' || c == '\t' || c == '\n' || c == '\r') {
                value, state := value + [c], InNormal;
              }
          }
        case InComment =>
          if c == '\n' || c == '\r' {
            return Comment, value;
          }
          value := value + [c];
        case InNormal =>
          if IsDelimiter(c) {
            input.Unget();
            return Normal, value;
          }
          value := value + [c];
        case _ =>
          value := value + [c];
          if c == QuoteOf(state) {
            var after := input.Peek();
            return (if after.Some? && IsDelimiter(after.value) then Normal else Error), value;
          }
      }
    }
    if state == InSingleQuote || state == InDoubleQuote {
      return Error, value;
    }
    return Eof, value;
  }
}

/** Configurations as trees, and the parser of token streams as a machine with a stack. */
module ConfigGrammar {
  import opened ByteStrings
  import opened ConfigLexer

  /** A statement: its words, and the block it opens, if it does. */
  datatype Statement = Statement(tokens: seq<string>, child: Child)

  datatype Child = NoBlock | Block(config: Config)

  type Config = seq<Statement>

  datatype Token = Word(text: string) | Semicolon | OpenBrace | CloseBrace

  // ---- The grammar ----

  /** `Config ::= Stmt+; Stmt ::= word+ (';' | '{' Config '}')`, as a property of trees. */
  predicate WellFormed(c: Config)
    decreases c, 1
  {
    c != [] && forall i :: 0 <= i < |c| ==> StatementWellFormed(c[i])
  }

  predicate StatementWellFormed(s: Statement)
    decreases s, 0
  {
    s.tokens != [] && (s.child.Block? ==> WellFormed(s.child.config))
  }

  function Words(tokens: seq<string>): (r: seq<Token>)
    ensures |r| == |tokens|
  {
    if tokens == [] then [] else [Word(tokens[0])] + Words(tokens[1..])
  }

  /** The tokens that the grammar derives a tree from. */
  function StatementTokens(s: Statement): seq<Token>
    decreases s, 0
  {
    Words(s.tokens) + ChildTokens(s.child)
  }

  function ChildTokens(child: Child): seq<Token>
    decreases child, 2
  {
    match child
    case NoBlock => [Semicolon]
    case Block(c) => [OpenBrace] + ConfigTokens(c) + [CloseBrace]
  }

  function ConfigTokens(c: Config): seq<Token>
    decreases c, 1
  {
    if c == [] then [] else StatementTokens(c[0]) + ConfigTokens(c[1..])
  }

  // ---- The machine ----

  /**
   * The stack of open blocks, the outermost first; a block is put into its statement when it is closed.
   * `Popped` is left when a surplus brace has taken the root itself off the stack.
   */
  datatype Stack = Open(frames: seq<Config>) | Popped(root: Config)

  datatype State = State(stack: Stack, last: TokenType)

  /** `Undefined`: the original uses the top of an empty stack. */
  datatype Outcome = Rejected | Undefined | Accepted(config: Config)

  datatype Step = Stop(outcome: Outcome) | Go(state: State)

  const INITIAL: State := State(Open([[]]), Start)

  function WithToken(s: Statement, text: string): Statement {
    s.(tokens := s.tokens + [text])
  }

  /** The frame with the block put into its last statement. */
  function WithBlock(frame: Config, block: Config): Config
    requires frame != []
  {
    Init(frame) + [Last(frame).(child := Block(block))]
  }

  /** The frames after the innermost block has been closed. */
  function Closed(frames: seq<Config>): (r: seq<Config>)
    requires |frames| > 1 && frames[|frames| - 2] != []
    ensures |r| == |frames| - 1 && Last(r) != []
    ensures forall i :: 0 <= i < |r| - 1 ==> r[i] == frames[i]
  {
    var below := Init(frames);
    Init(below) + [WithBlock(Last(below), Last(frames))]
  }

  function KindOf(t: Token): TokenType {
    match t
    case Word(_) => Normal
    case Semicolon => StatementEnd
    case OpenBrace => StartBlock
    case CloseBrace => EndBlock
  }

  predicate EndsStatement(last: TokenType) {
    last == StatementEnd || last == EndBlock
  }

  /** A stack on which the machine can go on: the frame of a statement that is still open is not empty. */
  predicate Usable(st: State) {
    && (st.stack.Open? ==> st.stack.frames != [])
    && (st.stack.Open? ==> forall i :: 0 <= i < |st.stack.frames| - 1 ==> st.stack.frames[i] != [])
    && (st.stack.Open? && st.last == Normal ==> Last(st.stack.frames) != [])
    && (st.stack.Popped? ==> st.last == EndBlock)
  }

  /** One round of the loop of `Parse`. */
  function Next(st: State, t: Token): (r: Step)
    requires Usable(st)
    ensures r.Go? ==> Usable(r.state) && r.state.last == KindOf(t)
    ensures r.Stop? ==> !r.outcome.Accepted?
  {
    match t
    case Word(text) =>
      if st.stack.Popped? then Stop(Undefined)
      else
        var top, below := Last(st.stack.frames), Init(st.stack.frames);
        if st.last != Normal then Go(State(Open(below + [top + [Statement([text], NoBlock)]]), Normal))
        else Go(State(Open(below + [Init(top) + [WithToken(Last(top), text)]]), Normal))
    case Semicolon =>
      if st.last != Normal then Stop(Rejected) else Go(State(st.stack, StatementEnd))
    case OpenBrace =>
      if st.last != Normal then Stop(Rejected) else Go(State(Open(st.stack.frames + [[]]), StartBlock))
    case CloseBrace =>
      if !EndsStatement(st.last) then Stop(Rejected)
      else if st.stack.Popped? then Stop(Undefined)
      else
        var frames := st.stack.frames;
        if |frames| == 1 then Go(State(Popped(frames[0]), EndBlock)) else Go(State(Open(Closed(frames)), EndBlock))
  }

  /** The tree at the end: blocks still open are part of it. */
  function Plugged(frames: seq<Config>): Config
    requires frames != [] && forall i :: 0 <= i < |frames| - 1 ==> frames[i] != []
    decreases |frames|
  {
    if |frames| == 1 then frames[0] else Plugged(Closed(frames))
  }

  /** End of file. */
  function Finish(st: State): Outcome
    requires Usable(st)
  {
    if !EndsStatement(st.last) then Rejected
    else match st.stack
      case Open(frames) => Accepted(Plugged(frames))
      case Popped(root) => Accepted(root)
  }

  /** Run the machine to the end of the tokens, which is the end of the file. */
  function Run(tokens: seq<Token>, st: State): Outcome
    requires Usable(st)
  {
    if tokens == [] then Finish(st)
    else
      match Next(st, tokens[0])
      case Stop(outcome) => outcome
      case Go(st') => Run(tokens[1..], st')
  }

  // ---- Text ----

  /** The token of a lexeme other than a comment, an error or the end of the file. */
  function TokenOf(kind: TokenType, text: string): Token {
    match kind
    case Normal => Word(text)
    case StatementEnd => Semicolon
    case StartBlock => OpenBrace
    case _ => CloseBrace
  }

  /** What `Parse` does with a lexeme: comments are skipped, errors and the end of the file end the loop. */
  function Round(kind: TokenType, text: string, st: State): (r: Step)
    requires Usable(st)
    ensures r.Go? ==> Usable(r.state) && kind != Eof && kind != Error
  {
    match kind
    case Error => Stop(Rejected)
    case Start => Stop(Rejected)
    case Eof => Stop(Finish(st))
    case Comment => Go(st)
    case _ => Next(st, TokenOf(kind, text))
  }

  /** `Parse`: the machine, fed with the lexemes of a text. */
  function ParseText(s: string, st: State): Outcome
    requires Usable(st)
    decreases |s|
  {
    var lexeme := Lex(s, InitialWhitespace, "");
    var round := Round(lexeme.kind, lexeme.text, st);
    if round.Stop? then round.outcome else ParseText(lexeme.rest, round.state)
  }

  /** All tokens of a text, up to its end or the first error. */
  datatype Tokens = Tokens(list: seq<Token>, clean: bool)

  function Tokenized(s: string): Tokens
    decreases |s|
  {
    var lexeme := Lex(s, InitialWhitespace, "");
    match lexeme.kind
    case Error => Tokens([], false)
    case Start => Tokens([], false)
    case Eof => Tokens([], true)
    case Comment => Tokenized(lexeme.rest)
    case _ =>
      var more := Tokenized(lexeme.rest);
      Tokens([TokenOf(lexeme.kind, lexeme.text)] + more.list, more.clean)
  }

  /** A text without lexical errors is parsed as its tokens are; with one, it is never accepted. */
  lemma {:induction false} ParseTextRunsTokens(s: string, st: State)
    requires Usable(st)
    ensures Tokenized(s).clean ==> ParseText(s, st) == Run(Tokenized(s).list, st)
    ensures !Tokenized(s).clean ==> !ParseText(s, st).Accepted?
    decreases |s|
  {
    var lexeme := Lex(s, InitialWhitespace, "");
    match lexeme.kind
    case Error =>
    case Start =>
    case Eof =>
    case Comment => ParseTextRunsTokens(lexeme.rest, st);
    case _ =>
      var t := TokenOf(lexeme.kind, lexeme.text);
      var more := Tokenized(lexeme.rest);
      assert ([t] + more.list)[1..] == more.list;
      match Next(st, t) {
        case Stop(outcome) =>
        case Go(st') => ParseTextRunsTokens(lexeme.rest, st');
      }
  }
}

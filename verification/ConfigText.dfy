/** The text a configuration is printed as, and what the parser makes of it. */
module ConfigText {
  import opened ConfigLexer
  import opened ConfigGrammar
  import opened ConfigLaws

  // ---- Printing ----

  function Indentation(depth: int): string {
    if depth <= 0 then "" else "  " + Indentation(depth - 1)
  }

  function WordsText(tokens: seq<string>): string {
    if tokens == [] then "" else if |tokens| == 1 then tokens[0] else tokens[0] + " " + WordsText(tokens[1..])
  }

  /** What `NginxConfigStatement::ToString` returns. */
  function StatementText(s: Statement, depth: int): string
    decreases s, 0
  {
    Indentation(depth) + WordsText(s.tokens) + ChildText(s.child, depth) + "\n"
  }

  function ChildText(child: Child, depth: int): string
    decreases child, 2
  {
    match child
    case NoBlock => ";"
    case Block(c) => " {\n" + Text(c, depth + 1) + Indentation(depth) + "}"
  }

  /** What `NginxConfig::ToString` returns. */
  function Text(c: Config, depth: int): string
    decreases c, 1
  {
    if c == [] then "" else StatementText(c[0], depth) + Text(c[1..], depth)
  }

  // ---- Words ----

  predicate IsPlainStart(c: char) {
    c != '{' && c != '}' && c != ';' && c != '#' && c != '"' && c != '\'' && !IsGap(c)
  }

  predicate NoDelimiter(s: string) {
    forall i :: 0 <= i < |s| ==> !IsDelimiter(s[i])
  }

  predicate Without(s: string, quote: char) {
    forall i :: 0 <= i < |s| ==> s[i] != quote
  }

  predicate Quoted(w: string, quote: char) {
    |w| >= 2 && w[0] == quote && w[|w| - 1] == quote && Without(w[1..|w| - 1], quote)
  }

  /** A plain word: no quote in front, and no delimiter inside. */
  predicate IsPlainWord(w: string) {
    w != "" && IsPlainStart(w[0]) && NoDelimiter(w[1..])
  }

  /** The words the tokenizer can return: plain, or quoted without the quote inside. */
  predicate LegalWord(w: string) {
    || IsPlainWord(w)
    || Quoted(w, '"')
    || Quoted(w, '\'')
  }

  lemma {:induction false} LexPlain(w: string, rest: string, done: string)
    requires NoDelimiter(w) && rest != "" && IsDelimiter(rest[0])
    ensures Lex(w + rest, InNormal, done) == Lexeme(Normal, done + w, rest)
  {
    if w == "" {
      assert w + rest == rest && done + w == done;
    } else {
      assert (w + rest)[1..] == w[1..] + rest;
      LexPlain(w[1..], rest, done + [w[0]]);
      assert done + [w[0]] + w[1..] == done + w;
    }
  }

  /** What the character behind a closing quote makes of the word. */
  function QuotedKind(rest: string): TokenType {
    if rest != "" && IsDelimiter(rest[0]) then Normal else Error
  }

  lemma {:induction false} LexQuoted(inside: string, rest: string, state: LexState, done: string)
    requires state == InSingleQuote || state == InDoubleQuote
    requires Without(inside, QuoteOf(state))
    ensures Lex(inside + [QuoteOf(state)] + rest, state, done)
         == Lexeme(QuotedKind(rest), done + inside + [QuoteOf(state)], rest)
  {
    var s := inside + [QuoteOf(state)] + rest;
    if inside == "" {
      assert s[1..] == rest && done + inside == done;
    } else {
      assert s[1..] == inside[1..] + [QuoteOf(state)] + rest;
      LexQuoted(inside[1..], rest, state, done + [inside[0]]);
      assert done + [inside[0]] + inside[1..] == done + inside;
    }
  }

  lemma LexQuotedWord(w: string, rest: string, state: LexState)
    requires state == InSingleQuote || state == InDoubleQuote
    requires Quoted(w, QuoteOf(state))
    ensures Lex(w[1..] + rest, state, [w[0]]) == Lexeme(QuotedKind(rest), w, rest)
  {
    var inside := w[1..|w| - 1];
    LexQuoted(inside, rest, state, [w[0]]);
    assert w[1..] == inside + [QuoteOf(state)];
    assert [w[0]] + inside + [QuoteOf(state)] == w;
  }

  lemma LexStart(w: string, rest: string)
    requires w != ""
    ensures Lex(w + rest, InitialWhitespace, "") == LexFirst(w[0], w[1..] + rest, "")
  {
    assert (w + rest)[1..] == w[1..] + rest && (w + rest)[0] == w[0];
  }

  /** A legal word in front of a delimiter is read as that word. */
  lemma LexWord(w: string, rest: string)
    requires LegalWord(w) && rest != "" && IsDelimiter(rest[0])
    ensures Lex(w + rest, InitialWhitespace, "") == Lexeme(Normal, w, rest)
  {
    hide Lex;
    LexStart(w, rest);
    if Quoted(w, '"') {
      LexQuotedWord(w, rest, InDoubleQuote);
    } else if Quoted(w, '\'') {
      LexQuotedWord(w, rest, InSingleQuote);
    } else {
      LexPlain(w[1..], rest, [w[0]]);
      assert "" + [w[0]] == [w[0]] && [w[0]] + w[1..] == w;
    }
  }

  lemma {:induction false} PlainIsLexed(s: string, done: string)
    requires Lex(s, InNormal, done).kind == Normal
    ensures exists w :: NoDelimiter(w) && Lex(s, InNormal, done).text == done + w
  {
    if IsDelimiter(s[0]) {
      assert done == done + "" && NoDelimiter("");
    } else {
      PlainIsLexed(s[1..], done + [s[0]]);
      var w :| NoDelimiter(w) && Lex(s[1..], InNormal, done + [s[0]]).text == done + [s[0]] + w;
      assert done + [s[0]] + w == done + ([s[0]] + w) && NoDelimiter([s[0]] + w);
    }
  }

  /** `text` is `done`, then some characters other than `quote`, then `quote`. */
  predicate ClosesQuote(text: string, done: string, quote: char) {
    |text| > |done| && text[..|done|] == done && text[|text| - 1] == quote
    && Without(text[|done|..|text| - 1], quote)
  }

  lemma ClosesQuoteLater(text: string, done: string, c: char, quote: char)
    requires c != quote && ClosesQuote(text, done + [c], quote)
    ensures ClosesQuote(text, done, quote)
  {
    var inside := text[|done|..|text| - 1];
    assert text[..|done|] == text[..|done| + 1][..|done|] == done;
    assert inside[0] == text[..|done| + 1][|done|] == c;
    assert inside[1..] == text[|done| + 1..|text| - 1];
  }

  lemma ClosesQuoteNow(done: string, quote: char)
    ensures ClosesQuote(done + [quote], done, quote)
  {
  }

  lemma {:induction false} QuotedIsLexed(s: string, state: LexState, done: string)
    requires state == InSingleQuote || state == InDoubleQuote
    requires Lex(s, state, done).kind == Normal
    ensures ClosesQuote(Lex(s, state, done).text, done, QuoteOf(state))
  {
    if s[0] == QuoteOf(state) {
      ClosesQuoteNow(done, QuoteOf(state));
    } else {
      QuotedIsLexed(s[1..], state, done + [s[0]]);
      ClosesQuoteLater(Lex(s, state, done).text, done, s[0], QuoteOf(state));
    }
  }

  lemma {:induction false} CommentIsNoWord(s: string, done: string)
    ensures Lex(s, InComment, done).kind != Normal
  {
    if s != "" && s[0] != '\n' && s[0] != '\r' {
      CommentIsNoWord(s[1..], done + [s[0]]);
    }
  }

  /** Every word the tokenizer returns is legal. */
  lemma {:induction false} LexedWordIsLegal(s: string)
    requires Lex(s, InitialWhitespace, "").kind == Normal
    ensures LegalWord(Lex(s, InitialWhitespace, "").text)
    decreases |s|
  {
    var c, rest := s[0], s[1..];
    var text := Lex(s, InitialWhitespace, "").text;
    if IsGap(c) {
      LexedWordIsLegal(rest);
    } else if c == '"' {
      QuotedIsLexed(rest, InDoubleQuote, [c]);
      assert text[..1] == [c];
    } else if c == '\'' {
      QuotedIsLexed(rest, InSingleQuote, [c]);
      assert text[..1] == [c];
    } else if c == '#' {
      CommentIsNoWord(rest, [c]);
    } else {
      assert "" + [c] == [c];
      PlainIsLexed(rest, [c]);
      var w :| NoDelimiter(w) && text == [c] + w;
      assert text[1..] == w;
    }
  }

  /** The words among the tokens are legal. */
  predicate LegalTokens(tokens: seq<Token>) {
    forall t :: t in tokens && t.Word? ==> LegalWord(t.text)
  }

  lemma {:induction false} TokenizedIsLegal(s: string)
    ensures LegalTokens(Tokenized(s).list)
    decreases |s|
  {
    var lexeme := Lex(s, InitialWhitespace, "");
    match lexeme.kind
    case Error =>
    case Start =>
    case Eof =>
    case Normal =>
      LexedWordIsLegal(s);
      TokenizedIsLegal(lexeme.rest);
    case _ => TokenizedIsLegal(lexeme.rest);
  }

  // ---- Printing, then tokenizing ----

  function Before(list: seq<Token>, more: Tokens): Tokens {
    Tokens(list + more.list, more.clean)
  }

  lemma BeforeBefore(x: seq<Token>, y: seq<Token>, more: Tokens)
    ensures Before(x, Before(y, more)) == Before(x + y, more)
    ensures Before([], more) == more
  {
    assert x + (y + more.list) == x + y + more.list;
  }

  lemma GapIsSkipped(c: char, s: string)
    requires IsGap(c)
    ensures Tokenized([c] + s) == Tokenized(s)
  {
    assert ([c] + s)[1..] == s && ([c] + s)[0] == c;
    assert Lex([c] + s, InitialWhitespace, "") == LexFirst(c, s, "") == Lex(s, InitialWhitespace, "");
  }

  lemma SignIsRead(t: Token, c: char, s: string)
    requires (t == Semicolon && c == ';') || (t == OpenBrace && c == '{') || (t == CloseBrace && c == '}')
    ensures Tokenized([c] + s) == Before([t], Tokenized(s))
  {
    assert ([c] + s)[1..] == s && ([c] + s)[0] == c;
    assert Lex([c] + s, InitialWhitespace, "") == LexFirst(c, s, "");
  }

  lemma WordIsRead(w: string, s: string)
    requires LegalWord(w) && s != "" && IsDelimiter(s[0])
    ensures Tokenized(w + s) == Before([Word(w)], Tokenized(s))
  {
    LexWord(w, s);
  }

  lemma {:induction false} IndentationIsSkipped(depth: int, s: string)
    ensures Tokenized(Indentation(depth) + s) == Tokenized(s)
    decreases depth
  {
    if depth <= 0 {
      assert Indentation(depth) + s == s;
    } else {
      var more := Indentation(depth - 1) + s;
      assert Indentation(depth) + s == [' '] + ([' '] + more);
      GapIsSkipped(' ', [' '] + more);
      GapIsSkipped(' ', more);
      IndentationIsSkipped(depth - 1, s);
    }
  }

  predicate LegalWords(words: seq<string>) {
    forall i :: 0 <= i < |words| ==> LegalWord(words[i])
  }

  lemma NextWordSplit(w: string, words: string, s: string)
    ensures w + " " + words + s == w + ([' '] + (words + s))
  {
  }

  lemma OneMoreWordIsRead(w: string, text: string, list: seq<Token>, s: string)
    requires LegalWord(w) && Tokenized(text + s) == Before(list, Tokenized(s))
    ensures Tokenized(w + " " + text + s) == Before([Word(w)] + list, Tokenized(s))
  {
    NextWordSplit(w, text, s);
    WordIsRead(w, [' '] + (text + s));
    GapIsSkipped(' ', text + s);
    BeforeBefore([Word(w)], list, Tokenized(s));
  }

  lemma {:induction false} WordsAreRead(words: seq<string>, s: string)
    requires LegalWords(words) && s != "" && IsDelimiter(s[0])
    ensures Tokenized(WordsText(words) + s) == Before(Words(words), Tokenized(s))
  {
    if words == [] {
      BeforeBefore([], [], Tokenized(s));
      assert "" + s == s;
    } else if |words| == 1 {
      WordIsRead(words[0], s);
      assert Words(words) == [Word(words[0])] + Words(words[1..]);
    } else {
      WordsAreRead(words[1..], s);
      OneMoreWordIsRead(words[0], WordsText(words[1..]), Words(words[1..]), s);
    }
  }

  lemma {:induction false} LegalTokensAreWords(words: seq<string>)
    ensures LegalTokens(Words(words)) <==> LegalWords(words)
  {
    if words != [] {
      LegalTokensAreWords(words[1..]);
      assert Words(words)[0] == Word(words[0]);
      assert forall t :: t in Words(words[1..]) ==> t in Words(words);
      assert LegalWords(words) <==> LegalWord(words[0]) && LegalWords(words[1..]);
    }
  }

  lemma StatementTextSplit(indentation: string, words: string, child: string, s: string)
    ensures indentation + words + child + "\n" + s == indentation + (words + (child + (['\n'] + s)))
  {
  }

  lemma BlockTextSplit(text: string, indentation: string, s: string)
    ensures " {\n" + text + indentation + "}" + s == [' '] + (['{'] + (['\n'] + (text + (indentation + (['}'] + s)))))
  {
  }

  lemma {:induction false} StatementIsRead(st: Statement, depth: int, s: string)
    requires LegalTokens(StatementTokens(st))
    ensures Tokenized(StatementText(st, depth) + s) == Before(StatementTokens(st), Tokenized(s))
    decreases st, 0
  {
    var tail := ChildText(st.child, depth) + (['\n'] + s);
    StatementTextSplit(Indentation(depth), WordsText(st.tokens), ChildText(st.child, depth), s);
    IndentationIsSkipped(depth, WordsText(st.tokens) + tail);
    assert forall t :: t in Words(st.tokens) || t in ChildTokens(st.child) ==> t in StatementTokens(st);
    LegalTokensAreWords(st.tokens);
    ChildIsRead(st.child, depth, ['\n'] + s);
    WordsAreRead(st.tokens, tail);
    GapIsSkipped('\n', s);
    BeforeBefore(Words(st.tokens), ChildTokens(st.child), Tokenized(s));
  }

  lemma {:induction false} ChildIsRead(child: Child, depth: int, s: string)
    requires LegalTokens(ChildTokens(child))
    ensures ChildText(child, depth) != "" && IsDelimiter(ChildText(child, depth)[0])
    ensures Tokenized(ChildText(child, depth) + s) == Before(ChildTokens(child), Tokenized(s))
    decreases child, 2
  {
    match child
    case NoBlock => SignIsRead(Semicolon, ';', s);
    case Block(c) =>
      var close := ['}'] + s;
      var block := Text(c, depth + 1) + (Indentation(depth) + close);
      BlockTextSplit(Text(c, depth + 1), Indentation(depth), s);
      BraceIsRead(block);
      assert forall t :: t in ConfigTokens(c) ==> t in ChildTokens(child);
      ConfigIsRead(c, depth + 1, Indentation(depth) + close);
      IndentationIsSkipped(depth, close);
      SignIsRead(CloseBrace, '}', s);
      BlockTokens(ConfigTokens(c), Tokenized(s));
  }

  lemma BraceIsRead(s: string)
    ensures Tokenized([' '] + (['{'] + (['\n'] + s))) == Before([OpenBrace], Tokenized(s))
  {
    GapIsSkipped(' ', ['{'] + (['\n'] + s));
    SignIsRead(OpenBrace, '{', ['\n'] + s);
    GapIsSkipped('\n', s);
  }

  lemma BlockTokens(x: seq<Token>, more: Tokens)
    ensures Before([OpenBrace], Before(x, Before([CloseBrace], more))) == Before([OpenBrace] + x + [CloseBrace], more)
  {
    assert [OpenBrace] + (x + ([CloseBrace] + more.list)) == [OpenBrace] + x + [CloseBrace] + more.list;
  }

  /** The text printed at any depth has exactly the tokens of the tree, if its words are legal. */
  lemma {:induction false} ConfigIsRead(c: Config, depth: int, s: string)
    requires LegalTokens(ConfigTokens(c))
    ensures Tokenized(Text(c, depth) + s) == Before(ConfigTokens(c), Tokenized(s))
    decreases c, 1
  {
    if c == [] {
      BeforeBefore([], [], Tokenized(s));
      assert "" + s == s;
    } else {
      var more := Text(c[1..], depth) + s;
      assert Text(c, depth) + s == StatementText(c[0], depth) + more;
      assert forall t :: t in StatementTokens(c[0]) || t in ConfigTokens(c[1..]) ==> t in ConfigTokens(c);
      StatementIsRead(c[0], depth, more);
      ConfigIsRead(c[1..], depth, s);
      BeforeBefore(StatementTokens(c[0]), ConfigTokens(c[1..]), Tokenized(s));
    }
  }

  // ---- The laws of texts ----

  /** What the parser accepts are well-formed trees with legal words. */
  lemma AcceptedTextIsLegal(s: string, c: Config)
    requires ParseText(s, INITIAL) == Accepted(c)
    ensures WellFormed(c) && LegalTokens(ConfigTokens(c))
  {
    ParseTextRunsTokens(s, INITIAL);
    TokenizedIsLegal(s);
    var list := Tokenized(s).list;
    AcceptedExactly(list, c);
    if k :| list + Closers(k) == ConfigTokens(c) {
      ClosersAreNoWords(k);
    } else {
      assert forall t :: t in ConfigTokens(c) ==> t in list;
    }
  }

  lemma {:induction false} ClosersAreNoWords(k: nat)
    ensures LegalTokens(Closers(k))
  {
    if k > 0 {
      ClosersAreNoWords(k - 1);
    }
  }

  /**
   * Printing at any depth and parsing gives a configuration back exactly if it and its blocks and statements are not
   * empty and its words are words the tokenizer can return.
   */
  lemma PrintParse(c: Config, depth: int)
    ensures ParseText(Text(c, depth), INITIAL) == Accepted(c) <==> WellFormed(c) && LegalTokens(ConfigTokens(c))
  {
    if ParseText(Text(c, depth), INITIAL) == Accepted(c) {
      AcceptedTextIsLegal(Text(c, depth), c);
    }
    if WellFormed(c) && LegalTokens(ConfigTokens(c)) {
      ConfigIsRead(c, depth, "");
      assert Text(c, depth) + "" == Text(c, depth);
      assert Tokenized("") == Tokens([], true);
      assert ConfigTokens(c) + [] == ConfigTokens(c);
      ParseTextRunsTokens(Text(c, depth), INITIAL);
      TreeIsBuilt(c);
    }
  }

  /** Whatever text is accepted: printing what was parsed, and parsing that, gives the same again. */
  lemma ParsePrintParse(s: string, depth: int)
    requires ParseText(s, INITIAL).Accepted?
    ensures ParseText(Text(ParseText(s, INITIAL).config, depth), INITIAL) == ParseText(s, INITIAL)
  {
    var c := ParseText(s, INITIAL).config;
    AcceptedTextIsLegal(s, c);
    PrintParse(c, depth);
  }
}

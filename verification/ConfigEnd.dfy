/** How the end of the file and carriage returns cut words. */
module ConfigEnd {
  import opened ByteStrings
  import opened ConfigLexer
  import opened ConfigGrammar
  import opened ConfigLaws
  import opened ConfigText

  // ---- The end of the file ----

  /** The lexeme at which a text ends: the end of the file with the text in front of it, or an error. */
  function LastLexeme(s: string): Lexeme
    decreases |s|
  {
    var lexeme := Lex(s, InitialWhitespace, "");
    match lexeme.kind
    case Eof => lexeme
    case Error => lexeme
    case _ => LastLexeme(lexeme.rest)
  }

  /** A line break at its end gives the text one more word. */
  ghost predicate LosesWord(s: string) {
    exists w :: Tokenized(s + "\n").list == Tokenized(s).list + [Word(w)]
  }

  /** What a line break makes of the text that the end of the file cut off. */
  function Completed(text: string): Lexeme {
    if text == "" then Lexeme(Eof, "", "")
    else if text[0] == '#' then Lexeme(Comment, text, "")
    else Lexeme(Normal, text, "\n")
  }

  /** The text collected so far shows what is being read. */
  predicate Collected(state: LexState, text: string) {
    match state
    case InitialWhitespace => text == ""
    case InComment => text != "" && text[0] == '#'
    case InNormal => text != "" && text[0] != '#'
    case _ => true
  }

  /** A line break at the end of a text is left over by its first lexeme, unless that is the last. */
  lemma {:induction false} LexWithLineBreak(s: string, state: LexState, text: string)
    requires Collected(state, text)
    ensures var lexeme := Lex(s, state, text);
      && (lexeme.kind != Eof && lexeme.kind != Error ==>
            Lex(s + "\n", state, text) == lexeme.(rest := lexeme.rest + "\n"))
      && (lexeme.kind == Eof ==> Lex(s + "\n", state, text) == Completed(lexeme.text))
    decreases |s|
  {
    if s == "" {
      assert s + "\n" == "\n" && "\n"[1..] == "";
    } else {
      var c, rest := s[0], s[1..];
      assert (s + "\n")[0] == c && (s + "\n")[1..] == rest + "\n";
      match state
      case InitialWhitespace =>
        if c == '#' {
          LexWithLineBreak(rest, InComment, [c]);
        } else if c == '"' {
          LexWithLineBreak(rest, InDoubleQuote, [c]);
        } else if c == '\'' {
          LexWithLineBreak(rest, InSingleQuote, [c]);
        } else if IsGap(c) {
          LexWithLineBreak(rest, InitialWhitespace, text);
        } else if IsPlainStart(c) {
          LexWithLineBreak(rest, InNormal, text + [c]);
        }
      case InComment =>
        if c != '\n' && c != '\r' {
          LexWithLineBreak(rest, InComment, text + [c]);
        }
      case InNormal =>
        if !IsDelimiter(c) {
          LexWithLineBreak(rest, InNormal, text + [c]);
        }
      case _ =>
        if c != QuoteOf(state) {
          LexWithLineBreak(rest, state, text + [c]);
        } else if rest != "" {
          assert (rest + "\n")[0] == rest[0];
        }
    }
  }

  predicate IsCutWord(text: string) {
    text != "" && text[0] != '#'
  }

  /** A line break at the end of a text adds the word that the end of the file cut off, if it cut off a word. */
  lemma {:induction false} TokenizedWithLineBreak(s: string)
    requires Tokenized(s).clean
    ensures LastLexeme(s).kind == Eof
    ensures var w := LastLexeme(s).text;
      Tokenized(s + "\n") == if IsCutWord(w) then Tokens(Tokenized(s).list + [Word(w)], true) else Tokenized(s)
    decreases |s|
  {
    LexWithLineBreak(s, InitialWhitespace, "");
    var lexeme := Lex(s, InitialWhitespace, "");
    if lexeme.kind == Eof {
      NothingIsRead();
      assert [] + [Word(lexeme.text)] == [Word(lexeme.text)] + [];
    } else {
      TokenizedWithLineBreak(lexeme.rest);
      if lexeme.kind != Comment {
        var t, more, w := TokenOf(lexeme.kind, lexeme.text), Tokenized(lexeme.rest), LastLexeme(s).text;
        assert [t] + (more.list + [Word(w)]) == [t] + more.list + [Word(w)];
      }
    }
  }

  /**
   * An accepted text loses a word if and only if the end of the file cuts off a text that is neither empty nor a
   * comment; it is those texts that are not accepted any more with a line break at their end.
   */
  lemma LosesWordExactly(s: string)
    requires ParseText(s, INITIAL).Accepted?
    ensures LosesWord(s) <==> LastLexeme(s).kind == Eof && IsCutWord(LastLexeme(s).text)
    ensures if LosesWord(s) then !ParseText(s + "\n", INITIAL).Accepted?
            else ParseText(s + "\n", INITIAL) == ParseText(s, INITIAL)
  {
    ParseTextRunsTokens(s, INITIAL);
    ParseTextRunsTokens(s + "\n", INITIAL);
    TokenizedWithLineBreak(s);
    var list, w := Tokenized(s).list, LastLexeme(s).text;
    if IsCutWord(w) {
      assert Tokenized(s + "\n").list == list + [Word(w)];
      EndsWithWord(list, w);
    } else {
      forall v ensures list != list + [Word(v)] {
        assert |list + [Word(v)]| == |list| + 1;
      }
    }
  }

  lemma EndsWithWord(list: seq<Token>, w: string)
    ensures !Run(list + [Word(w)], INITIAL).Accepted?
  {
    var tokens := list + [Word(w)];
    assert Last(tokens) == Word(w);
    var r := Run(tokens, INITIAL);
    if r.Accepted? {
      AcceptedExactly(tokens, r.config);
      assert false;
    }
  }

  lemma {:induction false} LexPlainEnd(w: string, done: string)
    requires NoDelimiter(w)
    ensures Lex(w, InNormal, done) == Lexeme(Eof, done + w, "")
  {
    if w == "" {
      assert done + w == done;
    } else {
      LexPlainEnd(w[1..], done + [w[0]]);
      assert done + [w[0]] + w[1..] == done + w;
    }
  }

  lemma PlainWordIsCut(w: string)
    requires IsPlainWord(w)
    ensures Tokenized(w) == Tokens([], true) && Tokenized(w + "\n") == Tokens([Word(w)], true)
  {
    hide Lex;
    LexPlainEnd(w[1..], [w[0]]);
    LexStart(w, "");
    assert "" + [w[0]] == [w[0]] && w[1..] + "" == w[1..] && w + "" == w;
    WordIsRead(w, "\n");
    NothingIsRead();
    assert [Word(w)] + [] == [Word(w)];
  }

  lemma NothingIsRead()
    ensures Tokenized("") == Tokens([], true) && Tokenized("\n") == Tokens([], true)
  {
    GapIsSkipped('\n', "");
    assert ['\n'] + "" == "\n";
  }

  /** Such texts: behind any printed configuration, a plain word without a delimiter is dropped. */
  lemma LastWordIsDropped(c: Config, depth: int, w: string)
    requires WellFormed(c) && LegalTokens(ConfigTokens(c)) && IsPlainWord(w)
    ensures ParseText(Text(c, depth) + w, INITIAL) == Accepted(c)
    ensures LosesWord(Text(c, depth) + w)
  {
    var s := Text(c, depth) + w;
    PlainWordIsCut(w);
    ConfigIsRead(c, depth, w);
    ConfigIsRead(c, depth, w + "\n");
    assert s + "\n" == Text(c, depth) + (w + "\n");
    assert ConfigTokens(c) + [] == ConfigTokens(c);
    assert Tokenized(s + "\n").list == Tokenized(s).list + [Word(w)];
    ParseTextRunsTokens(s, INITIAL);
    TreeIsBuilt(c);
  }

  // ---- Carriage returns ----

  /** A plain word at the end of a line that ends with a carriage return and a line break keeps the carriage return. */
  lemma CarriageReturnSticks(w: string, s: string)
    requires IsPlainWord(w)
    ensures Tokenized(w + "\r" + (['\n'] + s)) == Before([Word(w + "\r")], Tokenized(s))
  {
    assert (w + "\r")[1..] == w[1..] + "\r" && (w + "\r")[0] == w[0];
    WordIsRead(w + "\r", ['\n'] + s);
    GapIsSkipped('\n', s);
  }

  /** A quoted word in front of a carriage return is an error. */
  lemma CarriageReturnBreaksQuotes(w: string, s: string)
    requires Quoted(w, '"') || Quoted(w, '\'')
    ensures Tokenized(w + (['\r'] + s)) == Tokens([], false)
    ensures ParseText(w + (['\r'] + s), INITIAL) == Rejected
  {
    var rest := ['\r'] + s;
    var state := if Quoted(w, '"') then InDoubleQuote else InSingleQuote;
    LexQuotedWord(w, rest, state);
    assert (w + rest)[0] == w[0] && (w + rest)[1..] == w[1..] + rest;
    assert Lex(w + rest, InitialWhitespace, "") == Lexeme(Error, w, rest);
  }
}

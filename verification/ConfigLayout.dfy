/** Which characters separate and make up the tokens of a configuration file, spelled out. */
module ConfigLayout {
  import opened ByteStrings
  import opened ConfigLexer
  import opened ConfigGrammar
  import opened ConfigText
  import opened ConfigEnd

  // ---- Single characters ----

  /** Blanks, tabs, line breaks and carriage returns in front of a token are skipped. */
  lemma WhiteSpaceIsSkipped(s: string)
    ensures Tokenized([' '] + s) == Tokenized(s)
    ensures Tokenized(['\t'] + s) == Tokenized(s)
    ensures Tokenized(['\n'] + s) == Tokenized(s)
    ensures Tokenized(['\r'] + s) == Tokenized(s)
  {
    GapIsSkipped(' ', s);
    GapIsSkipped('\t', s);
    GapIsSkipped('\n', s);
    GapIsSkipped('\r', s);
  }

  /** A word ends in front of a blank, a tab, a line break, a semicolon or a brace. */
  lemma WordEnds(w: string, c: char, s: string)
    requires LegalWord(w) && c in " \t\n;{}"
    ensures Tokenized(w + ([c] + s)) == Before([Word(w)], Tokenized([c] + s))
  {
    assert ([c] + s)[0] == c;
    WordIsRead(w, [c] + s);
  }

  /** The characters of plain words. */
  lemma PlainWordLiterally(w: string)
    ensures IsPlainWord(w)
       <==> && w != "" && w[0] !in " \t\n\r;{}#\"'"
            && forall i :: 1 <= i < |w| ==> w[i] !in " \t\n;{}"
  {
    assert forall i :: 1 <= i < |w| ==> w[i] == w[1..][i - 1];
  }

  /** The characters of quoted words. */
  lemma QuotedWordLiterally(w: string, quote: char)
    ensures Quoted(w, quote)
       <==> && |w| >= 2 && w[0] == quote && w[|w| - 1] == quote
            && forall i :: 1 <= i < |w| - 1 ==> w[i] != quote
  {
    assert |w| >= 2 ==> forall i :: 1 <= i < |w| - 1 ==> w[i] == w[1..|w| - 1][i - 1];
  }

  predicate HasNone(s: string, stops: string) {
    forall i :: 0 <= i < |s| ==> s[i] !in stops
  }

  lemma {:induction false} LexComment(text: string, rest: string, done: string)
    requires HasNone(text, "\n\r") && (rest == "" || rest[0] in "\n\r")
    ensures Lex(text + rest, InComment, done)
         == if rest == "" then Lexeme(Eof, done + text, "") else Lexeme(Comment, done + text, rest[1..])
  {
    if text == "" {
      assert text + rest == rest && done + text == done;
    } else {
      assert (text + rest)[1..] == text[1..] + rest;
      LexComment(text[1..], rest, done + [text[0]]);
      assert done + [text[0]] + text[1..] == done + text;
    }
  }

  lemma LexHash(text: string)
    ensures Lex("#" + text, InitialWhitespace, "") == Lex(text, InComment, "#")
  {
    assert ("#" + text)[1..] == text;
  }

  /** A comment goes from its number sign to the end of the line, or of the file. */
  lemma CommentIsSkipped(text: string, end: char, s: string)
    requires HasNone(text, "\n\r") && end in "\n\r"
    ensures Tokenized("#" + (text + ([end] + s))) == Tokenized(s)
    ensures Tokenized("#" + text) == Tokens([], true)
  {
    hide Lex;
    LexHash(text + ([end] + s));
    LexComment(text, [end] + s, "#");
    assert ([end] + s)[1..] == s;
    LexHash(text);
    LexComment(text, "", "#");
    assert text + "" == text;
  }

  /** A quoted word must be followed by a blank, a tab, a line break, a semicolon or a brace. */
  lemma QuoteNeedsDelimiter(w: string, s: string)
    requires (Quoted(w, '"') || Quoted(w, '\'')) && (s == "" || s[0] !in " \t\n;{}")
    ensures Tokenized(w + s) == Tokens([], false)
  {
    hide Lex;
    LexStart(w, s);
    LexQuotedWord(w, s, if w[0] == '"' then InDoubleQuote else InSingleQuote);
  }

  lemma {:induction false} LexOpenQuote(text: string, state: LexState, done: string)
    requires state == InSingleQuote || state == InDoubleQuote
    requires Without(text, QuoteOf(state))
    ensures Lex(text, state, done).kind == Error
  {
    if text != "" {
      LexOpenQuote(text[1..], state, done + [text[0]]);
    }
  }

  /** A quote that is never closed is an error. */
  lemma QuoteMustClose(quote: char, text: string)
    requires quote in "\"'" && Without(text, quote)
    ensures Tokenized([quote] + text) == Tokens([], false)
  {
    hide Lex;
    LexOpenQuote(text, if quote == '"' then InDoubleQuote else InSingleQuote, [quote]);
    LexStart([quote], text);
    assert [quote][1..] + text == text;
  }

  // ---- Layouts ----

  datatype Piece = Gap(c: char) | Note(text: string, end: char) | Sign(c: char) | Name(w: string)

  predicate IsPiece(p: Piece) {
    match p
    case Gap(c) => c in " \t\n\r"
    case Note(text, end) => HasNone(text, "\n\r") && end in "\n\r"
    case Sign(c) => c in ";{}"
    case Name(w) => LegalWord(w)
  }

  /** What must be behind a word. */
  predicate IsSeparator(p: Piece) {
    p.Sign? || (p.Gap? && p.c in " \t\n")
  }

  /** Pieces one behind the other, each word with a delimiter behind it. */
  predicate IsLayout(pieces: seq<Piece>) {
    && (forall i :: 0 <= i < |pieces| ==> IsPiece(pieces[i]))
    && (forall i :: 0 <= i < |pieces| && pieces[i].Name? ==> i + 1 < |pieces| && IsSeparator(pieces[i + 1]))
  }

  function Spelled(p: Piece): string {
    match p
    case Gap(c) => [c]
    case Note(text, end) => "#" + text + [end]
    case Sign(c) => [c]
    case Name(w) => w
  }

  function Laid(pieces: seq<Piece>): string {
    if pieces == [] then "" else Spelled(pieces[0]) + Laid(pieces[1..])
  }

  /** The token of a piece, if it has one. */
  function TokensOf(p: Piece): seq<Token> {
    match p
    case Gap(_) => []
    case Note(_, _) => []
    case Sign(c) => [if c == ';' then Semicolon else if c == '{' then OpenBrace else CloseBrace]
    case Name(w) => [Word(w)]
  }

  function Meant(pieces: seq<Piece>): seq<Token> {
    if pieces == [] then [] else TokensOf(pieces[0]) + Meant(pieces[1..])
  }

  /** What the end of the file may cut off: nothing, a plain word, or a comment. */
  predicate IsCut(tail: string) {
    tail == "" || IsPlainWord(tail) || (tail[0] == '#' && HasNone(tail[1..], "\n\r"))
  }

  lemma CutIsNothing(tail: string)
    requires IsCut(tail)
    ensures Tokenized(tail) == Tokens([], true)
  {
    if tail == "" {
      NothingIsRead();
    } else if tail[0] == '#' {
      CommentIsSkipped(tail[1..], '\n', "");
      assert tail == "#" + tail[1..];
    } else {
      PlainWordIsCut(tail);
    }
  }

  lemma LayoutRest(pieces: seq<Piece>)
    requires IsLayout(pieces) && pieces != []
    ensures IsLayout(pieces[1..])
  {
    var rest := pieces[1..];
    forall i | 0 <= i < |rest|
      ensures IsPiece(rest[i]) && (rest[i].Name? ==> i + 1 < |rest| && IsSeparator(rest[i + 1]))
    {
      assert rest[i] == pieces[i + 1];
      assert i + 1 < |rest| ==> rest[i + 1] == pieces[i + 2];
    }
  }

  /** One piece in front of a text. */
  lemma PieceIsRead(p: Piece, s: string)
    requires IsPiece(p) && (p.Name? ==> s != "" && s[0] in " \t\n;{}")
    ensures Tokenized(Spelled(p) + s) == Before(TokensOf(p), Tokenized(s))
  {
    hide Tokenized, LegalWord;
    BeforeBefore([], [], Tokenized(s));
    match p
    case Gap(c) => GapIsSkipped(c, s);
    case Note(text, end) =>
      CommentIsSkipped(text, end, s);
      assert "#" + text + [end] + s == "#" + (text + ([end] + s));
    case Sign(c) => SignIsRead(TokensOf(p)[0], c, s);
    case Name(w) => WordIsRead(w, s);
  }

  /**
   * Any layout has exactly the tokens of its words and signs, wherever blanks, tabs, line breaks, carriage returns and
   * comments stand, and whatever the end of the file cuts off behind it.
   */
  lemma {:induction false} LayoutIsRead(pieces: seq<Piece>, tail: string)
    requires IsLayout(pieces) && IsCut(tail)
    ensures Tokenized(Laid(pieces) + tail) == Tokens(Meant(pieces), true)
  {
    hide Tokenized, IsPiece, IsCut;
    if pieces == [] {
      CutIsNothing(tail);
      assert "" + tail == tail;
    } else {
      var p, rest := pieces[0], Laid(pieces[1..]) + tail;
      LayoutRest(pieces);
      LayoutIsRead(pieces[1..], tail);
      SeparatorIsSeen(pieces, tail);
      PieceIsRead(p, rest);
      assert Spelled(p) + Laid(pieces[1..]) + tail == Spelled(p) + rest;
    }
  }

  lemma SeparatorIsSeen(pieces: seq<Piece>, tail: string)
    requires IsLayout(pieces) && pieces != []
    ensures IsPiece(pieces[0])
    ensures pieces[0].Name? ==> var s := Laid(pieces[1..]) + tail; s != "" && s[0] in " \t\n;{}"
  {
    if pieces[0].Name? {
      assert IsSeparator(pieces[0 + 1]) && pieces[1..][0] == pieces[1] && IsPiece(pieces[1]);
      assert |Spelled(pieces[1])| == 1;
    }
  }

  // ---- Every text without errors is laid out like that ----

  /** Where the first of some characters stands, or the length. */
  function Until(s: string, stops: string): (k: nat)
    ensures k <= |s| && HasNone(s[..k], stops) && (k < |s| ==> s[k] in stops)
  {
    if s == "" || s[0] in stops then 0
    else
      var k := Until(s[1..], stops);
      assert forall i :: 0 <= i < k ==> s[1..][..k][i] == s[..k + 1][i + 1];
      1 + k
  }

  lemma MoreLaid(p: Piece, pieces: seq<Piece>, tail: string)
    requires IsPiece(p) && IsLayout(pieces)
    requires p.Name? ==> pieces != [] && IsSeparator(pieces[0])
    ensures IsLayout([p] + pieces) && ([p] + pieces)[0] == p
    ensures Laid([p] + pieces) + tail == Spelled(p) + (Laid(pieces) + tail)
  {
    hide IsPiece, IsSeparator, Spelled;
    var all := [p] + pieces;
    assert all[1..] == pieces;
    forall i | 0 <= i < |all|
      ensures IsPiece(all[i]) && (all[i].Name? ==> i + 1 < |all| && IsSeparator(all[i + 1]))
    {
      if i > 0 {
        assert all[i] == pieces[i - 1];
        assert i < |pieces| ==> all[i + 1] == pieces[i];
      }
    }
  }

  /** The piece that a delimiter is by itself. */
  function Delimiter(d: char): Piece {
    if d in ";{}" then Sign(d) else Gap(d)
  }

  /** A text that starts with a delimiter and is laid out, with a word in front. */
  lemma WordInFront(w: string, d: char, pieces: seq<Piece>, tail: string) returns (longer: seq<Piece>)
    requires LegalWord(w) && d in " \t\n;{}" && IsLayout(pieces)
    ensures IsLayout(longer) && Laid(longer) + tail == w + ([d] + (Laid(pieces) + tail))
  {
    hide LegalWord, Laid;
    MoreLaid(Delimiter(d), pieces, tail);
    MoreLaid(Name(w), [Delimiter(d)] + pieces, tail);
    longer := [Name(w)] + ([Delimiter(d)] + pieces);
  }

  lemma DelimiterIsClean(d: char, s: string)
    requires d in " \t\n\r;{}"
    ensures Tokenized([d] + s).clean == Tokenized(s).clean
  {
    PieceIsRead(Delimiter(d), s);
  }

  /** What a clean text starts with: a piece without words, a word and a delimiter, or what is cut off at its end. */
  datatype Start = One(p: Piece) | WordAnd(w: string, d: char) | Cut

  predicate StartsAs(s: string, start: Start, rest: string) {
    match start
    case One(p) => IsPiece(p) && !p.Name? && s == Spelled(p) + rest
    case WordAnd(w, d) => LegalWord(w) && d in " \t\n;{}" && s == w + ([d] + rest)
    case Cut => IsCut(s)
  }

  lemma HashStart(s: string) returns (start: Start, rest: string)
    requires s != "" && s[0] == '#'
    ensures StartsAs(s, start, rest)
  {
    var k := Until(s[1..], "\n\r");
    if k == |s[1..]| {
      assert s[1..][..k] == s[1..];
      return Cut, "";
    }
    var text, end := s[1..][..k], s[1..][k];
    rest := s[k + 2..];
    start := One(Note(text, end));
    assert s == "#" + text + [end] + rest;
  }

  lemma PlainStart(s: string) returns (start: Start, rest: string)
    requires s != "" && s[0] !in " \t\n\r;{}#\"'"
    ensures StartsAs(s, start, rest)
  {
    var k := Until(s[1..], " \t\n;{}");
    var w := s[..k + 1];
    assert w[0] == s[0];
    forall i | 1 <= i < |w| ensures w[i] !in " \t\n;{}" {
      assert w[i] == s[1..][..k][i - 1];
    }
    PlainWordLiterally(w);
    if k == |s[1..]| {
      assert w == s;
      return Cut, "";
    }
    rest := s[k + 2..];
    start := WordAnd(w, s[k + 1]);
    assert s == w + ([s[k + 1]] + rest);
  }

  lemma QuoteStart(s: string) returns (start: Start, rest: string)
    requires Tokenized(s).clean && s != "" && s[0] in "\"'"
    ensures StartsAs(s, start, rest)
  {
    hide Tokenized, IsPlainWord;
    var quote := s[0];
    var k := Until(s[1..], [quote]);
    if k == |s[1..]| {
      assert s[1..][..k] == s[1..] && s == [quote] + s[1..];
      QuoteMustClose(quote, s[1..]);
      assert false;
    }
    var w, after := s[..k + 2], s[k + 2..];
    assert s == w + after;
    assert w[0] == quote && w[|w| - 1] == s[1..][k] && |w| == k + 2;
    forall i | 1 <= i < |w| - 1 ensures w[i] != quote {
      assert w[i] == s[1..][..k][i - 1];
    }
    QuotedWordLiterally(w, quote);
    if after == "" || after[0] !in " \t\n;{}" {
      QuoteNeedsDelimiter(w, after);
      assert false;
    }
    rest := after[1..];
    start := WordAnd(w, after[0]);
    assert after == [after[0]] + rest;
  }

  lemma CleanStart(s: string) returns (start: Start, rest: string)
    requires Tokenized(s).clean
    ensures StartsAs(s, start, rest) && (s == "" ==> start.Cut?)
  {
    hide Tokenized;
    if s == "" {
      return Cut, "";
    }
    var c := s[0];
    assert s == [c] + s[1..];
    if c in " \t\n\r" {
      return One(Gap(c)), s[1..];
    }
    if c in ";{}" {
      return One(Sign(c)), s[1..];
    }
    if c == '#' {
      start, rest := HashStart(s);
    } else if c in "\"'" {
      start, rest := QuoteStart(s);
    } else {
      start, rest := PlainStart(s);
    }
  }

  /** Every text without errors is laid out, up to what the end of the file cuts off. */
  lemma {:induction false} TextIsLaidOut(s: string) returns (pieces: seq<Piece>, tail: string)
    requires Tokenized(s).clean
    ensures s == Laid(pieces) + tail && IsLayout(pieces) && IsCut(tail)
    decreases |s|
  {
    hide Tokenized, IsCut, IsPiece, LegalWord;
    var start, rest := CleanStart(s);
    match start {
      case Cut =>
        pieces, tail := [], s;
        assert "" + tail == s;
      case One(p) =>
        PieceIsRead(p, rest);
        pieces, tail := TextIsLaidOut(rest);
        MoreLaid(p, pieces, tail);
        pieces := [p] + pieces;
      case WordAnd(w, d) =>
        WordEnds(w, d, rest);
        DelimiterIsClean(d, rest);
        pieces, tail := TextIsLaidOut(rest);
        pieces := WordInFront(w, d, pieces, tail);
    }
  }

  ghost predicate IsSpelling(s: string, list: seq<Token>, pieces: seq<Piece>, tail: string) {
    s == Laid(pieces) + tail && IsLayout(pieces) && IsCut(tail) && Meant(pieces) == list
  }

  /** The texts with given tokens and no errors are exactly the layouts of these tokens, with something cut off. */
  lemma TokenizedExactly(s: string, list: seq<Token>)
    ensures Tokenized(s) == Tokens(list, true) <==> exists pieces, tail :: IsSpelling(s, list, pieces, tail)
  {
    hide Tokenized, IsLayout, IsCut, Laid, Meant;
    if Tokenized(s) == Tokens(list, true) {
      var pieces, tail := TextIsLaidOut(s);
      LayoutIsRead(pieces, tail);
      assert IsSpelling(s, list, pieces, tail);
    }
    forall pieces, tail | IsSpelling(s, list, pieces, tail) ensures Tokenized(s) == Tokens(list, true) {
      LayoutIsRead(pieces, tail);
    }
  }
}

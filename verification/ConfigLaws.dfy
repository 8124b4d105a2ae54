/** The stack machine accepts what the grammar derives, and builds the tree it derives it from. */
module ConfigLaws {
  import opened ByteStrings
  import opened ConfigLexer
  import opened ConfigGrammar

  // ---- Tokens of longer trees ----

  lemma {:induction false} WordsAppend(tokens: seq<string>, text: string)
    ensures Words(tokens + [text]) == Words(tokens) + [Word(text)]
  {
    if tokens != [] {
      WordsAppend(tokens[1..], text);
      assert (tokens + [text])[1..] == tokens[1..] + [text];
    }
  }

  lemma {:induction false} ConfigTokensAppend(c: Config, s: Statement)
    ensures ConfigTokens(c + [s]) == ConfigTokens(c) + StatementTokens(s)
  {
    hide StatementTokens;
    if c == [] {
      assert c + [s] == [s] && [s][1..] == [];
    } else {
      ConfigTokensAppend(c[1..], s);
      assert (c + [s])[1..] == c[1..] + [s];
    }
  }

  lemma ConfigTokensSplit(c: Config)
    requires c != []
    ensures ConfigTokens(c) == ConfigTokens(Init(c)) + StatementTokens(Last(c))
  {
    ConfigTokensAppend(Init(c), Last(c));
    assert c == Init(c) + [Last(c)];
  }

  // ---- What a state has read ----

  predicate AllWellFormed(c: Config) {
    forall i :: 0 <= i < |c| ==> StatementWellFormed(c[i])
  }

  /** A frame whose last statement has words and is waiting for more, a semicolon or a block. */
  predicate FrameOpen(f: Config) {
    f != [] && AllWellFormed(Init(f)) && Last(f).tokens != [] && Last(f).child == NoBlock
  }

  /** What every reachable state satisfies; in it the stack is the non-empty path from the root to the open block. */
  predicate Sound(st: State) {
    match st.stack
    case Popped(root) => WellFormed(root) && st.last == EndBlock
    case Open(frames) =>
      && frames != []
      && (forall i :: 0 <= i < |frames| - 1 ==> FrameOpen(frames[i]))
      && match st.last
         case Start => frames == [[]]
         case StartBlock => Last(frames) == [] && |frames| > 1
         case Normal => FrameOpen(Last(frames))
         case StatementEnd => WellFormed(Last(frames))
         case EndBlock => WellFormed(Last(frames))
         case _ => false
  }

  lemma SoundIsUsable(st: State)
    requires Sound(st)
    ensures Usable(st)
  {
  }

  /** The tokens of a frame up to and including the words of its last statement. */
  function OpenTokens(f: Config): seq<Token>
    requires f != []
  {
    ConfigTokens(Init(f)) + Words(Last(f).tokens)
  }

  function BelowTokens(frames: seq<Config>): seq<Token>
    requires forall i :: 0 <= i < |frames| ==> frames[i] != []
    decreases |frames|
  {
    if frames == [] then [] else BelowTokens(Init(frames)) + OpenTokens(Last(frames)) + [OpenBrace]
  }

  function TopTokens(f: Config, last: TokenType): seq<Token>
    requires last == Normal ==> f != []
  {
    if last == Normal then OpenTokens(f) else ConfigTokens(f)
  }

  /** The tokens that lead from the start to a state. */
  function Transcript(st: State): seq<Token>
    requires Sound(st)
  {
    match st.stack
    case Popped(root) => ConfigTokens(root) + [CloseBrace]
    case Open(frames) => BelowTokens(Init(frames)) + TopTokens(Last(frames), st.last)
  }

  lemma FrameGrows(top: Config, text: string)
    ensures OpenTokens(top + [Statement([text], NoBlock)]) == ConfigTokens(top) + [Word(text)]
  {
    var f := top + [Statement([text], NoBlock)];
    assert Init(f) == top;
    assert Words([text]) == [Word(text)] + Words([text][1..]);
  }

  lemma StatementGrows(top: Config, text: string)
    requires top != []
    ensures OpenTokens(Init(top) + [WithToken(Last(top), text)]) == OpenTokens(top) + [Word(text)]
  {
    var f := Init(top) + [WithToken(Last(top), text)];
    assert Init(f) == Init(top);
    WordsAppend(Last(top).tokens, text);
  }

  lemma StatementEnds(top: Config)
    requires FrameOpen(top)
    ensures ConfigTokens(top) == OpenTokens(top) + [Semicolon]
    ensures WellFormed(top)
  {
    ConfigTokensSplit(top);
    assert forall i :: 0 <= i < |top| - 1 ==> top[i] == Init(top)[i];
  }

  lemma BlockEnds(parent: Config, block: Config)
    requires FrameOpen(parent) && WellFormed(block)
    ensures ConfigTokens(WithBlock(parent, block))
         == OpenTokens(parent) + ([OpenBrace] + ConfigTokens(block) + [CloseBrace])
    ensures WellFormed(WithBlock(parent, block))
  {
    var f := WithBlock(parent, block);
    ConfigTokensSplit(f);
    assert Init(f) == Init(parent);
    assert forall i :: 0 <= i < |f| - 1 ==> f[i] == Init(parent)[i];
  }

  lemma AppendedFrame(below: seq<Config>, top: Config)
    ensures Init(below + [top]) == below && Last(below + [top]) == top
  {
  }

  lemma NewWordReads(st: State, text: string)
    requires Sound(st) && st.stack.Open? && st.last != Normal
    ensures var r := Next(st, Word(text));
      r.Go? && Sound(r.state) && Transcript(r.state) == Transcript(st) + [Word(text)]
  {
    var top, below := Last(st.stack.frames), Init(st.stack.frames);
    FrameGrows(top, text);
    AppendedFrame(below, top + [Statement([text], NoBlock)]);
    assert Init(top + [Statement([text], NoBlock)]) == top;
  }

  lemma MoreWordReads(st: State, text: string)
    requires Sound(st) && st.last == Normal
    ensures var r := Next(st, Word(text));
      r.Go? && Sound(r.state) && Transcript(r.state) == Transcript(st) + [Word(text)]
  {
    var top, below := Last(st.stack.frames), Init(st.stack.frames);
    var top' := Init(top) + [WithToken(Last(top), text)];
    StatementGrows(top, text);
    AppendedFrame(below, top');
    assert Init(top') == Init(top);
  }

  lemma SemicolonReads(st: State)
    requires Sound(st) && st.last == Normal
    ensures var r := Next(st, Semicolon);
      r.Go? && Sound(r.state) && Transcript(r.state) == Transcript(st) + [Semicolon]
  {
    StatementEnds(Last(st.stack.frames));
  }

  lemma OpenBraceReads(st: State)
    requires Sound(st) && st.last == Normal
    ensures var r := Next(st, OpenBrace);
      r.Go? && Sound(r.state) && Transcript(r.state) == Transcript(st) + [OpenBrace]
  {
    var frames := st.stack.frames;
    AppendedFrame(frames, []);
    assert BelowTokens(frames) == BelowTokens(Init(frames)) + OpenTokens(Last(frames)) + [OpenBrace];
    assert BelowTokens(frames) + [] == BelowTokens(frames);
  }

  lemma Regroup(x: seq<Token>, y: seq<Token>, z: seq<Token>)
    ensures x + (y + ([OpenBrace] + z + [CloseBrace])) == (x + y + [OpenBrace]) + z + [CloseBrace]
  {
  }

  lemma ClosedReads(frames: seq<Config>)
    requires |frames| > 1 && FrameOpen(frames[|frames| - 2]) && WellFormed(Last(frames))
    requires forall i :: 0 <= i < |frames| - 1 ==> frames[i] != []
    ensures WellFormed(Last(Closed(frames)))
    ensures BelowTokens(Init(Closed(frames))) + ConfigTokens(Last(Closed(frames)))
         == BelowTokens(Init(frames)) + ConfigTokens(Last(frames)) + [CloseBrace]
  {
    var top, below := Last(frames), Init(frames);
    var parent := Last(below);
    BlockEnds(parent, top);
    AppendedFrame(Init(below), WithBlock(parent, top));
    Regroup(BelowTokens(Init(below)), OpenTokens(parent), ConfigTokens(top));
  }

  lemma CloseBraceReads(st: State)
    requires Sound(st) && st.stack.Open? && EndsStatement(st.last)
    ensures var r := Next(st, CloseBrace);
      r.Go? && Sound(r.state) && Transcript(r.state) == Transcript(st) + [CloseBrace]
  {
    var frames := st.stack.frames;
    if |frames| == 1 {
      RootTokens(frames[0]);
    } else {
      ClosedReads(frames);
      assert Sound(State(Open(Closed(frames)), EndBlock));
    }
  }

  lemma RootTokens(root: Config)
    ensures BelowTokens(Init([root])) + ConfigTokens(root) == ConfigTokens(root)
  {
    assert Init([root]) == [];
  }

  /** Every step keeps the state sound and appends exactly the token it takes to what has been read. */
  lemma StepReads(st: State, t: Token, st': State)
    requires Sound(st) && Next(st, t) == Go(st')
    ensures Sound(st') && Transcript(st') == Transcript(st) + [t]
  {
    match t {
      case Word(text) => if st.last != Normal { NewWordReads(st, text); } else { MoreWordReads(st, text); }
      case Semicolon => SemicolonReads(st);
      case OpenBrace => OpenBraceReads(st);
      case CloseBrace => CloseBraceReads(st);
    }
  }

  // ---- What is accepted ----

  function Closers(k: nat): (r: seq<Token>)
    ensures |r| == k
  {
    if k == 0 then [] else [CloseBrace] + Closers(k - 1)
  }

  /** Closing the open blocks, innermost first, completes the tokens of the tree. */
  lemma {:induction false} PluggedTokens(frames: seq<Config>, last: TokenType)
    requires Sound(State(Open(frames), last)) && EndsStatement(last)
    ensures WellFormed(Plugged(frames))
    ensures ConfigTokens(Plugged(frames)) == Transcript(State(Open(frames), last)) + Closers(|frames| - 1)
    decreases |frames|
  {
    hide Transcript, ConfigTokens;
    if |frames| == 1 {
      LastBlockTokens(frames[0], last);
      assert frames == [frames[0]] && Closers(0) == [];
      assert ConfigTokens(frames[0]) + [] == ConfigTokens(frames[0]);
    } else {
      CloseBraceReads(State(Open(frames), last));
      PluggedTokens(Closed(frames), EndBlock);
      OneMoreCloser(Transcript(State(Open(frames), last)), |frames| - 2);
    }
  }

  lemma LastBlockTokens(root: Config, last: TokenType)
    requires Sound(State(Open([root]), last)) && EndsStatement(last)
    ensures Transcript(State(Open([root]), last)) == ConfigTokens(root)
  {
    RootTokens(root);
  }

  lemma OneMoreCloser(x: seq<Token>, k: nat)
    ensures x + [CloseBrace] + Closers(k) == x + Closers(k + 1)
  {
  }

  /** The tokens of the tree, but for closing braces missing at the end, or with one too many. */
  ghost predicate IsReading(tokens: seq<Token>, c: Config) {
    (exists k :: tokens + Closers(k) == ConfigTokens(c)) || tokens == ConfigTokens(c) + [CloseBrace]
  }

  /** An accepted stream is a reading of a well-formed tree. */
  lemma {:induction false} AcceptedIsReading(tokens: seq<Token>, st: State, c: Config)
    requires Sound(st) && Run(tokens, st) == Accepted(c)
    ensures WellFormed(c) && IsReading(Transcript(st) + tokens, c)
  {
    hide Next, ConfigTokens, BelowTokens, TopTokens, WellFormed, Plugged;
    SoundIsUsable(st);
    if tokens == [] {
      assert Transcript(st) + [] == Transcript(st);
      if st.stack.Open? {
        PluggedTokens(st.stack.frames, st.last);
      }
    } else {
      var st' := Next(st, tokens[0]).state;
      StepReads(st, tokens[0], st');
      AcceptedIsReading(tokens[1..], st', c);
      assert Transcript(st) + [tokens[0]] + tokens[1..] == Transcript(st) + tokens;
    }
  }

  lemma InitialIsSound()
    ensures Sound(INITIAL) && Transcript(INITIAL) == []
  {
    var frames: seq<Config> := [[]];
    assert Init(frames) == [];
  }

  // ---- Every tree is built ----

  lemma RunStep(t: Token, rest: seq<Token>, st: State)
    requires Usable(st)
    ensures var r := Next(st, t); Run([t] + rest, st) == if r.Stop? then r.outcome else Run(rest, r.state)
  {
    assert ([t] + rest)[1..] == rest;
  }

  /** A state whose innermost frame is `top`. */
  function At(below: seq<Config>, top: Config, last: TokenType): State {
    State(Open(below + [top]), last)
  }

  predicate AllNonEmpty(below: seq<Config>) {
    forall i :: 0 <= i < |below| ==> below[i] != []
  }

  lemma AtIsUsable(below: seq<Config>, top: Config, last: TokenType)
    requires AllNonEmpty(below) && (last == Normal ==> top != [])
    ensures Usable(At(below, top, last))
    ensures Last(below + [top]) == top && Init(below + [top]) == below
  {
  }

  lemma {:induction false} RunMoreWords(below: seq<Config>, top: Config, done: seq<string>, words: seq<string>,
                                        rest: seq<Token>)
    requires AllNonEmpty(below)
    ensures Usable(At(below, top + [Statement(done, NoBlock)], Normal))
    ensures Usable(At(below, top + [Statement(done + words, NoBlock)], Normal))
    ensures Run(Words(words) + rest, At(below, top + [Statement(done, NoBlock)], Normal))
         == Run(rest, At(below, top + [Statement(done + words, NoBlock)], Normal))
    decreases |words|
  {
    hide Run;
    AtIsUsable(below, top + [Statement(done, NoBlock)], Normal);
    AtIsUsable(below, top + [Statement(done + words, NoBlock)], Normal);
    if words == [] {
      assert Words(words) + rest == rest && done + words == done;
    } else {
      assert Words(words) + rest == [Word(words[0])] + (Words(words[1..]) + rest);
      RunStep(Word(words[0]), Words(words[1..]) + rest, At(below, top + [Statement(done, NoBlock)], Normal));
      AppendedFrame(below, top + [Statement(done, NoBlock)]);
      assert Init(top + [Statement(done, NoBlock)]) == top;
      RunMoreWords(below, top, done + [words[0]], words[1..], rest);
      assert done + [words[0]] + words[1..] == done + words;
    }
  }

  lemma RunWords(below: seq<Config>, top: Config, last: TokenType, words: seq<string>, rest: seq<Token>)
    requires AllNonEmpty(below) && last != Normal && words != []
    ensures Usable(At(below, top, last)) && Usable(At(below, top + [Statement(words, NoBlock)], Normal))
    ensures Run(Words(words) + rest, At(below, top, last))
         == Run(rest, At(below, top + [Statement(words, NoBlock)], Normal))
  {
    AtIsUsable(below, top, last);
    assert Words(words) + rest == [Word(words[0])] + (Words(words[1..]) + rest);
    RunStep(Word(words[0]), Words(words[1..]) + rest, At(below, top, last));
    RunMoreWords(below, top, [words[0]], words[1..], rest);
    assert [words[0]] + words[1..] == words;
  }

  function LastKind(s: Statement): TokenType {
    if s.child.Block? then EndBlock else StatementEnd
  }

  /** Reading the tokens of a statement appends it to the innermost frame. */
  lemma {:induction false} RunStatement(below: seq<Config>, top: Config, last: TokenType, s: Statement,
                                        rest: seq<Token>)
    requires AllNonEmpty(below) && last != Normal && StatementWellFormed(s)
    ensures Usable(At(below, top, last)) && Usable(At(below, top + [s], LastKind(s)))
    ensures Run(StatementTokens(s) + rest, At(below, top, last)) == Run(rest, At(below, top + [s], LastKind(s)))
    decreases s, 0
  {
    hide Run, ConfigTokens;
    AtIsUsable(below, top, last);
    AtIsUsable(below, top + [s], LastKind(s));
    var open := Statement(s.tokens, NoBlock);
    assert StatementTokens(s) + rest == Words(s.tokens) + (ChildTokens(s.child) + rest);
    RunWords(below, top, last, s.tokens, ChildTokens(s.child) + rest);
    match s.child {
      case NoBlock => RunStep(Semicolon, rest, At(below, top + [open], Normal));
      case Block(c) => RunBlock(below, top, s, c, rest);
    }
  }

  lemma {:induction false} RunBlock(below: seq<Config>, top: Config, s: Statement, c: Config, rest: seq<Token>)
    requires AllNonEmpty(below) && s.child == Block(c) && WellFormed(c)
    ensures Usable(At(below, top + [Statement(s.tokens, NoBlock)], Normal)) && Usable(At(below, top + [s], EndBlock))
    ensures Run(ChildTokens(s.child) + rest, At(below, top + [Statement(s.tokens, NoBlock)], Normal))
         == Run(rest, At(below, top + [s], EndBlock))
    decreases c, 2
  {
    hide Run, ConfigTokens, Words;
    var frame := top + [Statement(s.tokens, NoBlock)];
    AtIsUsable(below, frame, Normal);
    AtIsUsable(below, top + [s], EndBlock);
    AtIsUsable(below + [frame], [], StartBlock);
    AtIsUsable(below + [frame], c, LastKind(Last(c)));
    BlockRegroup(ConfigTokens(c), rest);
    RunStep(OpenBrace, ConfigTokens(c) + ([CloseBrace] + rest), At(below, frame, Normal));
    RunConfig(below + [frame], [], StartBlock, c, [CloseBrace] + rest);
    RunStep(CloseBrace, rest, At(below + [frame], c, LastKind(Last(c))));
    assert [] + c == c;
    assert WithBlock(frame, c) == top + [s];
  }

  lemma BlockRegroup(x: seq<Token>, rest: seq<Token>)
    ensures [OpenBrace] + x + [CloseBrace] + rest == [OpenBrace] + (x + ([CloseBrace] + rest))
  {
  }

  lemma {:induction false} RunConfig(below: seq<Config>, top: Config, last: TokenType, c: Config, rest: seq<Token>)
    requires AllNonEmpty(below) && last != Normal && WellFormed(c)
    ensures Usable(At(below, top, last)) && Usable(At(below, top + c, LastKind(Last(c))))
    ensures Run(ConfigTokens(c) + rest, At(below, top, last)) == Run(rest, At(below, top + c, LastKind(Last(c))))
    decreases c, 1
  {
    hide Run;
    AtIsUsable(below, top, last);
    AtIsUsable(below, top + c, LastKind(Last(c)));
    assert ConfigTokens(c) + rest == StatementTokens(c[0]) + (ConfigTokens(c[1..]) + rest);
    RunStatement(below, top, last, c[0], ConfigTokens(c[1..]) + rest);
    if |c| == 1 {
      assert c == [c[0]] && ConfigTokens(c[1..]) + rest == rest;
    } else {
      RunConfig(below, top + [c[0]], LastKind(c[0]), c[1..], rest);
      assert top + [c[0]] + c[1..] == top + c;
    }
  }

  /** The tokens of a well-formed tree are accepted, and the tree is built. */
  lemma TreeIsBuilt(c: Config)
    requires WellFormed(c)
    ensures Run(ConfigTokens(c), INITIAL) == Accepted(c)
    ensures Run(ConfigTokens(c) + [CloseBrace], INITIAL) == Accepted(c)
  {
    hide ConfigTokens, Words;
    RunConfig([], [], Start, c, []);
    RunConfig([], [], Start, c, [CloseBrace]);
    assert [] + c == c && [] + [c] == [c] && ConfigTokens(c) + [] == ConfigTokens(c);
    var frames: seq<Config> := [[]];
    assert [] + [[]] == frames;
    RunStep(CloseBrace, [], At([], c, LastKind(Last(c))));
    assert [CloseBrace] + [] == [CloseBrace];
  }

  // ---- What is accepted, exactly ----

  predicate EndsWithStatement(tokens: seq<Token>) {
    tokens != [] && EndsStatement(KindOf(Last(tokens)))
  }

  lemma {:induction false} AcceptedEnds(tokens: seq<Token>, st: State)
    requires Sound(st) && Run(tokens, st).Accepted?
    ensures if tokens == [] then EndsStatement(st.last) else EndsWithStatement(tokens)
  {
    hide Next, Transcript;
    SoundIsUsable(st);
    if tokens != [] {
      var st' := Next(st, tokens[0]).state;
      StepReads(st, tokens[0], st');
      AcceptedEnds(tokens[1..], st');
    }
  }

  /** At the end of the file, closing braces that are still missing make no difference. */
  lemma {:induction false} ClosersMakeNoDifference(k: nat, st: State, c: Config)
    requires Sound(st) && EndsStatement(st.last) && Run(Closers(k), st) == Accepted(c)
    ensures Finish(st) == Accepted(c)
  {
    hide Transcript, ConfigTokens;
    SoundIsUsable(st);
    if k > 0 {
      RunStep(CloseBrace, Closers(k - 1), st);
      var st' := Next(st, CloseBrace).state;
      StepReads(st, CloseBrace, st');
      ClosersMakeNoDifference(k - 1, st', c);
    }
  }

  lemma {:induction false} WithoutClosers(tokens: seq<Token>, k: nat, st: State, c: Config)
    requires Sound(st) && Run(tokens + Closers(k), st) == Accepted(c)
    requires if tokens == [] then EndsStatement(st.last) else EndsWithStatement(tokens)
    ensures Run(tokens, st) == Accepted(c)
  {
    hide Next, Transcript;
    SoundIsUsable(st);
    if tokens == [] {
      assert tokens + Closers(k) == Closers(k);
      ClosersMakeNoDifference(k, st, c);
    } else {
      var t, rest := tokens[0], tokens[1..];
      assert tokens + Closers(k) == [t] + (rest + Closers(k));
      RunStep(t, rest + Closers(k), st);
      var st' := Next(st, t).state;
      StepReads(st, t, st');
      WithoutClosers(rest, k, st', c);
    }
  }

  /**
   * A stream is accepted, and parsed as `c`, exactly if `c` is well-formed and the stream is its tokens, possibly
   * without closing braces at the end, or with one too many, and ends with a semicolon or a closing brace.
   */
  lemma AcceptedExactly(tokens: seq<Token>, c: Config)
    ensures Run(tokens, INITIAL) == Accepted(c) <==> WellFormed(c) && IsReading(tokens, c) && EndsWithStatement(tokens)
  {
    InitialIsSound();
    assert [] + tokens == tokens;
    if Run(tokens, INITIAL) == Accepted(c) {
      AcceptedIsReading(tokens, INITIAL, c);
      AcceptedEnds(tokens, INITIAL);
    }
    if WellFormed(c) && IsReading(tokens, c) && EndsWithStatement(tokens) {
      TreeIsBuilt(c);
      if k :| tokens + Closers(k) == ConfigTokens(c) {
        WithoutClosers(tokens, k, INITIAL, c);
      }
    }
  }

  /** The tokens of a tree and a closing brace too many, and behind it a word or another closing brace. */
  ghost predicate Overruns(tokens: seq<Token>, c: Config) {
    && WellFormed(c)
    && ConfigTokens(c) + [CloseBrace] < tokens
    && var next := tokens[|ConfigTokens(c)| + 1]; next.Word? || next.CloseBrace?
  }

  lemma OverrunsNow(c: Config, tokens: seq<Token>)
    requires WellFormed(c) && tokens != [] && (tokens[0].Word? || tokens[0].CloseBrace?)
    ensures Overruns(ConfigTokens(c) + [CloseBrace] + tokens, c)
  {
  }

  lemma StopsOverrun(st: State, tokens: seq<Token>)
    requires Sound(st) && tokens != [] && Next(st, tokens[0]) == Stop(Undefined)
    ensures st.stack.Popped? && Overruns(Transcript(st) + tokens, st.stack.root)
  {
    hide Overruns;
    OverrunsNow(st.stack.root, tokens);
  }

  lemma {:induction false} UndefinedOverruns(tokens: seq<Token>, st: State) returns (c: Config)
    requires Sound(st) && Run(tokens, st) == Undefined
    ensures Overruns(Transcript(st) + tokens, c)
  {
    hide Next, Overruns, Transcript;
    SoundIsUsable(st);
    var next := Next(st, tokens[0]);
    if next.Stop? {
      StopsOverrun(st, tokens);
      c := st.stack.root;
    } else {
      StepReads(st, tokens[0], next.state);
      c := UndefinedOverruns(tokens[1..], next.state);
      assert Transcript(st) + [tokens[0]] + tokens[1..] == Transcript(st) + tokens;
    }
  }

  lemma OverrunIsUndefined(c: Config, rest: seq<Token>)
    requires WellFormed(c) && rest != [] && (rest[0].Word? || rest[0].CloseBrace?)
    ensures Run(ConfigTokens(c) + ([CloseBrace] + rest), INITIAL) == Undefined
  {
    hide ConfigTokens;
    RunConfig([], [], Start, c, [CloseBrace] + rest);
    var frames: seq<Config> := [[]];
    assert [] + [[]] == frames && [] + c == c && [] + [c] == [c];
    RunStep(CloseBrace, rest, At([], c, LastKind(Last(c))));
  }

  lemma OverrunSplits(tokens: seq<Token>, x: seq<Token>)
    requires x + [CloseBrace] < tokens
    ensures tokens == x + ([CloseBrace] + tokens[|x| + 1..])
    ensures tokens[|x| + 1..] != [] && tokens[|x| + 1..][0] == tokens[|x| + 1]
  {
  }

  /** The machine uses an empty stack exactly on the streams that go on behind a brace that has closed the root. */
  lemma UndefinedExactly(tokens: seq<Token>)
    ensures Run(tokens, INITIAL) == Undefined <==> exists c :: Overruns(tokens, c)
  {
    hide ConfigTokens, Run, WellFormed, Transcript, Sound;
    InitialIsSound();
    assert [] + tokens == tokens;
    if Run(tokens, INITIAL) == Undefined {
      var c := UndefinedOverruns(tokens, INITIAL);
    }
    forall c | Overruns(tokens, c) ensures Run(tokens, INITIAL) == Undefined {
      OverrunSplits(tokens, ConfigTokens(c));
      OverrunIsUndefined(c, tokens[|ConfigTokens(c)| + 1..]);
    }
  }

  /** Opening braces minus closing ones. */
  function Balance(tokens: seq<Token>): int {
    if tokens == [] then 0
    else (match tokens[0] case OpenBrace => 1 case CloseBrace => -1 case _ => 0) + Balance(tokens[1..])
  }

  lemma {:induction false} BalanceAdds(x: seq<Token>, y: seq<Token>)
    ensures Balance(x + y) == Balance(x) + Balance(y)
  {
    if x == [] {
      assert x + y == y;
    } else {
      assert (x + y)[1..] == x[1..] + y;
      BalanceAdds(x[1..], y);
    }
  }

  lemma {:induction false} WordsBalance(tokens: seq<string>)
    ensures Balance(Words(tokens)) == 0
  {
    if tokens != [] {
      WordsBalance(tokens[1..]);
    }
  }

  lemma {:induction false} ClosersBalance(k: nat)
    ensures Balance(Closers(k)) + k == 0
  {
    if k > 0 {
      ClosersBalance(k - 1);
    }
  }

  lemma {:induction false} ConfigBalance(c: Config)
    ensures Balance(ConfigTokens(c)) == 0
    decreases c, 1
  {
    if c != [] {
      BalanceAdds(StatementTokens(c[0]), ConfigTokens(c[1..]));
      ConfigBalance(c[1..]);
      WordsBalance(c[0].tokens);
      BalanceAdds(Words(c[0].tokens), ChildTokens(c[0].child));
      match c[0].child {
        case NoBlock =>
        case Block(b) =>
          ConfigBalance(b);
          BalanceAdds([OpenBrace] + ConfigTokens(b), [CloseBrace]);
          BalanceAdds([OpenBrace], ConfigTokens(b));
      }
    }
  }

  /** On a stream with as many closing as opening braces, the machine accepts the grammar and builds its tree. */
  lemma BalancedAccepted(tokens: seq<Token>, c: Config)
    requires Balance(tokens) == 0
    ensures Run(tokens, INITIAL) == Accepted(c) <==> WellFormed(c) && tokens == ConfigTokens(c)
  {
    if Run(tokens, INITIAL) == Accepted(c) {
      AcceptedExactly(tokens, c);
      ConfigBalance(c);
      BalanceAdds(ConfigTokens(c), [CloseBrace]);
      if k :| tokens + Closers(k) == ConfigTokens(c) {
        BalanceAdds(tokens, Closers(k));
        ClosersBalance(k);
        assert tokens + [] == tokens;
      }
    }
    if WellFormed(c) {
      TreeIsBuilt(c);
    }
  }

  // ---- The stack while a balanced stream is read ----

  /** Where the machine is after some tokens, unless it has stopped. */
  function Reached(tokens: seq<Token>, st: State): (r: Step)
    requires Usable(st)
    ensures r.Go? ==> Usable(r.state)
    ensures r.Stop? ==> !r.outcome.Accepted?
  {
    if tokens == [] then Go(st)
    else
      var next := Next(st, tokens[0]);
      if next.Stop? then next else Reached(tokens[1..], next.state)
  }

  lemma {:induction false} RunSplits(x: seq<Token>, y: seq<Token>, st: State)
    requires Usable(st)
    ensures var r := Reached(x, st); Run(x + y, st) == if r.Stop? then r.outcome else Run(y, r.state)
  {
    hide Next;
    if x == [] {
      assert x + y == y;
    } else {
      assert x + y == [x[0]] + (x[1..] + y);
      RunStep(x[0], x[1..] + y, st);
      if Next(st, x[0]).Go? {
        RunSplits(x[1..], y, Next(st, x[0]).state);
      }
    }
  }

  lemma {:induction false} ReachedReads(tokens: seq<Token>, st: State)
    requires Sound(st) && Usable(st) && Reached(tokens, st).Go?
    ensures Sound(Reached(tokens, st).state) && Transcript(Reached(tokens, st).state) == Transcript(st) + tokens
  {
    hide Next, Transcript, Sound;
    if tokens == [] {
      assert Transcript(st) + [] == Transcript(st);
    } else {
      var st' := Next(st, tokens[0]).state;
      StepReads(st, tokens[0], st');
      ReachedReads(tokens[1..], st');
      assert Transcript(st) + [tokens[0]] + tokens[1..] == Transcript(st) + tokens;
    }
  }

  lemma {:induction false} BelowBalance(frames: seq<Config>)
    requires AllNonEmpty(frames)
    ensures Balance(BelowTokens(frames)) == |frames|
    decreases |frames|
  {
    if frames != [] {
      var below, f := Init(frames), Last(frames);
      BelowBalance(below);
      OpenBalance(f);
      BalanceAdds(BelowTokens(below) + OpenTokens(f), [OpenBrace]);
      BalanceAdds(BelowTokens(below), OpenTokens(f));
      assert Balance([OpenBrace]) == 1 + Balance([OpenBrace][1..]);
    }
  }

  lemma OpenBalance(f: Config)
    requires f != []
    ensures Balance(OpenTokens(f)) == 0
  {
    BalanceAdds(ConfigTokens(Init(f)), Words(Last(f).tokens));
    ConfigBalance(Init(f));
    WordsBalance(Last(f).tokens);
  }

  /** The stack is as deep as there are braces open in what has been read. */
  lemma StackBalance(st: State)
    requires Sound(st)
    ensures match st.stack
            case Open(frames) => Balance(Transcript(st)) == |frames| - 1
            case Popped(_) => Balance(Transcript(st)) == -1
  {
    match st.stack
    case Open(frames) =>
      var below, top := Init(frames), Last(frames);
      BelowBalance(below);
      BalanceAdds(BelowTokens(below), TopTokens(top, st.last));
      ConfigBalance(top);
      if st.last == Normal {
        OpenBalance(top);
      }
    case Popped(root) =>
      BalanceAdds(ConfigTokens(root), [CloseBrace]);
      ConfigBalance(root);
      assert Balance([CloseBrace]) == -1 + Balance([CloseBrace][1..]);
  }

  /**
   * At every point of a balanced stream that is accepted, the stack is the non-empty path from the root to the open
   * block: one frame and one for every brace that is open, holding exactly the tokens read so far.
   */
  lemma PathToOpenBlock(tokens: seq<Token>, k: nat)
    requires Balance(tokens) == 0 && Run(tokens, INITIAL).Accepted? && k <= |tokens|
    ensures var r := Reached(tokens[..k], INITIAL);
      && r.Go? && Sound(r.state) && Transcript(r.state) == tokens[..k]
      && r.state.stack.Open?
      && |r.state.stack.frames| == 1 + Balance(tokens[..k])
  {
    hide Next, Transcript, Sound, Balance;
    InitialIsSound();
    assert [] + tokens[..k] == tokens[..k] && tokens == tokens[..k] + tokens[k..];
    assert tokens[..|tokens|] == tokens;
    RunSplits(tokens[..k], tokens[k..], INITIAL);
    ReachedReads(tokens[..k], INITIAL);
    var st := Reached(tokens[..k], INITIAL).state;
    StackBalance(st);
    if st.stack.Popped? {
      NothingBehindRoot(tokens[k..], st);
    }
  }

  lemma NothingBehindRoot(tokens: seq<Token>, st: State)
    requires Sound(st) && Usable(st) && st.stack.Popped? && Run(tokens, st).Accepted?
    ensures tokens == []
  {
  }
}

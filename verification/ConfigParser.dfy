/** The configuration classes, their printers, and the parser that builds them with a stack of open blocks. */
module ConfigParser {
  import opened ByteStrings
  import opened ConfigLexer
  import opened ConfigGrammar
  import opened ConfigText

  class NginxConfigStatement {
    var tokens: seq<string>
    var childBlock: NginxConfig?
    ghost var Repr: set<object>

    constructor ()
      ensures tokens == [] && childBlock == null
    {
      tokens := [];
      childBlock := null;
    }

    ghost predicate Valid()
      reads this, Repr
      decreases Repr, 0
    {
      && this in Repr
      && (childBlock != null ==>
            childBlock in Repr && childBlock.Repr <= Repr && this !in childBlock.Repr && childBlock.Valid())
    }

    ghost function Value(): Statement
      requires Valid()
      reads this, Repr
      decreases Repr, 0
    {
      Statement(tokens, if childBlock == null then NoBlock else Block(childBlock.Value()))
    }

    method ToString(depth: int) returns (serialized: string)
      requires Valid()
      ensures serialized == StatementText(Value(), depth)
      decreases Repr, 0
    {
      serialized := Indent("", depth);
      serialized := AppendWords(serialized, tokens);
      ghost var words := serialized;
      if childBlock != null {
        serialized := serialized + " {\n";
        var block := childBlock.ToString(depth + 1);
        serialized := serialized + block;
        serialized := Indent(serialized, depth);
        serialized := serialized + "}";
        BlockJoin(words, block, Indentation(depth));
      } else {
        serialized := serialized + ";";
      }
      assert serialized == words + ChildText(Value().child, depth);
      serialized := serialized + "\n";
      assert "" + Indentation(depth) == Indentation(depth);
    }
  }

  lemma BlockJoin(words: string, block: string, indentation: string)
    ensures words + " {\n" + block + indentation + "}" == words + (" {\n" + block + indentation + "}")
  {
  }

  method AppendWords(text: string, words: seq<string>) returns (r: string)
    ensures r == text + WordsText(words)
  {
    r := text;
    for i := 0 to |words|
      invariant r == text + WordsText(words[..i])
    {
      NextWordJoin(text, words, i);
      if i != 0 {
        r := r + " ";
      }
      r := r + words[i];
    }
    assert words[..|words|] == words;
  }

  lemma NextWordJoin(text: string, words: seq<string>, i: nat)
    requires i < |words|
    ensures text + WordsText(words[..i + 1])
         == (if i != 0 then text + WordsText(words[..i]) + " " else text + WordsText(words[..i])) + words[i]
  {
    WordsTextAppend(words[..i], words[i]);
    assert words[..i + 1] == words[..i] + [words[i]];
  }

  lemma {:induction false} WordsTextAppend(tokens: seq<string>, text: string)
    ensures WordsText(tokens + [text]) == WordsText(tokens) + (if tokens == [] then "" else " ") + text
  {
    if |tokens| > 1 {
      assert (tokens + [text])[1..] == tokens[1..] + [text];
      WordsTextAppend(tokens[1..], text);
    } else if |tokens| == 1 {
      assert (tokens + [text])[1..] == [text];
    }
  }

  method Indent(text: string, depth: int) returns (r: string)
    ensures r == text + Indentation(depth)
  {
    r := text;
    var i := 0;
    while i < depth
      invariant 0 <= i && (i <= depth || i == 0)
      invariant r + Indentation(depth - i) == text + Indentation(depth)
    {
      assert r + Indentation(depth - i) == r + "  " + Indentation(depth - i - 1);
      r := r + "  ";
      i := i + 1;
    }
  }

  lemma {:induction false} TextAppend(c: Config, s: Statement, depth: int)
    ensures Text(c + [s], depth) == Text(c, depth) + StatementText(s, depth)
  {
    if c == [] {
      assert c + [s] == [s] && [s][1..] == [];
    } else {
      TextAppend(c[1..], s, depth);
      assert (c + [s])[1..] == c[1..] + [s];
    }
  }

  class NginxConfig {
    var statements: seq<NginxConfigStatement>
    ghost var Repr: set<object>

    constructor ()
      ensures Valid() && Value() == [] && fresh(Repr)
    {
      statements := [];
      Repr := {this};
    }

    ghost predicate Valid()
      reads this, Repr
      decreases Repr, 0
    {
      && this in Repr
      && (forall i :: 0 <= i < |statements| ==>
            statements[i] in Repr && statements[i].Repr <= Repr && this !in statements[i].Repr && statements[i].Valid())
      && (forall i, j :: 0 <= i < j < |statements| ==> statements[i].Repr !! statements[j].Repr)
    }

    ghost function Value(): (c: Config)
      requires Valid()
      reads this, Repr
      ensures |c| == |statements|
      ensures forall i :: 0 <= i < |c| ==> c[i] == statements[i].Value()
      decreases Repr, |statements| + 1
    {
      ValueTo(|statements|)
    }

    ghost function ValueTo(n: nat): (c: Config)
      requires Valid() && n <= |statements|
      reads this, Repr
      ensures |c| == n && forall i :: 0 <= i < n ==> c[i] == statements[i].Value()
      decreases Repr, n
    {
      if n == 0 then [] else ValueTo(n - 1) + [statements[n - 1].Value()]
    }

    method ToString(depth: int) returns (serialized: string)
      requires Valid()
      ensures serialized == Text(Value(), depth)
      decreases Repr, 0
    {
      serialized := "";
      for i := 0 to |statements|
        invariant serialized == Text(ValueTo(i), depth)
      {
        ghost var done, next := ValueTo(i), statements[i].Value();
        var text := statements[i].ToString(depth);
        TextAppend(done, next, depth);
        serialized := serialized + text;
      }
    }
  }

  // ---- The stack of open blocks ----

  /**
   * The object at one level of the stack holds the statements of `frame`, all in the footprint `fp`. With `open`, its
   * last statement is unfinished, and has `child` for its block.
   */
  ghost predicate LevelOk(c: NginxConfig, frame: Config, fp: set<object>, open: bool, child: NginxConfig?)
    reads fp
  {
    && c in fp
    && |c.statements| == |frame|
    && (forall i :: 0 <= i < |frame| ==> c.statements[i] in fp)
    && (open ==> frame != [])
    && var closed := if open then |frame| - 1 else |frame|;
    && (forall i :: 0 <= i < closed ==> IsHeld(c.statements[i], frame[i], fp - {c}))
    && (forall i, j :: 0 <= i < j < closed ==> c.statements[i].Repr !! c.statements[j].Repr)
    && (open ==>
          var s := c.statements[closed];
          && s.tokens == frame[closed].tokens && frame[closed].child == NoBlock && s.childBlock == child
          && forall i :: 0 <= i < closed ==> s !in c.statements[i].Repr)
  }

  /** A finished statement with its whole block. */
  ghost predicate IsHeld(s: NginxConfigStatement, v: Statement, fp: set<object>)
    reads s, fp
  {
    s.Repr <= fp && s.Valid() && s.Value() == v
  }

  ghost predicate StackOk(stack: seq<NginxConfig>, frames: seq<Config>, fps: seq<set<object>>, last: TokenType)
    reads stack, set i, o | 0 <= i < |fps| && o in fps[i] :: o
  {
    && |stack| == |frames| == |fps| > 0
    && (forall i, j :: 0 <= i < j < |fps| ==> fps[i] !! fps[j])
    && (forall i :: 0 <= i < |stack| - 1 ==> LevelOk(stack[i], frames[i], fps[i], true, stack[i + 1]))
    && LevelOk(Last(stack), Last(frames), Last(fps), last == Normal, null)
  }

  method AppendStatement(c: NginxConfig, ghost frame: Config, ghost fp: set<object>) returns (ghost fp': set<object>)
    requires LevelOk(c, frame, fp, false, null)
    modifies fp
    ensures LevelOk(c, frame + [Statement([], NoBlock)], fp', true, null)
    ensures fp <= fp' && fresh(fp' - fp)
  {
    var s := new NginxConfigStatement();
    c.statements := c.statements + [s];
    fp' := fp + {s};
  }

  method AppendToken(c: NginxConfig, token: string, ghost frame: Config, ghost fp: set<object>)
    requires LevelOk(c, frame, fp, true, null)
    modifies fp
    ensures LevelOk(c, Init(frame) + [WithToken(Last(frame), token)], fp, true, null)
  {
    var s := Last(c.statements);
    s.tokens := s.tokens + [token];
  }

  ghost method EndStatement(c: NginxConfig, frame: Config, fp: set<object>)
    requires LevelOk(c, frame, fp, true, null)
    modifies fp
    ensures LevelOk(c, frame, fp, false, null)
  {
    var s := Last(c.statements);
    s.Repr := {s};
  }

  method OpenBlock(c: NginxConfig, ghost frame: Config, ghost fp: set<object>) returns (block: NginxConfig)
    requires LevelOk(c, frame, fp, true, null)
    modifies fp
    ensures fresh(block) && LevelOk(c, frame, fp, true, block) && LevelOk(block, [], {block}, false, null)
  {
    block := new NginxConfig();
    var s := Last(c.statements);
    s.childBlock := block;
  }

  /** A finished block is a valid tree by itself. */
  ghost method SealBlock(c: NginxConfig, frame: Config, fp: set<object>)
    requires LevelOk(c, frame, fp, false, null)
    modifies fp
    ensures c.Repr == fp && c.Valid() && c.Value() == frame
  {
    c.Repr := fp;
  }

  /** A statement whose block is a valid tree is finished. */
  ghost method SealStatement(c: NginxConfig, frame: Config, fp: set<object>, block: NginxConfig)
    requires LevelOk(c, frame, fp, true, block)
    requires block.Valid() && block.Repr !! fp
    modifies fp
    ensures LevelOk(c, WithBlock(frame, old(block.Value())), fp + old(block.Repr), false, null)
  {
    var s := Last(c.statements);
    s.Repr := {s} + block.Repr;
  }

  lemma StackIsUsable(stack: seq<NginxConfig>, frames: seq<Config>, fps: seq<set<object>>, last: TokenType)
    requires StackOk(stack, frames, fps, last)
    ensures Usable(State(Open(frames), last))
    ensures |stack| > 1 ==> frames[|frames| - 2] != []
  {
    forall i | 0 <= i < |frames| - 1 ensures frames[i] != [] {
      assert LevelOk(stack[i], frames[i], fps[i], true, stack[i + 1]);
    }
  }

  /** `fps'` is `fps` with the top extended by new objects. */
  twostate predicate TopGrows(fps: seq<set<object>>, new fps': seq<set<object>>) {
    && |fps| == |fps'| > 0
    && Init(fps) == Init(fps')
    && Last(fps) <= Last(fps') && fresh(Last(fps') - Last(fps))
  }

  method PushWord(stack: seq<NginxConfig>, last: TokenType, token: string, ghost frames: seq<Config>,
                  ghost fps: seq<set<object>>)
    returns (ghost fps': seq<set<object>>)
    requires StackOk(stack, frames, fps, last) && Usable(State(Open(frames), last))
    modifies Last(fps)
    ensures TopGrows(fps, fps')
    ensures StackOk(stack, Next(State(Open(frames), last), Word(token)).state.stack.frames, fps', Normal)
  {
    hide LevelOk, IsHeld;
    var top := Last(stack);
    ghost var frame, fp := Last(frames), Last(fps);
    if last != Normal {
      fp := AppendStatement(top, frame, fp);
      frame := frame + [Statement([], NoBlock)];
    }
    AppendToken(top, token, frame, fp);
    fps' := Init(fps) + [fp];
    assert Init(fps') == Init(fps);
    assert last != Normal ==>
      Init(frame) == Last(frames) && WithToken(Last(frame), token) == Statement([token], NoBlock);
  }

  method PushBlock(stack: seq<NginxConfig>, ghost frames: seq<Config>, ghost fps: seq<set<object>>)
    returns (stack': seq<NginxConfig>, ghost fps': seq<set<object>>)
    requires StackOk(stack, frames, fps, Normal)
    modifies Last(fps)
    ensures |fps'| == |fps| + 1 && Init(fps') == fps && fresh(Last(fps'))
    ensures |stack'| == |stack| + 1 && stack'[0] == stack[0]
    ensures StackOk(stack', frames + [[]], fps', StartBlock)
  {
    hide LevelOk, IsHeld;
    var block := OpenBlock(Last(stack), Last(frames), Last(fps));
    stack' := stack + [block];
    fps' := fps + [{block}];
  }

  ghost method FinishStatement(stack: seq<NginxConfig>, frames: seq<Config>, fps: seq<set<object>>)
    requires StackOk(stack, frames, fps, Normal)
    modifies Last(fps)
    ensures StackOk(stack, frames, fps, StatementEnd)
  {
    EndStatement(Last(stack), Last(frames), Last(fps));
  }

  ghost method CloseBlock(stack: seq<NginxConfig>, frames: seq<Config>, fps: seq<set<object>>, last: TokenType)
    returns (fps': seq<set<object>>)
    requires StackOk(stack, frames, fps, last) && last != Normal && |stack| > 1
    modifies Last(fps), fps[|fps| - 2]
    ensures fps' == Init(Init(fps)) + [fps[|fps| - 2] + Last(fps)]
    ensures frames[|frames| - 2] != [] && StackOk(Init(stack), Closed(frames), fps', EndBlock)
  {
    hide LevelOk, IsHeld, WithBlock;
    var n := |stack| - 2;
    var block, level := Last(stack), stack[n];
    StackIsUsable(stack, frames, fps, last);
    assert LevelOk(level, frames[n], fps[n], true, stack[n + 1]);
    SealBlock(block, Last(frames), Last(fps));
    SealStatement(level, frames[n], fps[n], block);
    fps' := Init(Init(fps)) + [fps[n] + Last(fps)];
    assert Init(stack)[n] == level;
    assert forall i :: 0 <= i < n ==> Init(stack)[i] == stack[i] && fps'[i] == fps[i] && Closed(frames)[i] == frames[i];
  }

  ghost function Union(fps: seq<set<object>>): set<object> {
    set i, o | 0 <= i < |fps| && o in fps[i] :: o
  }

  /** At the end of the file, the blocks still open are closed. */
  ghost method CloseAll(stack: seq<NginxConfig>, frames: seq<Config>, fps: seq<set<object>>, last: TokenType)
    requires StackOk(stack, frames, fps, last) && last != Normal && Usable(State(Open(frames), last))
    modifies Union(fps)
    ensures stack[0].Valid() && stack[0].Value() == Plugged(frames) && stack[0].Repr == Union(fps)
    decreases |stack|
  {
    if |stack| == 1 {
      SealBlock(stack[0], frames[0], fps[0]);
    } else {
      var fps' := CloseBlock(stack, frames, fps, last);
      StackIsUsable(Init(stack), Closed(frames), fps', EndBlock);
      UnionOfClosed(fps);
      CloseAll(Init(stack), Closed(frames), fps', EndBlock);
    }
  }

  lemma UnionOfClosed(fps: seq<set<object>>)
    requires |fps| > 1
    ensures Union(Init(Init(fps)) + [fps[|fps| - 2] + Last(fps)]) == Union(fps)
  {
    var n := |fps| - 2;
    var closed := Init(Init(fps)) + [fps[n] + Last(fps)];
    assert closed[n] == fps[n] + fps[n + 1];
    assert forall i :: 0 <= i < n ==> closed[i] == fps[i];
  }

  /** The objects on the stack, and those reached from them, hold what the state of the machine says. */
  ghost predicate Represents(config: NginxConfig, stack: seq<NginxConfig>, fps: seq<set<object>>, st: State)
    reads config, stack, Union(fps)
  {
    match st.stack
    case Open(frames) => StackOk(stack, frames, fps, st.last) && stack[0] == config
    case Popped(root) =>
      && stack == []
      && fps == [config.Repr]
      && (assert fps[0] == config.Repr; config.Valid())
      && config.Value() == root
  }

  lemma UnionOfTop(fps: seq<set<object>>)
    requires fps != []
    ensures Union(fps) == Union(Init(fps)) + Last(fps)
  {
    assert forall i :: 0 <= i < |fps| - 1 ==> Init(fps)[i] == fps[i];
  }

  /** The machine takes a token. */
  method Step(config: NginxConfig, stack: seq<NginxConfig>, last: TokenType, kind: TokenType, token: string,
              ghost fps: seq<set<object>>, ghost st: State)
    returns (stack': seq<NginxConfig>, ghost fps': seq<set<object>>, ghost st': State)
    requires Represents(config, stack, fps, st) && st.last == last && Usable(st)
    requires kind == Normal || kind == StatementEnd || kind == StartBlock || kind == EndBlock
    requires Next(st, TokenOf(kind, token)).Go?
    modifies Union(fps)
    ensures Usable(st') && Next(st, TokenOf(kind, token)) == Go(st') && st'.last == kind
    ensures Represents(config, stack', fps', st')
    ensures fresh(Union(fps') - Union(fps))
  {
    hide LevelOk, IsHeld;
    stack', fps' := stack, fps;
    UnionOfTop(fps);
    match kind {
    case Normal =>
      fps' := PushWord(stack, last, token, st.stack.frames, fps);
      UnionOfTop(fps');
    case StatementEnd =>
      FinishStatement(stack, st.stack.frames, fps);
    case StartBlock =>
      stack', fps' := PushBlock(stack, st.stack.frames, fps);
      UnionOfTop(fps');
    case EndBlock =>
      if |stack| == 1 {
        SealBlock(stack[0], st.stack.frames[0], fps[0]);
      } else {
        fps' := CloseBlock(stack, st.stack.frames, fps, last);
        UnionOfClosed(fps);
      }
      stack' := Init(stack);
    }
    st' := Next(st, TokenOf(kind, token)).state;
  }

  /** The state before the first token: the statements a configuration already has are kept. */
  ghost function Started(config: NginxConfig): (st: State)
    requires config.Valid()
    reads config, config.Repr
    ensures Usable(st)
  {
    State(Open([config.Value()]), Start)
  }

  /** At the end of the file the tree is complete. */
  ghost method Complete(config: NginxConfig, stack: seq<NginxConfig>, fps: seq<set<object>>, st: State)
    requires Represents(config, stack, fps, st) && Usable(st) && EndsStatement(st.last)
    modifies Union(fps)
    ensures config.Valid() && config.Repr == Union(fps) && Finish(st) == Accepted(config.Value())
  {
    if st.stack.Open? {
      CloseAll(stack, st.stack.frames, fps, st.last);
    } else {
      UnionOfTop(fps);
    }
  }

  /** The token types `Parse` breaks off at. */
  predicate Refuses(last: TokenType, kind: TokenType) {
    match kind
    case StatementEnd => last != Normal
    case StartBlock => last != Normal
    case EndBlock => !EndsStatement(last)
    case Eof => !EndsStatement(last)
    case _ => kind == Error || kind == Start
  }

  lemma RefusedIsRejected(kind: TokenType, token: string, st: State)
    requires Usable(st)
    ensures Refuses(st.last, kind) ==> Round(kind, token, st) == Stop(Rejected)
    ensures !Refuses(st.last, kind) && kind != Eof && Round(kind, token, st) != Stop(Undefined) ==>
      Round(kind, token, st).Go?
    ensures !Refuses(st.last, kind) && kind == Eof ==> EndsStatement(st.last)
  {
  }

  lemma StartIsRepresented(config: NginxConfig)
    requires config.Valid()
    ensures Represents(config, [config], [config.Repr], Started(config))
  {
  }

  method Parse(input: Stream, config: NginxConfig) returns (ok: bool)
    requires input.Valid() && config.Valid() && input !in config.Repr
    requires ParseText(input.Rest(), Started(config)) != Undefined
    modifies input, config.Repr
    ensures ok == old(ParseText(input.Rest(), Started(config))).Accepted?
    ensures ok ==> config.Valid() && fresh(config.Repr - old(config.Repr))
    ensures ok ==> config.Value() == old(ParseText(input.Rest(), Started(config))).config
  {
    hide Represents, Next, Finish, Lex;
    var stack := [config];
    var last := Start;
    ghost var st, fps := Started(config), [config.Repr];
    ghost var result := ParseText(input.Rest(), st);
    StartIsRepresented(config);
    UnionOfTop(fps);
    while true
      invariant input.Valid() && input !in Union(fps)
      invariant Usable(st) && st.last == last && Represents(config, stack, fps, st)
      invariant fresh(Union(fps) - old(config.Repr))
      invariant ParseText(input.Rest(), st) == result
      decreases |input.Rest()|
    {
      var kind, token := ParseToken(input);
      RefusedIsRejected(kind, token, st);
      if Refuses(last, kind) {
        break;
      }
      if kind == Comment {
        continue;
      }
      if kind == Eof {
        Complete(config, stack, fps, st);
        return true;
      }
      stack, fps, st := Step(config, stack, last, kind, token, fps, st);
      last := kind;
    }
    return false;
  }
}

/** A printed configuration, line by line. */
module ConfigLines {
  import opened ConfigGrammar
  import opened ConfigText

  /** A line: how many blocks it is in, its words, and what follows them. */
  datatype Line = Line(depth: nat, words: seq<string>, end: string)

  /** The words with a blank between one and the next. */
  function Spaced(words: seq<string>): string {
    if words == [] then ""
    else if |words| == 1 then words[0]
    else Spaced(words[..|words| - 1]) + " " + words[|words| - 1]
  }

  /** What a line looks like: two blanks for each block it is in, then the words, the end, and a line break. */
  predicate Shows(text: string, line: Line) {
    && 2 * line.depth <= |text|
    && (forall i :: 0 <= i < 2 * line.depth ==> text[i] == ' ')
    && text[2 * line.depth..] == Spaced(line.words) + line.end + "\n"
  }

  predicate AllShow(texts: seq<string>, lines: seq<Line>) {
    |texts| == |lines| && forall i :: 0 <= i < |lines| ==> Shows(texts[i], lines[i])
  }

  /** A statement is one line; with a block it is the line that opens it, those inside, and the one that closes it. */
  function StatementLines(s: Statement, depth: nat): seq<Line>
    decreases s, 0
  {
    match s.child
    case NoBlock => [Line(depth, s.tokens, ";")]
    case Block(c) => [Line(depth, s.tokens, " {")] + Lines(c, depth + 1) + [Line(depth, [], "}")]
  }

  function Lines(c: Config, depth: nat): seq<Line>
    decreases c, 1
  {
    if c == [] then [] else StatementLines(c[0], depth) + Lines(c[1..], depth)
  }

  /** All texts, one behind the other. */
  function Concat(texts: seq<string>): string {
    if texts == [] then "" else texts[0] + Concat(texts[1..])
  }

  lemma {:induction false} ConcatSplits(a: seq<string>, b: seq<string>)
    ensures Concat(a + b) == Concat(a) + Concat(b)
  {
    if a == [] {
      assert a + b == b;
    } else {
      assert (a + b)[1..] == a[1..] + b;
      ConcatSplits(a[1..], b);
    }
  }

  lemma {:induction false} IndentationIsBlanks(depth: nat)
    ensures |Indentation(depth)| == 2 * depth
    ensures forall i :: 0 <= i < 2 * depth ==> Indentation(depth)[i] == ' '
  {
    if depth > 0 {
      IndentationIsBlanks(depth - 1);
      assert Indentation(depth) == "  " + Indentation(depth - 1);
    }
  }

  lemma {:induction false} WordsTextAtEnd(words: seq<string>, last: string)
    requires words != []
    ensures WordsText(words + [last]) == WordsText(words) + " " + last
  {
    if |words| == 1 {
      assert (words + [last])[1..] == [last];
    } else {
      assert (words + [last])[1..] == words[1..] + [last];
      WordsTextAtEnd(words[1..], last);
    }
  }

  lemma {:induction false} WordsAreSpaced(words: seq<string>)
    ensures WordsText(words) == Spaced(words)
  {
    if |words| > 1 {
      var k := |words| - 1;
      WordsAreSpaced(words[..k]);
      WordsTextAtEnd(words[..k], words[k]);
      assert words == words[..k] + [words[k]];
    }
  }

  lemma LineShows(depth: nat, words: seq<string>, end: string)
    ensures Shows(Indentation(depth) + WordsText(words) + end + "\n", Line(depth, words, end))
  {
    hide Indentation, WordsText, Spaced;
    var text := Indentation(depth) + WordsText(words) + end + "\n";
    IndentationIsBlanks(depth);
    WordsAreSpaced(words);
    assert text == Indentation(depth) + (Spaced(words) + end + "\n");
    assert forall i :: 0 <= i < 2 * depth ==> text[i] == Indentation(depth)[i];
  }

  lemma BlockRegroups(x: string, y: string, block: string, z: string)
    ensures x + y + (" {\n" + block + z + "}") + "\n" == x + y + " {" + "\n" + (block + (z + "" + "}" + "\n"))
  {
  }

  lemma {:induction false} StatementIsItsLines(s: Statement, depth: nat) returns (texts: seq<string>)
    ensures AllShow(texts, StatementLines(s, depth)) && Concat(texts) == StatementText(s, depth)
    decreases s, 0
  {
    hide Indentation, Shows, Text, Lines, Spaced;
    match s.child
    case NoBlock =>
      LineShows(depth, s.tokens, ";");
      assert ChildText(s.child, depth) == ";";
      texts := [StatementText(s, depth)];
      assert Concat(texts) == texts[0] + Concat([]);
    case Block(c) =>
      var first := Indentation(depth) + WordsText(s.tokens) + " {" + "\n";
      var last := Indentation(depth) + WordsText([]) + "}" + "\n";
      LineShows(depth, s.tokens, " {");
      LineShows(depth, [], "}");
      var inner := TextIsItsLines(c, depth + 1);
      texts := [first] + inner + [last];
      BlockRegroups(Indentation(depth), WordsText(s.tokens), Text(c, depth + 1), Indentation(depth));
      assert WordsText([]) == "";
      OneAtEachEnd(first, inner, last);
      AllShowInside(first, Line(depth, s.tokens, " {"), inner, Lines(c, depth + 1), last, Line(depth, [], "}"));
  }

  lemma AllShowInside(first: string, opens: Line, inner: seq<string>, lines: seq<Line>, last: string, closes: Line)
    requires Shows(first, opens) && AllShow(inner, lines) && Shows(last, closes)
    ensures AllShow([first] + inner + [last], [opens] + lines + [closes])
  {
    hide Shows;
  }

  lemma OneAtEachEnd(first: string, inner: seq<string>, last: string)
    ensures Concat([first] + inner + [last]) == first + (Concat(inner) + last)
  {
    assert [first] + inner + [last] == [first] + (inner + [last]);
    ConcatSplits(inner, [last]);
    assert Concat([last]) == last + "";
  }

  /** The text of a configuration is its lines, one behind the other. */
  lemma {:induction false} TextIsItsLines(c: Config, depth: nat) returns (texts: seq<string>)
    ensures AllShow(texts, Lines(c, depth)) && Concat(texts) == Text(c, depth)
    decreases c, 1
  {
    hide StatementText, StatementLines, Shows;
    if c == [] {
      texts := [];
    } else {
      var first := StatementIsItsLines(c[0], depth);
      var more := TextIsItsLines(c[1..], depth);
      texts := first + more;
      ConcatSplits(first, more);
    }
  }
}

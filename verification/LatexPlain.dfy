/** What the parser makes of plain text: its paragraphs are the blocks between blank lines, and no word is lost. */
module LatexPlain {
  import opened Utf8
  import opened Document
  import opened LatexText
  import opened LatexCursor
  import opened LatexDialect
  import opened LatexParser
  import opened LatexWords

  const SPECIAL: set<char> := {'%', '$', '\\', '{', '}', '&'}

  predicate Plain(src: Text) {
    forall i | 0 <= i < |src| :: src[i] !in SPECIAL
  }

  // ---- The reference: blocks between blank lines ----

  /** The next blank line, or the end. */
  function BlockEnd(src: Text, pos: nat): (end: nat)
    requires pos <= |src|
    ensures pos <= end <= |src|
  {
    FindFrom(src, pos, "\n\n")
  }

  function OneIfAny(words: seq<Text>): seq<seq<Text>> {
    if words == [] then [] else [words]
  }

  lemma BlankLineAt(src: Text, pos: nat)
    requires Valid(src) && pos < |src| && StartsWithAt(src, pos, "\n\n")
    ensures At(src, pos) && src[pos] == '\n' && Next(src, pos) == pos + 1 && Looking(src, pos + 1, '\n')
    ensures SkipNewlines(src, pos) > pos
  {
    TwoNewlines(src, pos);
    AfterAscii(src, pos);
  }

  lemma TwoNewlines(src: Text, pos: nat)
    ensures StartsWithAt(src, pos, "\n\n") <==> Looking(src, pos, '\n') && Looking(src, pos + 1, '\n')
  {
    if pos + 2 <= |src| {
      assert src[pos..pos + 2] == [src[pos], src[pos + 1]];
    }
  }

  /** The words of the blocks behind the blank line at `end`, if there is one. */
  function Later(src: Text, end: nat): seq<seq<Text>>
    requires Valid(src) && end <= |src| && (end < |src| ==> StartsWithAt(src, end, "\n\n"))
    decreases |src| - end, 0
  {
    if end == |src| then []
    else
      BlankLineAt(src, end);
      Blocks(src, SkipNewlines(src, end))
  }

  /** The words of every block that has any, block by block. */
  function Blocks(src: Text, pos: nat): seq<seq<Text>>
    requires At(src, pos)
    decreases |src| - pos, 1
  {
    OneIfAny(Words(src[pos..BlockEnd(src, pos)])) + Later(src, BlockEnd(src, pos))
  }

  // ---- The parse ----

  function AllNodeWords(nodes: seq<DocNode>): (words: seq<seq<Text>>)
    ensures |words| == |nodes|
  {
    seq(|nodes|, i requires 0 <= i < |nodes| => NodeWords(nodes[i]))
  }

  ghost predicate OnlyParagraphs(nodes: seq<DocNode>) {
    forall node | node in nodes :: node.nodeType == Paragraph
  }

  /** What the rest of the parse will add: the open paragraph up to the next blank line, then the later blocks. */
  function Expected(src: Text, pos: nat, para: Text): seq<seq<Text>>
    requires At(src, pos)
  {
    OneIfAny(Words(para + src[pos..BlockEnd(src, pos)])) + Later(src, BlockEnd(src, pos))
  }

  lemma FlushedWords(s: ParseState, at: int)
    requires Valid(s.para) && OnlyParagraphs(s.children)
    ensures AllNodeWords(Flush(s, at).children) == AllNodeWords(s.children) + OneIfAny(Words(s.para))
    ensures OnlyParagraphs(Flush(s, at).children)
  {
    CollapseKeepsWords(s.para);
  }

  /** A character that is not a newline moves from the source to the open paragraph. */
  lemma CharMoves(src: Text, pos: nat, para: Text)
    requires At(src, pos) && pos < |src| && src[pos] != '\n' && Valid(para)
    ensures Expected(src, Next(src, pos), para + CharAt(src, pos)) == Expected(src, pos, para)
    ensures Valid(para + CharAt(src, pos))
  {
    var next := Next(src, pos);
    OtherOctet(src, pos, "\n\n");
    FindSkipsChar(src, pos, "\n\n");
    Moved(src, pos, next, BlockEnd(src, pos), para);
    CharIsValid(src, pos);
    ConcatValid(para, CharAt(src, pos));
  }

  lemma Moved(src: Text, pos: nat, next: nat, end: nat, para: Text)
    requires pos <= next <= end <= |src|
    ensures para + src[pos..next] + src[next..end] == para + src[pos..end]
  {
    assert src[pos..next] + src[next..end] == src[pos..end];
  }

  lemma CharIsValid(src: Text, pos: nat)
    requires At(src, pos) && pos < |src|
    ensures Valid(CharAt(src, pos))
  {
    SliceValid(src, pos, Next(src, pos));
  }

  /** What a single newline leaves of the open paragraph. */
  function AfterNewline(para: Text): Text {
    if EndsInBlank(para) || para == [] then para else para + " "
  }

  lemma NewlineIsSpace(para: Text, rest: Text)
    requires Valid(para)
    ensures Valid(AfterNewline(para)) && Words(AfterNewline(para) + rest) == Words(para + ("\n" + rest))
  {
    WordsAroundChar(para, '\n', rest);
    if para == [] {
      assert para + rest == rest;
    } else if EndsInBlank(para) {
      BlankEnd(para, rest);
    } else {
      assert para + " " + rest == para + (" " + rest);
      WordsAroundChar(para, ' ', rest);
      ConcatValid(para, " ");
    }
  }

  lemma BlankEnd(para: Text, rest: Text)
    requires Valid(para) && EndsInBlank(para)
    ensures Words(para + rest) == Words(para) + Words(rest)
  {
    var n := |para| - 1;
    AfterAscii(para, n);
    SplitValid(para, n);
    assert para == para[..n] + " ";
    BlankBetween(para[..n], rest);
  }

  lemma BlankBetween(stem: Text, rest: Text)
    requires Valid(stem)
    ensures Words(stem + " " + rest) == Words(stem + " ") + Words(rest)
  {
    WordsAroundChar(stem, ' ', rest);
    WordsAroundChar(stem, ' ', []);
    assert stem + " " + rest == stem + (" " + rest);
    assert " " + [] == " " && Words(stem) + [] == Words(stem);
  }

  lemma NewlineJoins(src: Text, pos: nat, para: Text)
    requires At(src, pos) && Looking(src, pos, '\n') && !Looking(src, pos + 1, '\n') && Valid(para)
    ensures Expected(src, Next(src, pos), AfterNewline(para)) == Expected(src, pos, para)
    ensures Valid(AfterNewline(para))
  {
    var next, end := Next(src, pos), BlockEnd(src, pos);
    TwoNewlines(src, pos);
    FindSkipsChar(src, pos, "\n\n");
    assert src[pos..end] == "\n" + src[next..end];
    NewlineIsSpace(para, src[next..end]);
  }

  lemma NothingOpen(src: Text, pos: nat)
    requires At(src, pos)
    ensures Expected(src, pos, []) == Blocks(src, pos)
  {
    assert [] + src[pos..BlockEnd(src, pos)] == src[pos..BlockEnd(src, pos)];
  }

  lemma BlankLineCloses(src: Text, pos: nat, para: Text, behind: nat)
    requires At(src, pos) && Looking(src, pos, '\n') && Looking(src, pos + 1, '\n')
    requires behind == SkipNewlines(src, pos)
    ensures Expected(src, pos, para) == OneIfAny(Words(para)) + Expected(src, behind, [])
  {
    TwoNewlines(src, pos);
    assert BlockEnd(src, pos) == pos && para + src[pos..pos] == para;
    NothingOpen(src, behind);
  }

  /** Nothing is gained or lost between two states of the loop. */
  ghost predicate SameWords(src: Text, s: ParseState, t: ParseState)
    requires At(src, s.pos) && At(src, t.pos)
  {
    AllNodeWords(t.children) + Expected(src, t.pos, t.para) == AllNodeWords(s.children) + Expected(src, s.pos, s.para)
  }

  lemma BlankLineKeepsWords(src: Text, s: ParseState)
    requires At(src, s.pos) && Looking(src, s.pos, '\n') && Looking(src, Next(src, s.pos), '\n')
    requires Valid(s.para) && OnlyParagraphs(s.children)
    ensures var t := NewlineStep(src, s);
      Valid(t.para) && OnlyParagraphs(t.children) && At(src, t.pos) && SameWords(src, s, t)
  {
    var behind := SkipNewlines(src, s.pos);
    BlankLineCloses(src, s.pos, s.para, behind);
    FlushedWords(s, behind);
    RegroupAll(AllNodeWords(s.children), OneIfAny(Words(s.para)), Expected(src, behind, []));
  }

  lemma RegroupAll(a: seq<seq<Text>>, b: seq<seq<Text>>, c: seq<seq<Text>>)
    ensures a + (b + c) == a + b + c
  {
  }

  lemma PlainTurn(src: Text, s: ParseState, d: Dialect)
    requires Plain(src) && At(src, s.pos) && s.pos < |src|
    ensures Step(src, s, d)
         == if src[s.pos] == '\n' then NewlineStep(src, s)
            else s.(pos := Next(src, s.pos), para := s.para + CharAt(src, s.pos))
  {
    assert src[s.pos] !in SPECIAL;
  }

  /** One turn of the loop on plain text changes neither what has been found nor what is still expected. */
  lemma StepKeepsWords(src: Text, s: ParseState, d: Dialect)
    requires Plain(src) && At(src, s.pos) && s.pos < |src| && Valid(s.para) && OnlyParagraphs(s.children)
    ensures var t := Step(src, s, d);
      Valid(t.para) && OnlyParagraphs(t.children) && SameWords(src, s, t)
  {
    PlainTurn(src, s, d);
    if src[s.pos] != '\n' {
      CharMoves(src, s.pos, s.para);
    } else if Looking(src, Next(src, s.pos), '\n') {
      BlankLineKeepsWords(src, s);
    } else {
      NewlineJoins(src, s.pos, s.para);
    }
  }

  lemma {:induction false} RunKeepsWords(src: Text, s: ParseState, d: Dialect)
    requires Plain(src) && At(src, s.pos) && Valid(s.para) && OnlyParagraphs(s.children)
    ensures var t := Run(src, s, d);
      && Valid(t.para) && OnlyParagraphs(t.children) && t.pos == |src|
      && AllNodeWords(t.children) + OneIfAny(Words(t.para)) == AllNodeWords(s.children) + Expected(src, s.pos, s.para)
    decreases |src| - s.pos
  {
    if s.pos < |src| {
      assert src[s.pos] !in SPECIAL;
      OtherOctet(src, s.pos, END_DOCUMENT);
      StepKeepsWords(src, s, d);
      RunKeepsWords(src, Step(src, s, d), d);
    } else {
      assert s.para + src[s.pos..] == s.para;
    }
  }

  lemma {:induction false} NotFound(src: Text, pos: nat, marker: Text)
    requires marker != [] && pos <= |src| && forall i | pos <= i < |src| :: src[i] != marker[0]
    ensures FindFrom(src, pos, marker) == |src|
    decreases |src| - pos
  {
    if pos < |src| {
      OtherOctet(src, pos, marker);
      NotFound(src, pos + 1, marker);
    }
  }

  lemma PlainInitial(src: Text)
    requires Valid(src) && Plain(src)
    ensures Initial(src) == ParseState(0, [], 0, [])
  {
    forall i | 0 <= i < |src| ensures src[i] != '\\' {
      assert src[i] !in SPECIAL;
    }
    NotFound(src, 0, BEGIN_DOCUMENT);
    var preamble := src[..|src|];
    assert preamble == src;
    NotFound(src, 0, "\\" + "title");
    NotFound(src, 0, "\\" + "author");
  }

  /** Plain text becomes paragraphs only: one for every block between blank lines that is not blank, in
      order, with exactly the block's words. */
  lemma PlainParagraphs(src: Text, d: Dialect)
    requires Valid(src) && Plain(src)
    ensures OnlyParagraphs(ParseLatex(src, d).children)
    ensures AllNodeWords(ParseLatex(src, d).children) == Blocks(src, 0)
  {
    PlainInitial(src);
    var s := Initial(src);
    RunKeepsWords(src, s, d);
    var t := Run(src, s, d);
    FlushedWords(t, t.pos);
    NothingOpen(src, 0);
  }

  // ---- No word is lost ----

  function Flat(words: seq<seq<Text>>): seq<Text> {
    if words == [] then [] else words[0] + Flat(words[1..])
  }

  lemma {:induction false} NewlinesAreBlank(src: Text, pos: nat)
    requires At(src, pos)
    ensures Words(src[pos..]) == Words(src[SkipNewlines(src, pos)..])
    decreases |src| - pos
  {
    if Looking(src, pos, '\n') {
      AfterAscii(src, pos);
      assert Next(src, pos) == pos + 1;
      NewlinesAreBlank(src, pos + 1);
      NewlineIsBlank(src, pos);
    }
  }

  lemma NewlineIsBlank(src: Text, pos: nat)
    requires Looking(src, pos, '\n')
    ensures Words(src[pos..]) == Words(src[pos + 1..])
  {
    var rest := src[pos..];
    SpaceFirst(rest);
    assert rest[1..] == src[pos + 1..];
  }

  lemma {:induction false} BlocksKeepWords(src: Text, pos: nat)
    requires At(src, pos)
    ensures Flat(Blocks(src, pos)) == Words(src[pos..])
    decreases |src| - pos
  {
    var end := BlockEnd(src, pos);
    var block, rest := src[pos..end], src[end..];
    assert src[pos..] == block + rest;
    if end < |src| {
      BlankLineAt(src, end);
      SliceValid(src, pos, end);
      assert rest[0] == '\n';
      WordsSplit(block, rest);
      NewlinesAreBlank(src, end);
      BlocksKeepWords(src, SkipNewlines(src, end));
    } else {
      assert block == src[pos..];
    }
    FlatSplit(Words(block), Later(src, end));
  }

  lemma FlatSplit(words: seq<Text>, later: seq<seq<Text>>)
    ensures Flat(OneIfAny(words) + later) == words + Flat(later)
  {
    if words == [] {
      assert OneIfAny(words) + later == later;
    } else {
      assert (OneIfAny(words) + later)[1..] == later;
    }
  }

  /** The paragraphs of plain text hold all its words, in order. */
  lemma PlainTextKeepsWords(src: Text, d: Dialect)
    requires Valid(src) && Plain(src)
    ensures Flat(AllNodeWords(ParseLatex(src, d).children)) == Words(src)
  {
    PlainParagraphs(src, d);
    BlocksKeepWords(src, 0);
    assert src[0..] == src;
  }
}

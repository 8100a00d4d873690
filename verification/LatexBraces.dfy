/** Reading a braced argument: the preamble scanner, and its agreement with the cursor on balanced text. */
module LatexBraces {
  import opened Wrappers
  import opened Utf8
  import opened LatexText
  import opened LatexCursor

  // ---- The preamble scanner ----

  function DropBlanks(t: Text): Text {
    if t != [] && (t[0] == ' ' || t[0] == '\t') then DropBlanks(t[1..]) else t
  }

  function DropOption(t: Text): Text {
    if t != [] && t[0] == '[' then
      var close := FindFrom(t, 0, "]");
      if close < |t| then t[close + 1..] else []
    else t
  }

  /** The text up to the brace that closes nesting `depth`, appended to `content`. */
  function ArgBody(t: Text, depth: nat, content: Text): Text
    requires depth > 0
  {
    if t == [] then content
    else if t[0] == '{' then ArgBody(t[1..], depth + 1, content + "{")
    else if t[0] == '}' then if depth == 1 then content else ArgBody(t[1..], depth - 1, content + "}")
    else ArgBody(t[1..], depth, content + [t[0]])
  }

  function NonEmpty(t: Text): Option<Text> {
    if t == [] then None else Some(t)
  }

  /** What follows a command name: perhaps an option, then the braces. */
  function ArgumentOf(behind: Text): Option<Text> {
    var after := DropBlanks(DropOption(DropBlanks(behind)));
    if after == [] || after[0] != '{' then None else NonEmpty(Trim(ArgBody(after[1..], 1, [])))
  }

  /** The text behind the first place where `\cmd` occurs. */
  function BehindCommand(src: Text, cmd: Text): Option<Text> {
    var pattern := "\\" + cmd;
    var idx := FindFrom(src, 0, pattern);
    if idx == |src| then None else Some(src[idx + |pattern|..])
  }

  /** `\cmd{...}`, at that place. */
  function CommandArg(src: Text, cmd: Text): Option<Text> {
    match BehindCommand(src, cmd)
    case None => None
    case Some(behind) => ArgumentOf(behind)
  }

  method ExtractCommandArg(src: Text, cmd: Text) returns (arg: Option<Text>)
    ensures arg == CommandArg(src, cmd)
  {
    var pattern := "\\" + cmd;
    var idx := FindFrom(src, 0, pattern);
    if idx == |src| {
      return None;
    }
    var after := DropBlanks(DropOption(DropBlanks(src[idx + |pattern|..])));
    if after == [] || after[0] != '{' {
      return None;
    }
    var content := ReadArgBody(after[1..]);
    content := Trim(content);
    arg := if content == [] then None else Some(content);
  }

  /** The scanner's loop over the characters behind the brace. */
  method ReadArgBody(text: Text) returns (content: Text)
    ensures content == ArgBody(text, 1, [])
  {
    var rest := text;
    var depth: nat := 1;
    content := [];
    while rest != []
      invariant depth > 0
      invariant ArgBody(rest, depth, content) == ArgBody(text, 1, [])
      decreases |rest|
    {
      var c := rest[0];
      rest := rest[1..];
      if c == '{' {
        depth := depth + 1;
      } else if c == '}' {
        if depth == 1 {
          return;
        }
        depth := depth - 1;
      }
      content := content + [c];
    }
  }

  // ---- Balanced text ----

  function Level(t: Text, depth: int): int {
    if t == [] then depth
    else Level(t[1..], if t[0] == '{' then depth + 1 else if t[0] == '}' then depth - 1 else depth)
  }

  /** Starting inside `depth` braces, the text never closes the outermost of them. */
  predicate StaysOpen(t: Text, depth: int) {
    depth > 0
    && (t == []
        || StaysOpen(t[1..], if t[0] == '{' then depth + 1 else if t[0] == '}' then depth - 1 else depth))
  }

  predicate Balanced(t: Text) {
    StaysOpen(t, 1) && Level(t, 1) == 1
  }

  predicate Plain(t: Text) {
    '\\' !in t && '%' !in t
  }

  lemma {:induction false} SkipNonBraces(a: Text, b: Text, depth: int)
    requires '{' !in a && '}' !in a && StaysOpen(a + b, depth)
    ensures Level(a + b, depth) == Level(b, depth) && StaysOpen(b, depth)
  {
    if a == [] {
      assert a + b == b;
    } else {
      assert (a + b)[1..] == a[1..] + b && (a + b)[0] == a[0];
      SkipNonBraces(a[1..], b, depth);
    }
  }

  lemma NameBalanced(name: Text)
    requires '{' !in name && '}' !in name
    ensures Balanced(name)
  {
    assert name + [] == name;
    StaysOpenWithout(name, 1);
    SkipNonBraces(name, [], 1);
  }

  lemma {:induction false} StaysOpenWithout(t: Text, depth: int)
    requires depth > 0 && '{' !in t && '}' !in t
    ensures StaysOpen(t, depth)
  {
    if t != [] {
      assert t[0] in t && forall c | c in t[1..] :: c in t;
      StaysOpenWithout(t[1..], depth);
    }
  }

  function Inside(head: Text, depth: int): int {
    if head == "{" then depth + 1 else if head == "}" then depth - 1 else depth
  }

  lemma AfterHead(head: Text, rest: Text, depth: int)
    requires head == "{" || head == "}" || ('{' !in head && '}' !in head)
    requires StaysOpen(head + rest, depth)
    ensures Level(head + rest, depth) == Level(rest, Inside(head, depth)) && StaysOpen(rest, Inside(head, depth))
  {
    if head == "{" || head == "}" {
      assert (head + rest)[1..] == rest;
    } else {
      SkipNonBraces(head, rest, depth);
    }
  }

  /** A character before an ASCII octet ends before it, and is free of braces unless it is one. */
  lemma PeelChar(src: Text, pos: nat, e: nat)
    requires At(src, pos) && pos < e < |src| && src[e] as int < 0x80
    ensures Next(src, pos) <= e && src[pos..e] == CharAt(src, pos) + src[Next(src, pos)..e]
    ensures src[pos] as int < 0x80 ==> CharAt(src, pos) == [src[pos]]
    ensures src[pos] as int >= 0x80 ==> forall k | 0 <= k < |CharAt(src, pos)| :: CharAt(src, pos)[k] as int >= 0x80
  {
    NextBoundary(src, pos);
    var rest, next := src[pos..], Next(src, pos);
    forall k: nat | pos < k < next
      ensures src[k] as int >= 0x80
    {
      assert rest[k - pos] == src[k] && IsContinuation(rest[k - pos]);
    }
    assert next <= e;
    SliceSplits(src, pos, next, e);
    forall k | 0 <= k < |CharAt(src, pos)|
      ensures CharAt(src, pos)[k] == src[pos + k]
    {
    }
  }

  lemma SliceSplits(src: Text, a: nat, b: nat, c: nat)
    requires a <= b <= c <= |src|
    ensures src[a..c] == src[a..b] + src[b..c]
  {
  }

  /** From inside, the reader copies balanced plain text and stops behind the closing brace. */
  lemma {:induction false} BodyIsCopied(src: Text, pos: nat, e: nat, depth: nat, content: Text, letters: set<Text>)
    requires At(src, pos) && pos <= e < |src| && src[e] == '}'
    requires Plain(src[pos..e]) && StaysOpen(src[pos..e], depth) && Level(src[pos..e], depth) == 1
    ensures BracedBody(src, pos, depth, content, letters) == (content + src[pos..e], e + 1)
    decreases e - pos
  {
    if pos == e {
      AfterAscii(src, e);
      assert content + src[pos..e] == content;
      assert BracedBody(src, e + 1, 0, content, letters) == (content, e + 1);
    } else {
      PeelChar(src, pos, e);
      var head, next := CharAt(src, pos), Next(src, pos);
      var rest := src[next..e];
      AfterHead(head, rest, depth);
      assert head[0] == src[pos] && head[0] in head;
      BodyIsCopied(src, next, e, Inside(head, depth), content + head, letters);
      assert content + head + rest == content + src[pos..e];
    }
  }

  lemma {:induction false} ArgBodyIsCopied(arg: Text, post: Text, depth: nat, content: Text)
    requires StaysOpen(arg, depth) && Level(arg, depth) == 1
    ensures ArgBody(arg + "}" + post, depth, content) == content + arg
  {
    var t := arg + "}" + post;
    if arg == [] {
      assert content + arg == content;
    } else {
      assert t[1..] == arg[1..] + "}" + post && t[0] == arg[0];
      var inner := if arg[0] == '{' then depth + 1 else if arg[0] == '}' then depth - 1 else depth;
      ArgBodyIsCopied(arg[1..], post, inner, content + [arg[0]]);
      assert content + [arg[0]] + arg[1..] == content + arg;
    }
  }

  /** A braced argument written at `p` in the source. */
  predicate ArgumentAt(src: Text, p: nat, arg: Text) {
    p + |arg| + 2 <= |src| && src[p..p + |arg| + 2] == "{" + arg + "}"
  }

  lemma ArgumentParts(src: Text, p: nat, arg: Text)
    requires ArgumentAt(src, p, arg)
    ensures src[p] == '{' && src[p + 1..p + 1 + |arg|] == arg && src[p + 1 + |arg|] == '}'
    ensures src[p..][1..] == arg + "}" + src[p + |arg| + 2..]
  {
    var e := p + 1 + |arg|;
    var written := src[p..e + 1];
    assert src[p] == written[0] && src[e] == written[e - p] && src[p + 1..e] == written[1..e - p];
    assert src[p..][1..] == src[p + 1..e] + [src[e]] + src[e + 1..];
  }

  lemma ArgumentIsCopied(src: Text, pos: nat, arg: Text, letters: set<Text>)
    requires At(src, pos) && pos + |arg| < |src| && src[pos..pos + |arg|] == arg && src[pos + |arg|] == '}'
    requires Balanced(arg) && Plain(arg)
    ensures BracedBody(src, pos, 1, [], letters) == (arg, pos + |arg| + 1)
  {
    BodyIsCopied(src, pos, pos + |arg|, 1, [], letters);
    assert [] + arg == arg;
  }

  lemma OpensBody(src: Text, p: nat, letters: set<Text>, content: Text, next: nat)
    requires At(src, p) && Looking(src, p, '{') && At(src, p + 1)
    requires BracedBody(src, p + 1, 1, [], letters) == (content, next)
    ensures BracedArg(src, p, letters) == (Trim(content), next)
  {
  }

  lemma CursorReadsArgument(src: Text, p: nat, arg: Text, letters: set<Text>)
    requires At(src, p) && Looking(src, p, '{') && At(src, p + 1)
    requires p + 1 + |arg| < |src| && src[p + 1..p + 1 + |arg|] == arg && src[p + 1 + |arg|] == '}'
    requires Balanced(arg) && Plain(arg)
    ensures BracedArg(src, p, letters) == (Trim(arg), p + |arg| + 2)
  {
    ArgumentIsCopied(src, p + 1, arg, letters);
    OpensBody(src, p, letters, arg, p + |arg| + 2);
  }

  lemma ScanArgument(behind: Text, arg: Text, post: Text)
    requires behind != [] && behind[0] == '{' && behind[1..] == arg + "}" + post && Balanced(arg)
    ensures ArgumentOf(behind) == NonEmpty(Trim(arg))
  {
    ArgBodyIsCopied(arg, post, 1, []);
    assert [] + arg == arg;
  }

  lemma FoundCommand(src: Text, p: nat, cmd: Text)
    requires FindFrom(src, 0, "\\" + cmd) + 1 + |cmd| == p <= |src|
    ensures BehindCommand(src, cmd) == Some(src[p..])
  {
  }

  lemma {:induction false} BlanksDropped(src: Text, p: nat)
    requires At(src, p)
    ensures DropBlanks(src[p..]) == src[SkipBlanks(src, p)..]
    decreases |src| - p
  {
    if Looking(src, p, ' ') || Looking(src, p, '\t') {
      AfterAscii(src, p);
      assert Next(src, p) == p + 1 && src[p..][1..] == src[p + 1..];
      BlanksDropped(src, p + 1);
    }
  }

  lemma CursorReadsBlanks(src: Text, p: nat, q: nat, arg: Text, letters: set<Text>)
    requires At(src, p) && q == SkipBlanks(src, p) && ArgumentAt(src, q, arg) && Balanced(arg) && Plain(arg)
    ensures BracedArg(src, p, letters) == (Trim(arg), q + |arg| + 2)
  {
    ArgumentParts(src, q, arg);
    AfterAscii(src, q);
    CursorReadsArgument(src, q, arg, letters);
  }

  lemma {:induction false} ScannerReadsBlanks(src: Text, p: nat, q: nat, arg: Text)
    requires At(src, p) && q == SkipBlanks(src, p) && ArgumentAt(src, q, arg) && Balanced(arg)
    ensures ArgumentOf(src[p..]) == NonEmpty(Trim(arg))
  {
    ArgumentParts(src, q, arg);
    BlanksDropped(src, p);
    ScanArgument(src[q..], arg, src[q + |arg| + 2..]);
  }

  lemma {:induction false} ScannerReads(src: Text, p: nat, q: nat, cmd: Text, arg: Text)
    requires FindFrom(src, 0, "\\" + cmd) + 1 + |cmd| == p
    requires At(src, p) && q == SkipBlanks(src, p) && ArgumentAt(src, q, arg) && Balanced(arg)
    ensures CommandArg(src, cmd) == NonEmpty(Trim(arg))
  {
    ScannerReadsBlanks(src, p, q, arg);
    FoundCommand(src, p, cmd);
  }

  /** On balanced text without `\` and `%`, with or without blanks before the brace, the two readers
      agree: both return the trimmed argument (the scanner reports an empty one as missing), and the
      cursor stops behind the matching brace. `p` is where the command's first occurrence ends, `q`
      where the brace opens. */
  lemma {:induction false} BraceReadersAgree(src: Text, p: nat, q: nat, cmd: Text, arg: Text, letters: set<Text>)
    requires FindFrom(src, 0, "\\" + cmd) + 1 + |cmd| == p
    requires At(src, p) && q == SkipBlanks(src, p) && ArgumentAt(src, q, arg) && Balanced(arg) && Plain(arg)
    ensures BracedArg(src, p, letters) == (Trim(arg), q + |arg| + 2)
    ensures CommandArg(src, cmd) == NonEmpty(Trim(arg))
  {
    CursorReadsBlanks(src, p, q, arg, letters);
    ScannerReads(src, p, q, cmd, arg);
  }
}

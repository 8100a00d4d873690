/** The cursor of the LaTeX parser: what each low-level reader returns and where it stops, first as
    functions of the source and a position, then as methods that advance `pos`. */
module LatexCursor {
  import opened Wrappers
  import opened Utf8
  import opened LatexText

  /** A well-formed source and a cursor on one of its character boundaries. */
  predicate At(src: Text, pos: nat) {
    Valid(src) && pos <= |src| && Boundary(src, pos)
  }

  /** Where a reader may leave the cursor: on a boundary, never before where it started. */
  predicate Onward(src: Text, from: nat, to: nat) {
    At(src, to) && from <= to
  }

  function Next(src: Text, pos: nat): (next: nat)
    requires At(src, pos) && pos < |src|
    ensures Onward(src, pos, next) && pos < next
  {
    NextBoundary(src, pos);
    pos + CharLen(src[pos])
  }

  function CharAt(src: Text, pos: nat): Text
    requires At(src, pos) && pos < |src|
  {
    src[pos..Next(src, pos)]
  }

  predicate Looking(src: Text, pos: nat, c: char) {
    pos < |src| && src[pos] == c
  }

  function SkipComment(src: Text, pos: nat): (next: nat)
    requires At(src, pos)
    ensures Onward(src, pos, next)
    decreases |src| - pos
  {
    if pos == |src| then pos
    else if src[pos] == '\n' then Next(src, pos)
    else SkipComment(src, Next(src, pos))
  }

  function SkipBlanks(src: Text, pos: nat): (next: nat)
    requires At(src, pos)
    ensures Onward(src, pos, next)
    decreases |src| - pos
  {
    if Looking(src, pos, ' ') || Looking(src, pos, '\t') then SkipBlanks(src, Next(src, pos)) else pos
  }

  /** Alphabetic characters: the ASCII letters and whatever multi-octet characters `letters` lists. */
  predicate IsLetter(c: Text, letters: set<Text>) {
    (|c| == 1 && (InRange(c[0], 65, 90) || InRange(c[0], 97, 122))) || (|c| > 1 && c in letters)
  }

  predicate LetterAt(src: Text, pos: nat, letters: set<Text>)
    requires At(src, pos)
  {
    pos < |src| && IsLetter(CharAt(src, pos), letters)
  }

  function LettersEnd(src: Text, pos: nat, letters: set<Text>): (end: nat)
    requires At(src, pos)
    ensures Onward(src, pos, end)
    decreases |src| - pos
  {
    if LetterAt(src, pos, letters) then LettersEnd(src, Next(src, pos), letters) else pos
  }

  /** A command name after the backslash: a run of letters with the blanks behind it, or one character. */
  function CommandName(src: Text, pos: nat, letters: set<Text>): (r: (Text, nat))
    requires At(src, pos)
    ensures Onward(src, pos, r.1)
  {
    if pos == |src| then ([], pos)
    else if LetterAt(src, pos, letters) then
      var end := LettersEnd(src, pos, letters);
      (src[pos..end], SkipBlanks(src, end))
    else (CharAt(src, pos), Next(src, pos))
  }

  const FORMATTING: set<Text> := {"textbf", "textit", "texttt", "emph", "text"}

  /** The inside of a braced argument, from `pos` at nesting `depth`, appended to `content`. */
  function BracedBody(src: Text, pos: nat, depth: nat, content: Text, letters: set<Text>): (r: (Text, nat))
    requires At(src, pos)
    ensures Onward(src, pos, r.1)
    decreases |src| - pos, 1
  {
    if pos == |src| || depth == 0 then (content, pos)
    else if src[pos] == '{' then BracedBody(src, Next(src, pos), depth + 1, content + "{", letters)
    else if src[pos] == '}' then
      BracedBody(src, Next(src, pos), depth - 1, if depth > 1 then content + "}" else content, letters)
    else if src[pos] == '%' then BracedBody(src, SkipComment(src, Next(src, pos)), depth, content, letters)
    else if src[pos] == '\\' then
      var (inner, next) := BracedCommand(src, Next(src, pos), letters);
      BracedBody(src, next, depth, content + inner, letters)
    else BracedBody(src, Next(src, pos), depth, content + CharAt(src, pos), letters)
  }

  /** What a command inside an argument contributes. */
  function BracedCommand(src: Text, pos: nat, letters: set<Text>): (r: (Text, nat))
    requires At(src, pos)
    ensures Onward(src, pos, r.1)
    decreases |src| - pos, 3
  {
    var (name, next) := CommandName(src, pos, letters);
    if name in {"{", "}", "%"} then (name, next)
    else if name in FORMATTING then BracedArg(src, next, letters)
    else ([], next)
  }

  /** A required `{...}` argument; blanks before it are consumed even when it is missing. */
  function BracedArg(src: Text, pos: nat, letters: set<Text>): (r: (Text, nat))
    requires At(src, pos)
    ensures Onward(src, pos, r.1)
    decreases |src| - pos, 2
  {
    var open := SkipBlanks(src, pos);
    if !Looking(src, open, '{') then ([], open)
    else
      var (content, next) := BracedBody(src, Next(src, open), 1, [], letters);
      (Trim(content), next)
  }

  function BracketBody(src: Text, pos: nat, depth: nat, content: Text): (r: (Text, nat))
    requires At(src, pos)
    ensures Onward(src, pos, r.1)
    decreases |src| - pos
  {
    if pos == |src| || depth == 0 then (content, pos)
    else if src[pos] == '[' then BracketBody(src, Next(src, pos), depth + 1, content + "[")
    else if src[pos] == ']' then
      BracketBody(src, Next(src, pos), depth - 1, if depth > 1 then content + "]" else content)
    else BracketBody(src, Next(src, pos), depth, content + CharAt(src, pos))
  }

  /** An optional `[...]` argument. */
  function OptionalArg(src: Text, pos: nat): (r: (Option<Text>, nat))
    requires At(src, pos)
    ensures Onward(src, pos, r.1)
  {
    var open := SkipBlanks(src, pos);
    if !Looking(src, open, '[') then (None, open)
    else
      var (content, next) := BracketBody(src, Next(src, open), 1, []);
      (Some(content), next)
  }

  function EndMarker(env: Text): (m: Text)
    ensures |m| >= 6 && m[0] == '\\' && m[|m| - 1] == '}'
  {
    "\\end{" + env + "}"
  }

  /** The raw text up to the end marker (or the end of the source), appended to `body`. */
  function EnvBody(src: Text, pos: nat, env: Text, body: Text): (r: (Text, nat))
    requires At(src, pos)
    ensures Onward(src, pos, r.1)
    decreases |src| - pos
  {
    if pos == |src| then (body, pos)
    else if StartsWithAt(src, pos, EndMarker(env)) then
      var next := pos + |EndMarker(env)|;
      assert src[next - 1] == EndMarker(env)[|EndMarker(env)| - 1];
      AfterAscii(src, next - 1);
      (body, next)
    else EnvBody(src, Next(src, pos), env, body + CharAt(src, pos))
  }

  /** The text up to an ASCII needle, and the position behind the needle. */
  function Until(src: Text, pos: nat, needle: Text): (r: (Text, nat))
    requires At(src, pos) && needle != [] && needle[|needle| - 1] as int < 0x80
    ensures Onward(src, pos, r.1)
  {
    var i := FindFrom(src, pos, needle);
    if i < |src| then
      assert src[i..i + |needle|][|needle| - 1] == src[i + |needle| - 1];
      AfterAscii(src, i + |needle| - 1);
      (src[pos..i], i + |needle|)
    else (src[pos..], |src|)
  }

  /** The continuation octets of a character do not start a marker. */
  lemma FindSkipsChar(src: Text, pos: nat, marker: Text)
    requires At(src, pos) && pos < |src| && marker != [] && marker[0] as int < 0x80
    requires !StartsWithAt(src, pos, marker)
    ensures FindFrom(src, pos, marker) == FindFrom(src, Next(src, pos), marker)
  {
    NextBoundary(src, pos);
    var rest, next := src[pos..], Next(src, pos);
    forall k: nat | pos < k < next
      ensures !StartsWithAt(src, k, marker)
    {
      assert IsContinuation(rest[k - pos]);
      OtherOctet(src, k, marker);
    }
    SameFind(src, pos, next, marker);
  }

  // ---- The cursor object ----

  class Cursor {
    const src: Text
    const letters: set<Text>
    var pos: nat

    constructor (src: Text, letters: set<Text>)
      ensures this.src == src && this.letters == letters && pos == 0
    {
      this.src, this.letters, pos := src, letters, 0;
    }

    predicate Ready()
      reads this
    {
      At(src, pos)
    }

    method AdvanceChar()
      requires Ready() && pos < |src|
      modifies this
      ensures Ready() && pos == Next(src, old(pos))
    {
      pos := Next(src, pos);
    }

    method SkipCommentBody()
      requires Ready()
      modifies this
      ensures Ready() && pos == SkipComment(src, old(pos))
    {
      while pos < |src|
        invariant Ready() && SkipComment(src, pos) == SkipComment(src, old(pos))
        decreases |src| - pos
      {
        var c := src[pos];
        AdvanceChar();
        if c == '\n' {
          return;
        }
      }
    }

    method SkipInlineWhitespace()
      requires Ready()
      modifies this
      ensures Ready() && pos == SkipBlanks(src, old(pos))
    {
      while pos < |src| && (src[pos] == ' ' || src[pos] == '\t')
        invariant Ready() && SkipBlanks(src, pos) == SkipBlanks(src, old(pos))
        decreases |src| - pos
      {
        AdvanceChar();
      }
    }

    method ReadCommandName() returns (name: Text)
      requires Ready()
      modifies this
      ensures Ready() && (name, pos) == CommandName(src, old(pos), letters)
    {
      name := [];
      if pos == |src| {
        return;
      }
      if LetterAt(src, pos, letters) {
        while LetterAt(src, pos, letters)
          invariant Ready() && old(pos) <= pos && name == src[old(pos)..pos]
          invariant LettersEnd(src, pos, letters) == LettersEnd(src, old(pos), letters)
          decreases |src| - pos
        {
          name := name + CharAt(src, pos);
          AdvanceChar();
        }
        SkipInlineWhitespace();
      } else {
        name := CharAt(src, pos);
        AdvanceChar();
      }
    }

    method ReadBracedArg() returns (text: Text)
      requires Ready()
      modifies this
      ensures Ready() && (text, pos) == BracedArg(src, old(pos), letters)
      decreases |src| - pos
    {
      SkipInlineWhitespace();
      if !Looking(src, pos, '{') {
        return [];
      }
      AdvanceChar();
      var depth: nat := 1;
      var content: Text := [];
      ghost var inside := pos;
      while pos < |src| && depth > 0
        invariant Ready() && pos >= inside > old(pos)
        invariant BracedBody(src, pos, depth, content, letters) == BracedBody(src, inside, 1, [], letters)
        decreases |src| - pos
      {
        var c := src[pos];
        if c == '{' {
          AdvanceChar();
          depth := depth + 1;
          content := content + "{";
        } else if c == '}' {
          AdvanceChar();
          depth := depth - 1;
          if depth > 0 {
            content := content + "}";
          }
        } else if c == '%' {
          AdvanceChar();
          SkipCommentBody();
        } else if c == '\\' {
          AdvanceChar();
          var inner := ReadInnerCommand();
          content := content + inner;
        } else {
          content := content + CharAt(src, pos);
          AdvanceChar();
        }
      }
      text := Trim(content);
    }

    method ReadInnerCommand() returns (inner: Text)
      requires Ready()
      modifies this
      ensures Ready() && (inner, pos) == BracedCommand(src, old(pos), letters)
      decreases |src| - pos, 1
    {
      var name := ReadCommandName();
      if name in {"{", "}", "%"} {
        inner := name;
      } else if name in FORMATTING {
        inner := ReadBracedArg();
      } else {
        inner := [];
      }
    }

    method ReadOptionalArg() returns (text: Option<Text>)
      requires Ready()
      modifies this
      ensures Ready() && (text, pos) == OptionalArg(src, old(pos))
    {
      SkipInlineWhitespace();
      if !Looking(src, pos, '[') {
        return None;
      }
      AdvanceChar();
      var depth: nat := 1;
      var content: Text := [];
      ghost var inside := pos;
      while pos < |src| && depth > 0
        invariant Ready()
        invariant BracketBody(src, pos, depth, content) == BracketBody(src, inside, 1, [])
        decreases |src| - pos
      {
        var c := src[pos];
        if c == '[' {
          depth := depth + 1;
          content := content + "[";
        } else if c == ']' {
          depth := depth - 1;
          if depth > 0 {
            content := content + "]";
          }
        } else {
          content := content + CharAt(src, pos);
        }
        AdvanceChar();
      }
      text := Some(content);
    }

    method ReadEnvBodyVerbatim(env: Text) returns (body: Text)
      requires Ready()
      modifies this
      ensures Ready() && (body, pos) == EnvBody(src, old(pos), env, [])
    {
      var endMarker := EndMarker(env);
      body := [];
      while pos < |src|
        invariant Ready()
        invariant EnvBody(src, pos, env, body) == EnvBody(src, old(pos), env, [])
        decreases |src| - pos
      {
        if StartsWithAt(src, pos, endMarker) {
          pos := pos + |endMarker|;
          return;
        }
        body := body + CharAt(src, pos);
        AdvanceChar();
      }
    }

    method ReadUntilStr(needle: Text) returns (body: Text)
      requires Ready() && needle != [] && needle[|needle| - 1] as int < 0x80
      modifies this
      ensures Ready() && (body, pos) == Until(src, old(pos), needle)
      ensures var cut := old(pos) + |body|;
        && cut <= |src| && body == src[old(pos)..cut]
        && (forall k: nat | old(pos) <= k < cut :: !StartsWithAt(src, k, needle))
        && (if cut < |src| then StartsWithAt(src, cut, needle) && pos == cut + |needle| else pos == |src|)
    {
      var i := FindFrom(src, pos, needle);
      ghost var r := Until(src, pos, needle);
      if i < |src| {
        body := src[pos..i];
        pos := i + |needle|;
      } else {
        body := src[pos..];
        pos := |src|;
      }
    }
  }
}

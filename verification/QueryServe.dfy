/** The server half of the daemon: one reply line for each non-blank request line. */
module QueryServe {
  import opened Strings

  /** The text up to and including the first newline, or all of it. */
  function FirstLine(input: string): (line: string)
    ensures |line| <= |input| && line == input[..|line|]
    ensures input != [] ==> line != []
  {
    if input == [] then [] else if input[0] == '\n' then ['\n'] else [input[0]] + FirstLine(input[1..])
  }

  /** The requests in an input: its lines, trimmed, without the blank ones. */
  function Requests(input: string): seq<string>
    decreases |input|
  {
    if input == [] then []
    else
      var line := FirstLine(input);
      Cleaned(line) + Requests(input[|line|..])
  }

  function Cleaned(line: string): seq<string> {
    var trimmed := Trim(line);
    if trimmed == [] then [] else [trimmed]
  }

  /** One newline-terminated message per element. */
  function Frame(messages: seq<string>): string {
    if messages == [] then [] else messages[0] + "\n" + Frame(messages[1..])
  }

  function Answers(answer: string -> string, requests: seq<string>): (replies: seq<string>)
    ensures |replies| == |requests|
  {
    seq(|requests|, i requires 0 <= i < |requests| => answer(requests[i]))
  }

  /** The read loop. `answer` stands for parsing a request, running the search and printing the
      outcome (rows or an `error` object) as one JSON text. */
  method CmdQueryServe(stdin: string, answer: string -> string) returns (stdout: string)
    ensures stdout == Frame(Answers(answer, Requests(stdin)))
  {
    stdout := "";
    var reader := stdin;
    ghost var served := [];
    while true
      invariant served + Requests(reader) == Requests(stdin)
      invariant stdout == Frame(Answers(answer, served))
      decreases |reader|
    {
      var line := FirstLine(reader);
      if |line| == 0 {
        break;
      }
      ServeStep(answer, reader, served);
      served := served + Cleaned(line);
      reader := reader[|line|..];
      var trimmed := Trim(line);
      if |trimmed| == 0 {
        continue;
      }
      stdout := stdout + answer(trimmed) + "\n";
    }
    assert served == Requests(stdin);
  }

  lemma ServeStep(answer: string -> string, reader: string, served: seq<string>)
    requires reader != []
    ensures var line := FirstLine(reader);
      var done := served + Cleaned(line);
      && served + Requests(reader) == done + Requests(reader[|line|..])
      && Frame(Answers(answer, done))
      == Frame(Answers(answer, served)) + (if Trim(line) == [] then "" else answer(Trim(line)) + "\n")
  {
    FrameSnoc(answer, served, Trim(FirstLine(reader)));
    assert served + [] == served;
  }

  lemma FrameSnoc(answer: string -> string, served: seq<string>, request: string)
    ensures Frame(Answers(answer, served + [request])) == Frame(Answers(answer, served)) + (answer(request) + "\n")
  {
    assert Answers(answer, served + [request]) == Answers(answer, served) + [answer(request)];
    FrameAppend(Answers(answer, served), [answer(request)]);
    assert Frame([answer(request)]) == answer(request) + "\n" + Frame([]);
  }

  lemma {:induction false} FrameAppend(a: seq<string>, b: seq<string>)
    ensures Frame(a + b) == Frame(a) + Frame(b)
  {
    if a == [] {
      assert a + b == b;
    } else {
      assert (a + b)[1..] == a[1..] + b;
      FrameAppend(a[1..], b);
    }
  }

  // ---- Framing ----

  /** One printed JSON object or array: no raw newline, no surrounding blanks. */
  predicate IsMessage(m: string) {
    && m != []
    && '\n' !in m
    && !IsWhitespace(m[0])
    && !IsWhitespace(m[|m| - 1])
  }

  lemma {:induction false} FirstLineFramed(m: string, rest: string)
    requires '\n' !in m
    ensures FirstLine(m + "\n" + rest) == m + "\n"
  {
    var input := m + "\n" + rest;
    if m != [] {
      assert input[1..] == m[1..] + "\n" + rest;
      FirstLineFramed(m[1..], rest);
    }
  }

  lemma TrimFramed(m: string)
    requires IsMessage(m)
    ensures Trim(m + "\n") == m
  {
    assert TrimEnd(m) == m;
    assert (m + "\n")[..|m|] == m;
  }

  /** Reading back what was framed. */
  lemma {:induction false} RequestsOfFrame(messages: seq<string>)
    requires forall m | m in messages :: IsMessage(m)
    ensures Requests(Frame(messages)) == messages
  {
    if messages != [] {
      var m, rest := messages[0], Frame(messages[1..]);
      assert m in messages;
      FirstLineFramed(m, rest);
      TrimFramed(m);
      assert Frame(messages)[|m| + 1..] == rest;
      RequestsOfFrame(messages[1..]);
    }
  }

  /** End to end at the level of characters: the client's framed requests come back as the framed
      answers, one per request, in order, and reading the answers' lines recovers them. */
  lemma OneAnswerPerRequest(requests: seq<string>, answer: string -> string)
    requires forall r | r in requests :: IsMessage(r) && IsMessage(answer(r))
    ensures Requests(Frame(requests)) == requests
    ensures Requests(Frame(Answers(answer, Requests(Frame(requests))))) == Answers(answer, requests)
  {
    RequestsOfFrame(requests);
    var replies := Answers(answer, requests);
    forall m | m in replies
      ensures IsMessage(m)
    {
      var i :| 0 <= i < |replies| && replies[i] == m;
      assert requests[i] in requests;
    }
    RequestsOfFrame(replies);
  }

  /** Blank lines are skipped and nothing else is. */
  lemma {:induction false} BlankLinesIgnored(blank: string, rest: string)
    requires '\n' !in blank && Trim(blank + "\n") == []
    ensures Requests(blank + "\n" + rest) == Requests(rest)
  {
    FirstLineFramed(blank, rest);
    assert (blank + "\n" + rest)[|blank| + 1..] == rest;
  }

  /** No request is blank or has whitespace around it, whatever the input. */
  lemma {:induction false} RequestsAreTrimmed(input: string)
    ensures forall r | r in Requests(input) :: r != [] && !IsWhitespace(r[0]) && !IsWhitespace(r[|r| - 1])
    decreases |input|
  {
    if input != [] {
      var line := FirstLine(input);
      var front, back := TrimMeans(line);
      RequestsAreTrimmed(input[|line|..]);
    }
  }

  /** Every line gives its own request: its text without the whitespace around it. */
  lemma {:induction false} LineGivesRequest(front: string, text: string, back: string, rest: string)
    requires AllWhitespace(front) && AllWhitespace(back) && '\n' !in front + text + back
    requires text != [] && !IsWhitespace(text[0]) && !IsWhitespace(text[|text| - 1])
    ensures Requests(front + text + back + "\n" + rest) == [text] + Requests(rest)
  {
    var line := front + text + back;
    FirstLineFramed(line, rest);
    assert (line + "\n" + rest)[|line| + 1..] == rest;
    assert line + "\n" == front + text + (back + "\n");
    TrimAround(front, text, back + "\n");
  }

  lemma TrimAround(front: string, text: string, back: string)
    requires AllWhitespace(front) && AllWhitespace(back)
    requires text != [] && !IsWhitespace(text[0]) && !IsWhitespace(text[|text| - 1])
    ensures Trim(front + text + back) == text
  {
    StartTrimmed(front, text + back);
    assert front + text + back == front + (text + back);
    EndTrimmed(text, back);
  }

  lemma {:induction false} StartTrimmed(front: string, t: string)
    requires AllWhitespace(front) && t != [] && !IsWhitespace(t[0])
    ensures TrimStart(front + t) == t
  {
    if front == [] {
      assert front + t == t;
    } else {
      assert front[0] in front && (front + t)[1..] == front[1..] + t;
      StartTrimmed(front[1..], t);
    }
  }

  lemma {:induction false} EndTrimmed(t: string, back: string)
    requires AllWhitespace(back) && t != [] && !IsWhitespace(t[|t| - 1])
    ensures TrimEnd(t + back) == t
  {
    if back == [] {
      assert t + back == t;
    } else {
      var n := |back| - 1;
      assert back[n] in back && (t + back)[..|t| + n] == t + back[..n];
      EndTrimmed(t, back[..n]);
    }
  }
}

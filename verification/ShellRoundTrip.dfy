/**
  Printing a command with every part in parentheses and parsing it gives the command back.
 */
module ShellRoundTrip {
  import opened ShellParse
  import opened ShellWords

  ghost predicate IsText(w: string) {
    w != "" && forall k :: 0 <= k < |w| ==> WordChar(w[k])
  }

  /** Fewer than MAXARGS words in each simple command, all of them words. */
  ghost predicate WellFormed(t: Cmd<string>) {
    match t
    case Exec(ws) => |ws| < MAXARGS && forall i :: 0 <= i < |ws| ==> IsText(ws[i])
    case Redir(d, f, _) => WellFormed(d) && IsText(f)
    case Pipe(l, r) => WellFormed(l) && WellFormed(r)
    case List(l, r) => WellFormed(l) && WellFormed(r)
    case Back(d) => WellFormed(d)
  }

  function Join(ws: seq<string>): string {
    if ws == [] then "" else if |ws| == 1 then ws[0] else ws[0] + (" " + Join(ws[1..]))
  }

  function Print(t: Cmd<string>): string
    decreases t, 0
  {
    match t
    case Exec(ws) => Join(ws)
    case Redir(d, f, o) => Paren(d) + ((if o then ">" else "<") + f)
    case Pipe(l, r) => Paren(l) + ("|" + Paren(r))
    case List(l, r) => Paren(l) + (";" + Paren(r))
    case Back(d) => Paren(d) + "&"
  }

  function Paren(t: Cmd<string>): string
    decreases t, 1
  {
    "(" + (Print(t) + ")")
  }

  /** Text x stands at position i. */
  ghost predicate At(b: Line, i: nat, x: string) {
    i + |x| <= |b| && b[i..i + |x|] == x
  }

  lemma {:induction false} Split(b: Line, i: nat, x: string, y: string)
    requires At(b, i, x + y)
    ensures At(b, i, x) && At(b, i + |x|, y)
  {
    assert b[i..i + |x|] == b[i..i + |x + y|][..|x|];
    assert b[i + |x|..i + |x| + |y|] == b[i..i + |x + y|][|x|..];
  }

  lemma {:induction false} CharAt(b: Line, i: nat, x: string)
    requires At(b, i, x)
    ensures forall k :: 0 <= k < |x| ==> b[i + k] == x[k]
  {
    forall k | 0 <= k < |x| ensures b[i + k] == x[k]
    {
      assert b[i..i + |x|][k] == x[k];
    }
  }

  /** The end of the line or of a block. */
  ghost predicate Stops(b: Line, j: nat) {
    j <= |b| && (j < |b| ==> b[j] == ')')
  }

  lemma {:induction false} WordAt(b: Line, i: nat, w: string)
    requires At(b, i, w) && IsText(w) && (i + |w| < |b| ==> !WordChar(b[i + |w|]))
    ensures SkipSpace(b, i) == i && TokenAt(b, i) == ('a', i + |w|) && Text(b, Span(i, i + |w|)) == w
    ensures i < |b| && WordChar(b[i])
  {
    CharAt(b, i, w);
    assert forall k :: i <= k < i + |w| ==> b[k] == w[k - i];
    assert WordChar(b[i]);
  }

  // ---- the words of a simple command ----

  function Spans(i: nat, ws: seq<string>): seq<Span>
    decreases |ws|
  {
    if ws == [] then [] else [Span(i, i + |ws[0]|)] + Spans(i + |ws[0]| + 1, ws[1..])
  }

  lemma {:induction false} NoRedirs(b: Line, i: nat, rs: Redirs)
    requires i <= |b| && (i < |b| ==> b[i] !in WHITESPACE && b[i] !in "<>")
    ensures ParseRedirs(b, i, rs) == Ok(rs, i)
  {
  }

  /** One word is taken, with what separates it from position n. */
  lemma {:induction false} ArgStep(b: Line, i: nat, w: string, n: nat, args: seq<Span>)
    requires At(b, i, w) && IsText(w) && |args| + 1 < MAXARGS
    requires i + |w| <= n <= |b| && SkipSpace(b, i + |w|) == n && (i + |w| < |b| ==> !WordChar(b[i + |w|]))
    requires n < |b| ==> b[n] !in WHITESPACE && b[n] !in "<>"
    ensures ParseArgs(b, i, args, []) == ParseArgs(b, n, args + [Span(i, i + |w|)], [])
    ensures Text(b, Span(i, i + |w|)) == w
  {
    hide ParseRedirs, WordEnd, SkipSpace, At, IsText, TokenAt, Text;
    WordAt(b, i, w);
    NoRedirs(b, n, []);
  }

  /** The next word's place: right after this one and a blank. */
  lemma {:induction false} TailAt(b: Line, i: nat, ws: seq<string>)
    requires At(b, i, Join(ws)) && |ws| > 1 && IsText(ws[0]) && IsText(ws[1])
    ensures var j := i + |ws[0]|;
            At(b, i, ws[0]) && At(b, j + 1, Join(ws[1..])) && j + 1 + |Join(ws[1..])| == i + |Join(ws)|
    ensures var j := i + |ws[0]|; j + 1 < |b| && b[j] == ' ' && WordChar(b[j + 1]) && SkipSpace(b, j) == j + 1
  {
    var j := i + |ws[0]|;
    Split(b, i, ws[0], " " + Join(ws[1..]));
    Split(b, j, " ", Join(ws[1..]));
    NextWord(b, j + 1, ws[1..]);
    OneBlank(b, j);
  }

  lemma {:induction false} NoSpans(i: nat, args: seq<Span>)
    ensures args + Spans(i, []) == args
  {
  }

  lemma {:induction false} SpansStep(i: nat, ws: seq<string>, args: seq<Span>)
    requires ws != []
    ensures args + [Span(i, i + |ws[0]|)] + Spans(i + |ws[0]| + 1, ws[1..]) == args + Spans(i, ws)
    ensures |ws| == 1 ==> args + [Span(i, i + |ws[0]|)] == args + Spans(i, ws)
  {
    var first, rest := [Span(i, i + |ws[0]|)], Spans(i + |ws[0]| + 1, ws[1..]);
    assert Spans(i, ws) == first + rest;
    assert |ws| == 1 ==> rest == [];
    hide Spans;
    Regroup(args, first, rest);
  }

  lemma {:induction false} Regroup<T>(a: seq<T>, b: seq<T>, c: seq<T>)
    ensures a + b + c == a + (b + c)
    ensures c == [] ==> b + c == b
  {
  }

  lemma {:induction false} ArgsAt(b: Line, i: nat, ws: seq<string>, args: seq<Span>)
    requires At(b, i, Join(ws)) && Stops(b, i + |Join(ws)|) && |args| + |ws| < MAXARGS
    requires forall k :: 0 <= k < |ws| ==> IsText(ws[k])
    ensures ParseArgs(b, i, args, []) == Ok(Exec(args + Spans(i, ws)), i + |Join(ws)|)
    decreases |ws|
  {
    hide ParseArgs, At, IsText, Spans, Join, SkipSpace, Stops, WordChar;
    if ws == [] {
      JoinNone();
      NoArgs(b, i, args);
      NoSpans(i, args);
    } else {
      SpansStep(i, ws, args);
      if |ws| == 1 {
        LastArg(b, i, ws, args);
      } else {
        var j := i + |ws[0]|;
        TailAt(b, i, ws);
        MoreArgs(b, i, ws, args);
        ArgsAt(b, j + 1, ws[1..], args + [Span(i, j)]);
      }
    }
  }

  lemma {:induction false} JoinNone()
    ensures Join([]) == ""
  {
  }

  lemma {:induction false} LastArg(b: Line, i: nat, ws: seq<string>, args: seq<Span>)
    requires At(b, i, Join(ws)) && Stops(b, i + |Join(ws)|) && |ws| == 1 && IsText(ws[0]) && |args| + 1 < MAXARGS
    ensures ParseArgs(b, i, args, []) == Ok(Exec(args + [Span(i, i + |ws[0]|)]), i + |Join(ws)|)
  {
    hide ParseArgs, IsText, SkipSpace, At;
    var j := i + |ws[0]|;
    assert Join(ws) == ws[0] && |b| >= j;
    hide Join;
    NoArgs(b, j, args + [Span(i, j)]);
    ArgStep(b, i, ws[0], j, args);
  }

  lemma {:induction false} MoreArgs(b: Line, i: nat, ws: seq<string>, args: seq<Span>)
    requires At(b, i, Join(ws)) && |ws| > 1 && IsText(ws[0]) && IsText(ws[1]) && |args| + 1 < MAXARGS
    ensures i + |ws[0]| + 1 <= |b|
    ensures ParseArgs(b, i, args, []) == ParseArgs(b, i + |ws[0]| + 1, args + [Span(i, i + |ws[0]|)], [])
  {
    hide ParseArgs, IsText, Join, At, SkipSpace;
    TailAt(b, i, ws);
    ArgStep(b, i, ws[0], i + |ws[0]| + 1, args);
  }

  lemma {:induction false} SpanTexts(b: Line, i: nat, ws: seq<string>)
    requires At(b, i, Join(ws)) && forall k :: 0 <= k < |ws| ==> IsText(ws[k])
    ensures |Spans(i, ws)| == |ws| && forall k :: 0 <= k < |ws| ==> Text(b, Spans(i, ws)[k]) == ws[k]
    decreases |ws|
  {
    hide IsText, WordChar, SkipSpace, Text, At;
    if ws != [] {
      if |ws| > 1 {
        hide Join, Spans;
        TailAt(b, i, ws);
        SpanTexts(b, i + |ws[0]| + 1, ws[1..]);
      }
      hide Spans;
      SpanTextsStep(b, i, ws);
    }
  }

  lemma {:induction false} SpanTextsStep(b: Line, i: nat, ws: seq<string>)
    requires ws != [] && At(b, i, ws[0])
    requires var rest := Spans(i + |ws[0]| + 1, ws[1..]);
             |rest| == |ws| - 1 && forall k :: 0 <= k < |rest| ==> Text(b, rest[k]) == ws[1..][k]
    ensures |Spans(i, ws)| == |ws| && forall k :: 0 <= k < |ws| ==> Text(b, Spans(i, ws)[k]) == ws[k]
  {
    var rest := Spans(i + |ws[0]| + 1, ws[1..]);
    assert Spans(i, ws) == [Span(i, i + |ws[0]|)] + rest;
    assert Text(b, Span(i, i + |ws[0]|)) == ws[0];
    hide Spans, Text, At;
    forall k | 0 < k < |ws| ensures Text(b, Spans(i, ws)[k]) == ws[k]
    {
      assert Text(b, rest[k - 1]) == ws[1..][k - 1];
    }
  }

  lemma {:induction false} NoArgs(b: Line, i: nat, args: seq<Span>)
    requires Stops(b, i)
    ensures SkipSpace(b, i) == i && ParseArgs(b, i, args, []) == Ok(Exec(args), i)
  {
  }

  lemma {:induction false} OneBlank(b: Line, j: nat)
    requires At(b, j, " ") && j + 1 < |b| && WordChar(b[j + 1])
    ensures SkipSpace(b, j) == j + 1 && b[j] == ' '
  {
    CharAt(b, j, " ");
  }

  lemma {:induction false} NextWord(b: Line, i: nat, ws: seq<string>)
    requires At(b, i, Join(ws)) && ws != [] && IsText(ws[0])
    ensures i < |b| && WordChar(b[i])
  {
    if |ws| > 1 {
      Split(b, i, ws[0], " " + Join(ws[1..]));
    }
    CharAt(b, i, ws[0]);
  }

  // ---- blocks ----

  /** Position j is the end or a character that is not blank. */
  ghost predicate Dense(b: Line, j: nat) {
    j <= |b| && (j < |b| ==> b[j] !in WHITESPACE)
  }

  lemma {:induction false} DenseSkip(b: Line, j: nat)
    requires Dense(b, j)
    ensures SkipSpace(b, j) == j
  {
  }

  /** A one-character token. */
  lemma {:induction false} SignAt(b: Line, i: nat, c: char)
    requires i < |b| && b[i] == c && c in "|();&<" && Dense(b, i + 1)
    ensures GetToken(b, i) == Token(c, Span(i, i + 1), i + 1) && SkipSpace(b, i) == i
  {
  }

  lemma {:induction false} FirstChar(b: Line, i: nat, t: Cmd<string>)
    requires At(b, i, Print(t)) && WellFormed(t) && Stops(b, i + |Print(t)|)
    ensures Dense(b, i)
  {
    match t
    case Exec(ws) =>
      if ws != [] {
        NextWord(b, i, ws);
      }
    case Redir(d, f, o) => assert b[i..i + |Print(t)|][0] == '(';
    case Pipe(l, r) => assert b[i..i + |Print(t)|][0] == '(';
    case List(l, r) => assert b[i..i + |Print(t)|][0] == '(';
    case Back(d) => assert b[i..i + |Print(t)|][0] == '(';
  }

  /** A command in parentheses, and the redirections after it. */
  lemma {:induction false} BlockAt(b: Line, i: nat, c: Cmd<Span>, j: nat, rs: Redirs, k: nat)
    requires i + 1 <= j < |b| && b[i] == '(' && b[j] == ')' && Dense(b, i + 1) && Dense(b, j + 1)
    requires ParseLine(b, i + 1) == Ok(c, j) && ParseRedirs(b, j + 1, []) == Ok(rs, k)
    ensures ParseExec(b, i) == Ok(Wrap(c, rs), k)
  {
    hide ParseLine, ParseRedirs, GetToken, SkipSpace, Wrap, Dense;
    SignAt(b, i, '(');
    SignAt(b, j, ')');
    assert Peek(b, i, "(") && Peek(b, j, ")");
    hide Peek;
    assert ParseBlock(b, i) == Ok(Wrap(c, rs), k);
  }

  /** A command followed by the end of its block is the whole line. */
  lemma {:induction false} LineEnds(b: Line, i: nat, c: Cmd<Span>, j: nat)
    requires i <= |b| && ParseExec(b, i) == Ok(c, j) && Stops(b, j)
    ensures ParsePipe(b, i) == Ok(c, j) && ParseLine(b, i) == Ok(c, j)
  {
    DenseSkip(b, j);
    hide ParseExec, SkipSpace;
  }

  lemma {:induction false} ExecAt(b: Line, i: nat, ws: seq<string>)
    requires At(b, i, Join(ws)) && WellFormed(Exec(ws)) && Stops(b, i + |Join(ws)|)
    ensures ParseLine(b, i) == Ok(Exec(Spans(i, ws)), i + |Join(ws)|)
    ensures Read(b, Exec(Spans(i, ws))) == Exec(ws)
  {
    hide ParseArgs, ParseRedirs, SkipSpace, Spans, Join, At, Read;
    FirstArg(b, i, ws);
    ArgsAt(b, i, ws, []);
    assert [] + Spans(i, ws) == Spans(i, ws);
    ReadExec(b, i, ws);
    assert ParseExec(b, i) == Ok(Exec(Spans(i, ws)), i + |Join(ws)|) by {
      hide ParseBlock, IsText;
    }
    LineEnds(b, i, Exec(Spans(i, ws)), i + |Join(ws)|);
  }

  lemma {:induction false} FirstArg(b: Line, i: nat, ws: seq<string>)
    requires At(b, i, Join(ws)) && WellFormed(Exec(ws)) && Stops(b, i + |Join(ws)|)
    ensures SkipSpace(b, i) == i && !Peek(b, i, "(") && ParseRedirs(b, i, []) == Ok([], i)
  {
    if ws != [] {
      NextWord(b, i, ws);
    }
    NoRedirs(b, i, []);
    DenseSkip(b, i);
  }

  lemma {:induction false} ReadExec(b: Line, i: nat, ws: seq<string>)
    requires At(b, i, Join(ws)) && WellFormed(Exec(ws))
    ensures Read(b, Exec(Spans(i, ws))) == Exec(ws)
  {
    hide Spans, Join, At, Text, IsText;
    SpanTexts(b, i, ws);
    assert Read(b, Exec(Spans(i, ws))).words == ws;
  }

  /** One redirection, by any of its three signs. */
  lemma {:induction false} RedirAt(b: Line, i: nat, op: string, f: string)
    requires op in {"<", ">", ">>"} && IsText(f) && At(b, i, op + f) && Stops(b, i + |op| + |f|)
    ensures ParseRedirs(b, i, []) == Ok([(Span(i + |op|, i + |op| + |f|), op != "<")], i + |op| + |f|)
    ensures Dense(b, i) && Text(b, Span(i + |op|, i + |op| + |f|)) == f
  {
    hide At, IsText, SkipSpace, GetToken, Text;
    var j, k := i + |op|, i + |op| + |f|;
    Split(b, i, op, f);
    FileAt(b, j, f);
    OpAt(b, i, op);
    NoRedirs(b, k, [(Span(j, k), op != "<")]);
    hide Peek, WordChar, Stops;
    assert [] + [(Span(j, k), op != "<")] == [(Span(j, k), op != "<")];
  }

  lemma {:induction false} OpAt(b: Line, i: nat, op: string)
    requires op in {"<", ">", ">>"} && At(b, i, op) && i + |op| < |b| && WordChar(b[i + |op|])
    ensures Peek(b, i, "<>") && Dense(b, i) && GetToken(b, i).next == i + |op|
    ensures GetToken(b, i).kind != '<' <==> op != "<"
  {
    var j := i + |op|;
    CharAt(b, i, op);
    assert b[i + 0] == op[0] && (|op| == 2 ==> b[i + 1] == op[1]);
    DenseSkip(b, i);
    DenseSkip(b, j);
    hide SkipSpace;
    assert TokenAt(b, i).1 == j;
  }

  lemma {:induction false} FileAt(b: Line, j: nat, f: string)
    requires IsText(f) && At(b, j, f) && Stops(b, j + |f|)
    ensures j < |b| && WordChar(b[j]) && GetToken(b, j) == Token('a', Span(j, j + |f|), j + |f|)
    ensures Text(b, Span(j, j + |f|)) == f
  {
    WordAt(b, j, f);
    CharAt(b, j, f);
    assert b[j + 0] == f[0];
    DenseSkip(b, j + |f|);
  }

  // ---- whole commands ----

  /** Where a printed command stands and its block ends, it parses to itself. */
  ghost predicate ParsesAt(b: Line, i: nat, t: Cmd<string>, c: Cmd<Span>) {
    i + |Print(t)| <= |b| && ParseLine(b, i) == Ok(c, i + |Print(t)|) && Read(b, c) == t
  }

  /** A printed command in parentheses, with the redirections after it. */
  lemma {:induction false} Parens(b: Line, i: nat, t: Cmd<string>, c: Cmd<Span>, rs: Redirs, k: nat)
    requires WellFormed(t) && At(b, i, Paren(t)) && ParsesAt(b, i + 1, t, c)
    requires var j := i + |Print(t)| + 2; Dense(b, j) && ParseRedirs(b, j, []) == Ok(rs, k)
    ensures ParseExec(b, i) == Ok(Wrap(c, rs), k)
  {
    hide ParseLine, ParseRedirs, ParseExec, Print, Read;
    var j := i + 1 + |Print(t)|;
    Split(b, i, "(", Print(t) + ")");
    Split(b, i + 1, Print(t), ")");
    CharAt(b, i, "(");
    CharAt(b, j, ")");
    assert b[i + 0] == '(' && b[j + 0] == ')';
    FirstChar(b, i + 1, t);
    BlockAt(b, i, c, j, rs, k);
  }

  /** What stands inside and after a parenthesis. */
  lemma {:induction false} Inner(b: Line, i: nat, t: Cmd<string>, rest: string)
    requires At(b, i, Paren(t) + rest)
    ensures At(b, i, Paren(t)) && At(b, i + |Print(t)| + 2, rest) && |Paren(t)| == |Print(t)| + 2
    ensures At(b, i + 1, Print(t)) && Stops(b, i + 1 + |Print(t)|)
  {
    hide Print;
    Split(b, i, Paren(t), rest);
    Split(b, i, "(", Print(t) + ")");
    Split(b, i + 1, Print(t), ")");
    CharAt(b, i + 1 + |Print(t)|, ")");
    assert b[i + 1 + |Print(t)| + 0] == ')';
  }

  lemma {:induction false} RedirCase(b: Line, i: nat, d: Cmd<string>, op: string, f: string,
                                     c: Cmd<Span>) returns (e: Cmd<Span>)
    requires WellFormed(d) && IsText(f) && op in {"<", ">", ">>"} && At(b, i, Paren(d) + (op + f))
    requires Stops(b, i + |Paren(d) + (op + f)|) && ParsesAt(b, i + 1, d, c)
    ensures ParseLine(b, i) == Ok(e, i + |Paren(d) + (op + f)|) && Read(b, e) == Redir(d, f, op != "<")
  {
    hide Print, Text, IsText, WellFormed, ParseRedirs, ParseExec, ParseLine;
    var k := i + |Print(d)| + 2 + |op|;
    Inner(b, i, d, op + f);
    RedirAt(b, k - |op|, op, f);
    Parens(b, i, d, c, [(Span(k, k + |f|), op != "<")], k + |f|);
    WrapOne(c, Span(k, k + |f|), op != "<");
    e := Redir(c, Span(k, k + |f|), op != "<");
    LineEnds(b, i, e, k + |f|);
  }

  lemma {:induction false} WrapOne(c: Cmd<Span>, f: Span, o: bool)
    ensures Wrap(c, [(f, o)]) == Redir(c, f, o) && Wrap(c, []) == c
  {
    assert [(f, o)][..0] == [];
    assert Wrap(c, []) == c;
  }

  /** A printed command in parentheses, followed by a sign or by the end. */
  lemma {:induction false} Bare(b: Line, i: nat, t: Cmd<string>, c: Cmd<Span>)
    requires WellFormed(t) && At(b, i, Paren(t)) && ParsesAt(b, i + 1, t, c)
    requires var j := i + |Print(t)| + 2; j <= |b| && (j < |b| ==> b[j] !in WHITESPACE && b[j] !in "<>")
    ensures ParseExec(b, i) == Ok(c, i + |Print(t)| + 2)
  {
    hide Print, WellFormed, ParseRedirs, ParseExec, ParseLine, At;
    NoRedirs(b, i + |Print(t)| + 2, []);
    WrapOne(c, Span(0, 0), false);
    Parens(b, i, t, c, [], i + |Print(t)| + 2);
  }

  /** The right-hand part: a parenthesis right after a sign, up to the end of the block. */
  lemma {:induction false} Right(b: Line, j: nat, sign: string, t: Cmd<string>)
    requires |sign| == 1 && sign[0] in "|;" && At(b, j, sign + Paren(t)) && Stops(b, j + |sign + Paren(t)|)
    ensures j + 1 < |b| && b[j] == sign[0] && At(b, j + 1, Paren(t)) && At(b, j + 2, Print(t))
    ensures Stops(b, j + 2 + |Print(t)|)
    ensures Stops(b, j + |Print(t)| + 3)
    ensures GetToken(b, j).next == j + 1 && SkipSpace(b, j) == j
  {
    hide Print;
    Split(b, j, sign, Paren(t));
    assert Paren(t) + "" == Paren(t);
    Inner(b, j + 1, t, "");
    CharAt(b, j, sign);
    CharAt(b, j + 1, Paren(t));
    assert b[j + 0] == sign[0] && b[j + 1 + 0] == '(';
    SignAt(b, j, sign[0]);
  }

  lemma {:induction false} PipeStep(b: Line, i: nat, cl: Cmd<Span>, j: nat, cr: Cmd<Span>, k: nat)
    requires i <= |b| && ParseExec(b, i) == Ok(cl, j) && j < |b| && b[j] == '|' && Dense(b, j + 1)
    requires ParsePipe(b, j + 1) == Ok(cr, k) && Stops(b, k)
    ensures ParseLine(b, i) == Ok(Pipe(cl, cr), k)
  {
    hide ParseExec, SkipSpace, GetToken;
    SignAt(b, j, '|');
    DenseSkip(b, k);
    assert ParsePipe(b, i) == Ok(Pipe(cl, cr), k);
    hide ParsePipe;
  }

  lemma {:induction false} ListStep(b: Line, i: nat, cl: Cmd<Span>, j: nat, cr: Cmd<Span>, k: nat)
    requires i <= |b| && ParseExec(b, i) == Ok(cl, j) && j < |b| && b[j] == ';' && Dense(b, j + 1)
    requires ParseLine(b, j + 1) == Ok(cr, k)
    ensures ParseLine(b, i) == Ok(List(cl, cr), k)
  {
    hide ParseExec, SkipSpace, GetToken;
    SignAt(b, j, ';');
    assert ParsePipe(b, i) == Ok(cl, j);
    hide ParsePipe;
    assert ParseBacks(b, j, cl) == (cl, j);
    hide ParseBacks;
  }

  lemma {:induction false} BackStep(b: Line, i: nat, c: Cmd<Span>, j: nat)
    requires i <= |b| && ParseExec(b, i) == Ok(c, j) && j < |b| && b[j] == '&' && Stops(b, j + 1)
    ensures ParseLine(b, i) == Ok(Back(c), j + 1)
  {
    hide ParseExec, SkipSpace, GetToken;
    SignAt(b, j, '&');
    DenseSkip(b, j + 1);
    assert ParsePipe(b, i) == Ok(c, j);
    hide ParsePipe;
    assert ParseBacks(b, j + 1, Back(c)) == (Back(c), j + 1);
    assert ParseBacks(b, j, c) == (Back(c), j + 1);
    hide ParseBacks;
  }

  /** Two parenthesised commands with a sign between them. */
  ghost predicate Joined(b: Line, i: nat, l: Cmd<string>, sign: string, r: Cmd<string>) {
    var x := Paren(l) + (sign + Paren(r));
    At(b, i, x) && Stops(b, i + |x|)
  }

  lemma {:induction false} Halves(b: Line, i: nat, l: Cmd<string>, sign: string, r: Cmd<string>)
    requires |sign| == 1 && sign[0] in "|;" && Joined(b, i, l, sign, r)
    ensures At(b, i, Paren(l)) && At(b, i + 1, Print(l)) && Stops(b, i + 1 + |Print(l)|)
    ensures var j := i + |Print(l)| + 2; j < |b| && b[j] == sign[0] && At(b, j + 1, Paren(r)) && Dense(b, j + 1)
    ensures var j := i + |Print(l)| + 2;
            At(b, j + 2, Print(r)) && Stops(b, j + 2 + |Print(r)|) && Stops(b, j + |Print(r)| + 3)
    ensures i + |Paren(l) + (sign + Paren(r))| == i + |Print(l)| + |Print(r)| + 5
  {
    hide Print;
    var j := i + |Print(l)| + 2;
    Inner(b, i, l, sign + Paren(r));
    hide Stops, At;
    Right(b, j, sign, r);
  }

  lemma {:induction false} PipeCase(b: Line, i: nat, l: Cmd<string>, r: Cmd<string>, cl: Cmd<Span>, cr: Cmd<Span>)
    requires WellFormed(l) && WellFormed(r) && Joined(b, i, l, "|", r)
    requires ParsesAt(b, i + 1, l, cl) && ParsesAt(b, i + |Print(l)| + 4, r, cr)
    ensures ParseLine(b, i) == Ok(Pipe(cl, cr), i + |Paren(l) + ("|" + Paren(r))|)
  {
    hide Print, WellFormed, ParseExec, Read, Joined, ParsesAt, ParsePipe, ParseLine, At;
    var j := i + |Print(l)| + 2;
    Halves(b, i, l, "|", r);
    Bare(b, i, l, cl);
    Bare(b, j + 1, r, cr);
    LineEnds(b, j + 1, cr, j + |Print(r)| + 3);
    PipeStep(b, i, cl, j, cr, j + |Print(r)| + 3);
  }

  lemma {:induction false} ListCase(b: Line, i: nat, l: Cmd<string>, r: Cmd<string>, cl: Cmd<Span>, cr: Cmd<Span>)
    requires WellFormed(l) && WellFormed(r) && Joined(b, i, l, ";", r)
    requires ParsesAt(b, i + 1, l, cl) && ParsesAt(b, i + |Print(l)| + 4, r, cr)
    ensures ParseLine(b, i) == Ok(List(cl, cr), i + |Paren(l) + (";" + Paren(r))|)
  {
    hide Print, WellFormed, ParseExec, Read, Joined, ParsesAt, ParsePipe, ParseLine, At;
    var j := i + |Print(l)| + 2;
    Halves(b, i, l, ";", r);
    Bare(b, i, l, cl);
    Bare(b, j + 1, r, cr);
    LineEnds(b, j + 1, cr, j + |Print(r)| + 3);
    ListStep(b, i, cl, j, cr, j + |Print(r)| + 3);
  }

  lemma {:induction false} BackCase(b: Line, i: nat, d: Cmd<string>, c: Cmd<Span>)
    requires WellFormed(d) && At(b, i, Paren(d) + "&") && Stops(b, i + |Paren(d) + "&"|) && ParsesAt(b, i + 1, d, c)
    ensures ParseLine(b, i) == Ok(Back(c), i + |Paren(d) + "&"|)
  {
    hide Print, WellFormed, ParseExec, Read, ParsesAt, ParseLine;
    var j := i + |Print(d)| + 2;
    Inner(b, i, d, "&");
    CharAt(b, j, "&");
    assert b[j + 0] == '&';
    Bare(b, i, d, c);
    BackStep(b, i, c, j);
  }

  /** A printed command that stands in a line, up to the end of its block, parses to itself. */
  lemma {:induction false} PrintedParses(b: Line, i: nat, t: Cmd<string>) returns (c: Cmd<Span>)
    requires WellFormed(t) && At(b, i, Print(t)) && Stops(b, i + |Print(t)|)
    ensures ParsesAt(b, i, t, c)
    decreases t, 1
  {
    hide ParseLine, IsText, At, Join, Spans, Stops, WellFormed, Print, ParsesAt, Read;
    match t
    case Exec(ws) => c := PrintedExec(b, i, t);
    case Redir(d, f, o) => c := PrintedRedir(b, i, t);
    case Pipe(l, r) => c := PrintedPair(b, i, t);
    case List(l, r) => c := PrintedPair(b, i, t);
    case Back(d) => c := PrintedBack(b, i, t);
  }

  lemma {:induction false} PrintedExec(b: Line, i: nat, t: Cmd<string>) returns (c: Cmd<Span>)
    requires t.Exec? && WellFormed(t) && At(b, i, Print(t)) && Stops(b, i + |Print(t)|)
    ensures ParsesAt(b, i, t, c)
  {
    hide ParseLine, IsText, Join, Spans;
    ExecAt(b, i, t.words);
    c := Exec(Spans(i, t.words));
  }

  lemma {:induction false} PrintedBack(b: Line, i: nat, t: Cmd<string>) returns (c: Cmd<Span>)
    requires t.Back? && WellFormed(t) && At(b, i, Print(t)) && Stops(b, i + |Print(t)|)
    ensures ParsesAt(b, i, t, c)
    decreases t, 0
  {
    hide ParseLine, Join;
    Inner(b, i, t.cmd, "&");
    var e := PrintedParses(b, i + 1, t.cmd);
    BackCase(b, i, t.cmd, e);
    c := Back(e);
  }

  lemma {:induction false} PrintedRedir(b: Line, i: nat, t: Cmd<string>) returns (c: Cmd<Span>)
    requires t.Redir? && WellFormed(t) && At(b, i, Print(t)) && Stops(b, i + |Print(t)|)
    ensures ParsesAt(b, i, t, c)
    decreases t, 0
  {
    hide ParseLine, Join, IsText;
    var op := if t.out then ">" else "<";
    Inner(b, i, t.cmd, op + t.file);
    var e := PrintedParses(b, i + 1, t.cmd);
    c := RedirCase(b, i, t.cmd, op, t.file, e);
  }

  lemma {:induction false} PrintedPair(b: Line, i: nat, t: Cmd<string>) returns (c: Cmd<Span>)
    requires (t.Pipe? || t.List?) && WellFormed(t) && At(b, i, Print(t)) && Stops(b, i + |Print(t)|)
    ensures ParsesAt(b, i, t, c)
    decreases t, 0
  {
    hide ParseLine, Join;
    var l, r, sign := t.left, t.right, if t.Pipe? then "|" else ";";
    assert Joined(b, i, l, sign, r);
    hide At;
    Halves(b, i, l, sign, r);
    var cl := PrintedParses(b, i + 1, l);
    var cr := PrintedParses(b, i + |Print(l)| + 4, r);
    if t.Pipe? {
      PipeCase(b, i, l, r, cl, cr);
      c := Pipe(cl, cr);
    } else {
      ListCase(b, i, l, r, cl, cr);
      c := List(cl, cr);
    }
  }

  // ---- the round trip ----

  ghost predicate NoNul(x: string) {
    forall k :: 0 <= k < |x| ==> x[k] != '\0'
  }

  lemma {:induction false} TextIsLine(w: string)
    requires IsText(w)
    ensures NoNul(w)
  {
    forall k | 0 <= k < |w| ensures w[k] != '\0'
    {
      assert WordChar(w[k]);
    }
  }

  lemma {:induction false} ParenIsLine(t: Cmd<string>)
    requires WellFormed(t)
    ensures NoNul(Paren(t))
    decreases t, 1
  {
    PrintIsLine(t);
  }

  /** A printed command holds no NUL, so it is a line. */
  lemma {:induction false} PrintIsLine(t: Cmd<string>)
    requires WellFormed(t)
    ensures NoNul(Print(t))
    decreases t, 0
  {
    hide Paren;
    match t
    case Exec(ws) => JoinIsLine(ws);
    case Redir(d, f, o) =>
      ParenIsLine(d);
      TextIsLine(f);
      assert NoNul((if o then ">" else "<") + f);
    case Pipe(l, r) =>
      ParenIsLine(l);
      ParenIsLine(r);
      assert NoNul("|" + Paren(r));
    case List(l, r) =>
      ParenIsLine(l);
      ParenIsLine(r);
      assert NoNul(";" + Paren(r));
    case Back(d) => ParenIsLine(d);
  }

  lemma {:induction false} JoinIsLine(ws: seq<string>)
    requires forall i :: 0 <= i < |ws| ==> IsText(ws[i])
    ensures NoNul(Join(ws))
  {
    if ws != [] {
      TextIsLine(ws[0]);
      if |ws| > 1 {
        JoinIsLine(ws[1..]);
        assert NoNul(" " + Join(ws[1..]));
      }
    }
  }

  /** Parsing a printed command gives the command back and uses up the line; and once the line is
      cut up, the shell reads the same words. */
  lemma {:induction false} RoundTrip(t: Cmd<string>, b: Line)
    requires WellFormed(t) && b == Print(t)
    ensures ParseCmd(b).Ok? && ParseCmd(b).pos == |b| && Read(b, ParseCmd(b).value) == t
    ensures ReadCut(Cut(b, Ends(ParseCmd(b).value)), ParseCmd(b).value) == t
  {
    hide ParseLine, Print, WellFormed, Read, ReadCut, Cut, Ends;
    assert At(b, 0, Print(t)) && Stops(b, |b|);
    var c := PrintedParses(b, 0, t);
    DenseSkip(b, |b|);
    ParsedReadsBack(b);
  }

  /** Output appended with two signs parses to the same command as with one. */
  lemma {:induction false} AppendIsOutput(t: Cmd<string>, f: string, b: Line)
    requires WellFormed(t) && IsText(f) && b == Paren(t) + (">>" + f)
    ensures ParseCmd(b).Ok? && Read(b, ParseCmd(b).value) == Redir(t, f, true)
  {
    hide ParseLine, Print, WellFormed, Read, IsText;
    assert At(b, 0, Paren(t) + (">>" + f)) && Stops(b, |b|);
    Inner(b, 0, t, ">>" + f);
    var e := PrintedParses(b, 1, t);
    var c := RedirCase(b, 0, t, ">>", f, e);
    DenseSkip(b, |b|);
  }
}

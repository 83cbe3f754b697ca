/**
  The shell's lexer and recursive-descent parser (Lab/code/sh.c:266-448) as functions of the
  command line and a position in it. Words are kept as spans of the line.
 */
module ShellParse {
  const WHITESPACE := " \t\r\n\U{000B}"
  const SYMBOLS := "<|>&;()"
  const MAXARGS := 10

  /** A command line: the characters before the terminating NUL. */
  type Line = b: string | forall i :: 0 <= i < |b| ==> b[i] != '\0' witness ""

  datatype Span = Span(start: nat, end: nat)

  /** A command over words of type W; `out` tells output redirection from input. */
  datatype Cmd<W> =
    | Exec(words: seq<W>)
    | Redir(cmd: Cmd<W>, file: W, out: bool)
    | Pipe(left: Cmd<W>, right: Cmd<W>)
    | List(left: Cmd<W>, right: Cmd<W>)
    | Back(cmd: Cmd<W>)

  datatype Error = MissingFile | Syntax | TooManyArgs | MissingParen | Leftovers
  datatype Parse<T> = Ok(value: T, pos: nat) | Fail(error: Error)

  // ---- lexer ----

  predicate WordChar(c: char) {
    c != '\0' && c !in WHITESPACE && c !in SYMBOLS
  }

  function SkipSpace(b: Line, i: nat): (s: nat)
    requires i <= |b|
    ensures i <= s <= |b| && (s < |b| ==> b[s] !in WHITESPACE)
    ensures forall k :: i <= k < s ==> b[k] in WHITESPACE
    decreases |b| - i
  {
    if i < |b| && b[i] in WHITESPACE then SkipSpace(b, i + 1) else i
  }

  function WordEnd(b: Line, i: nat): (s: nat)
    requires i <= |b|
    ensures i <= s <= |b| && (s < |b| ==> !WordChar(b[s]))
    ensures forall k :: i <= k < s ==> WordChar(b[k])
    decreases |b| - i
  {
    if i < |b| && b[i] !in WHITESPACE && b[i] !in SYMBOLS then WordEnd(b, i + 1) else i
  }

  /** A token: its kind ('a' for a word, '+' for two '>'), its span, and where to go on. */
  datatype Token = Token(kind: char, span: Span, next: nat)

  function TokenAt(b: Line, s: nat): (t: (char, nat))
    requires s <= |b|
    ensures s <= t.1 <= |b| && (s < |b| && b[s] !in WHITESPACE ==> s < t.1)
  {
    if s == |b| then ('\0', s)
    else if b[s] in "|();&<" then (b[s], s + 1)
    else if b[s] == '>' then (if s + 1 < |b| && b[s + 1] == '>' then ('+', s + 2) else ('>', s + 1))
    else ('a', WordEnd(b, s))
  }

  function GetToken(b: Line, i: nat): (t: Token)
    requires i <= |b|
    ensures i <= t.span.start <= t.span.end <= t.next <= |b|
    ensures t.kind != '\0' <==> SkipSpace(b, i) < |b|
    ensures t.kind != '\0' ==> t.next > i
  {
    var s := SkipSpace(b, i);
    var (kind, e) := TokenAt(b, s);
    Token(kind, Span(s, e), SkipSpace(b, e))
  }

  predicate Peek(b: Line, i: nat, toks: string)
    requires i <= |b|
  {
    var s := SkipSpace(b, i);
    s < |b| && b[s] in toks
  }

  // ---- parser ----

  /** A redirection: its file and direction. */
  type Redirs = seq<(Span, bool)>

  /** Wrap a command in redirections, the last one outermost. */
  function Wrap(c: Cmd<Span>, rs: Redirs): Cmd<Span> {
    if rs == [] then c else Redir(Wrap(c, rs[..|rs| - 1]), rs[|rs| - 1].0, rs[|rs| - 1].1)
  }

  function ParseRedirs(b: Line, i: nat, rs: Redirs): (r: Parse<Redirs>)
    requires i <= |b|
    ensures r.Ok? ==> i <= r.pos <= |b|
    decreases |b| - i
  {
    if Peek(b, i, "<>") then
      var t := GetToken(b, i);
      var f := GetToken(b, t.next);
      if f.kind != 'a' then Fail(MissingFile)
      else ParseRedirs(b, f.next, rs + [(f.span, t.kind != '<')])
    else Ok(rs, SkipSpace(b, i))
  }

  function ParseArgs(b: Line, i: nat, args: seq<Span>, rs: Redirs): (r: Parse<Cmd<Span>>)
    requires i <= |b|
    ensures r.Ok? ==> i <= r.pos <= |b|
    decreases |b| - i
  {
    if Peek(b, i, "|)&;") then Ok(Wrap(Exec(args), rs), SkipSpace(b, i))
    else
      var t := GetToken(b, i);
      if t.kind == '\0' then Ok(Wrap(Exec(args), rs), t.next)
      else if t.kind != 'a' then Fail(Syntax)
      else if |args| + 1 >= MAXARGS then Fail(TooManyArgs)
      else
        var r := ParseRedirs(b, t.next, rs);
        if r.Fail? then Fail(r.error) else ParseArgs(b, r.pos, args + [t.span], r.value)
  }

  function ParseExec(b: Line, i: nat): (r: Parse<Cmd<Span>>)
    requires i <= |b|
    ensures r.Ok? ==> i <= r.pos <= |b|
    decreases |b| - i, 1
  {
    if Peek(b, i, "(") then ParseBlock(b, i)
    else
      var r := ParseRedirs(b, SkipSpace(b, i), []);
      if r.Fail? then Fail(r.error) else ParseArgs(b, r.pos, [], r.value)
  }

  function ParseBlock(b: Line, i: nat): (r: Parse<Cmd<Span>>)
    requires i <= |b| && Peek(b, i, "(")
    ensures r.Ok? ==> i <= r.pos <= |b|
    decreases |b| - i, 0
  {
    var r := ParseLine(b, GetToken(b, i).next);
    if r.Fail? then r
    else if !Peek(b, r.pos, ")") then Fail(MissingParen)
    else
      var rs := ParseRedirs(b, GetToken(b, r.pos).next, []);
      if rs.Fail? then Fail(rs.error) else Ok(Wrap(r.value, rs.value), rs.pos)
  }

  function ParsePipe(b: Line, i: nat): (r: Parse<Cmd<Span>>)
    requires i <= |b|
    ensures r.Ok? ==> i <= r.pos <= |b|
    decreases |b| - i, 2
  {
    var l := ParseExec(b, i);
    if l.Fail? then l
    else if !Peek(b, l.pos, "|") then Ok(l.value, SkipSpace(b, l.pos))
    else
      var r := ParsePipe(b, GetToken(b, l.pos).next);
      if r.Fail? then r else Ok(Pipe(l.value, r.value), r.pos)
  }

  /** The '&' signs after a command. */
  function ParseBacks(b: Line, i: nat, c: Cmd<Span>): (r: (Cmd<Span>, nat))
    requires i <= |b|
    ensures i <= r.1 <= |b|
    decreases |b| - i
  {
    if Peek(b, i, "&") then ParseBacks(b, GetToken(b, i).next, Back(c)) else (c, SkipSpace(b, i))
  }

  function ParseLine(b: Line, i: nat): (r: Parse<Cmd<Span>>)
    requires i <= |b|
    ensures r.Ok? ==> i <= r.pos <= |b|
    decreases |b| - i, 3
  {
    var p := ParsePipe(b, i);
    if p.Fail? then p
    else
      var (c, j) := ParseBacks(b, p.pos, p.value);
      if !Peek(b, j, ";") then Ok(c, j)
      else
        var r := ParseLine(b, GetToken(b, j).next);
        if r.Fail? then r else Ok(List(c, r.value), r.pos)
  }

  function ParseCmd(b: Line): Parse<Cmd<Span>> {
    var r := ParseLine(b, 0);
    if r.Fail? then r else if SkipSpace(b, r.pos) != |b| then Fail(Leftovers) else Ok(r.value, |b|)
  }
}

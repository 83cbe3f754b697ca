/**
  The shell's parser as it runs: one position that every routine moves along the line
  (Lab/code/sh.c:266-448), and nulterminate, which writes into it (Lab/code/sh.c:451-494).
 */
module Shell {
  import opened ShellParse
  import opened ShellWords

  lemma {:induction false} SkipTwice(b: Line, i: nat)
    requires i <= |b|
    ensures SkipSpace(b, SkipSpace(b, i)) == SkipSpace(b, i)
  {
  }

  lemma {:induction false} TokenSkip(b: Line, i: nat)
    requires i <= |b|
    ensures ShellParse.GetToken(b, SkipSpace(b, i)) == ShellParse.GetToken(b, i)
    ensures forall toks :: ShellParse.Peek(b, SkipSpace(b, i), toks) == ShellParse.Peek(b, i, toks)
  {
    SkipTwice(b, i);
  }

  lemma {:induction false} BlockSkip(b: Line, i: nat)
    requires i <= |b| && ShellParse.Peek(b, i, "(")
    ensures ShellParse.Peek(b, SkipSpace(b, i), "(") && ParseBlock(b, SkipSpace(b, i)) == ParseBlock(b, i)
  {
    TokenSkip(b, i);
  }

  lemma {:induction false} ArgsSkip(b: Line, i: nat, args: seq<Span>, rs: Redirs)
    requires i <= |b|
    ensures ParseArgs(b, SkipSpace(b, i), args, rs) == ParseArgs(b, i, args, rs)
  {
    TokenSkip(b, i);
    SkipTwice(b, i);
  }

  lemma {:induction false} BacksSkip(b: Line, i: nat, c: Cmd<Span>)
    requires i <= |b|
    ensures ParseBacks(b, SkipSpace(b, i), c) == ParseBacks(b, i, c)
    ensures SkipSpace(b, SkipSpace(b, i)) == SkipSpace(b, i)
  {
    TokenSkip(b, i);
    SkipTwice(b, i);
  }

  class Parser {
    const b: Line
    var s: nat

    constructor (line: Line)
      ensures b == line && s == 0
    {
      b, s := line, 0;
    }

    method SkipBlanks()
      requires s <= |b|
      modifies this
      ensures s == SkipSpace(b, old(s))
    {
      while s < |b| && b[s] in WHITESPACE
        invariant s <= |b| && SkipSpace(b, s) == SkipSpace(b, old(s))
      {
        s := s + 1;
      }
    }

    method Peek(toks: string) returns (r: bool)
      requires s <= |b|
      modifies this
      ensures s == SkipSpace(b, old(s)) && r == ShellParse.Peek(b, old(s), toks)
    {
      SkipBlanks();
      r := s < |b| && b[s] in toks;
    }

    method GetToken() returns (kind: char, span: Span)
      requires s <= |b|
      modifies this
      ensures Token(kind, span, s) == ShellParse.GetToken(b, old(s))
    {
      SkipBlanks();
      var q := s;
      if s == |b| {
        kind := '\0';
      } else {
        match b[s] {
          case '|' | '(' | ')' | ';' | '&' | '<' =>
            kind := b[s];
            s := s + 1;
          case '>' =>
            kind := '>';
            s := s + 1;
            if s < |b| && b[s] == '>' {
              kind := '+';
              s := s + 1;
            }
          case _ =>
            kind := 'a';
            while s < |b| && b[s] !in WHITESPACE && b[s] !in SYMBOLS
              invariant q <= s <= |b| && WordEnd(b, s) == WordEnd(b, q)
            {
              s := s + 1;
            }
        }
      }
      span := Span(q, s);
      SkipBlanks();
    }

    method ParseRedirs(rs: Redirs) returns (r: Parse<Redirs>)
      requires s <= |b|
      modifies this
      ensures r == ShellParse.ParseRedirs(b, old(s), rs) && (r.Ok? ==> r.pos == s)
    {
      var out := rs;
      var more := Peek("<>");
      SkipTwice(b, old(s));
      while more
        invariant s <= |b| && more == ShellParse.Peek(b, s, "<>")
        invariant ShellParse.ParseRedirs(b, s, out) == ShellParse.ParseRedirs(b, old(s), rs)
        invariant !more ==> SkipSpace(b, s) == s
        decreases |b| - s
      {
        var tok, _ := GetToken();
        var kind, file := GetToken();
        if kind != 'a' {
          return Fail(MissingFile);
        }
        out := out + [(file, tok != '<')];
        ghost var s1 := s;
        more := Peek("<>");
        SkipTwice(b, s1);
      }
      r := Ok(out, s);
    }

    method ParseExec() returns (r: Parse<Cmd<Span>>)
      requires s <= |b|
      modifies this
      ensures r == ShellParse.ParseExec(b, old(s)) && (r.Ok? ==> r.pos == s)
      decreases |b| - s, 1
    {
      SkipTwice(b, s);
      var block := Peek("(");
      if block {
        BlockSkip(b, old(s));
        r := ParseBlock();
        return;
      }
      var redirs := ParseRedirs([]);
      if redirs.Fail? {
        return Fail(redirs.error);
      }
      r := ParseArgs(redirs.value);
    }

    /** The words of a command, with redirections anywhere among them. */
    method ParseArgs(rs: Redirs) returns (r: Parse<Cmd<Span>>)
      requires s <= |b|
      modifies this
      ensures r == ShellParse.ParseArgs(b, old(s), [], rs) && (r.Ok? ==> r.pos == s)
    {
      var args: seq<Span>, redirs := [], rs;
      SkipTwice(b, s);
      ArgsSkip(b, s, args, redirs);
      var stop := Peek("|)&;");
      while !stop
        invariant s <= |b| && SkipSpace(b, s) == s && stop == ShellParse.Peek(b, s, "|)&;")
        invariant |args| < MAXARGS
        invariant ShellParse.ParseArgs(b, s, args, redirs) == ShellParse.ParseArgs(b, old(s), [], rs)
        decreases |b| - s
      {
        var kind, word := GetToken();
        if kind == '\0' {
          break;
        }
        if kind != 'a' {
          return Fail(Syntax);
        }
        args := args + [word];
        if |args| >= MAXARGS {
          return Fail(TooManyArgs);
        }
        var next := ParseRedirs(redirs);
        if next.Fail? {
          return Fail(next.error);
        }
        redirs := next.value;
        SkipTwice(b, s);
        ArgsSkip(b, s, args, redirs);
        stop := Peek("|)&;");
      }
      r := Ok(Wrap(Exec(args), redirs), s);
    }

    method ParseBlock() returns (r: Parse<Cmd<Span>>)
      requires s <= |b| && ShellParse.Peek(b, s, "(")
      modifies this
      ensures r == ShellParse.ParseBlock(b, old(s)) && (r.Ok? ==> r.pos == s)
      decreases |b| - s, 0
    {
      var _, _ := GetToken();
      r := ParseLine();
      if r.Fail? {
        return;
      }
      ghost var p := s;
      var closed := Peek(")");
      if !closed {
        return Fail(MissingParen);
      }
      TokenSkip(b, p);
      var _, _ := GetToken();
      var redirs := ParseRedirs([]);
      if redirs.Fail? {
        return Fail(redirs.error);
      }
      r := Ok(Wrap(r.value, redirs.value), s);
    }

    method ParsePipe() returns (r: Parse<Cmd<Span>>)
      requires s <= |b|
      modifies this
      ensures r == ShellParse.ParsePipe(b, old(s)) && (r.Ok? ==> r.pos == s)
      decreases |b| - s, 2
    {
      r := ParseExec();
      if r.Fail? {
        return;
      }
      ghost var p := s;
      var more := Peek("|");
      TokenSkip(b, p);
      if !more {
        return Ok(r.value, s);
      }
      var _, _ := GetToken();
      var right := ParsePipe();
      if right.Fail? {
        return right;
      }
      r := Ok(Pipe(r.value, right.value), s);
    }

    method ParseLine() returns (r: Parse<Cmd<Span>>)
      requires s <= |b|
      modifies this
      ensures r == ShellParse.ParseLine(b, old(s)) && (r.Ok? ==> r.pos == s)
      decreases |b| - s, 3
    {
      r := ParsePipe();
      if r.Fail? {
        return;
      }
      ghost var p := s;
      var cmd := r.value;
      BacksSkip(b, p, cmd);
      var back := Peek("&");
      while back
        invariant old(s) <= s <= |b| && SkipSpace(b, s) == s && back == ShellParse.Peek(b, s, "&")
        invariant ParseBacks(b, s, cmd) == ParseBacks(b, p, r.value)
        decreases |b| - s
      {
        var _, _ := GetToken();
        cmd := Back(cmd);
        BacksSkip(b, s, cmd);
        back := Peek("&");
      }
      var more := Peek(";");
      if !more {
        return Ok(cmd, s);
      }
      var _, _ := GetToken();
      var rest := ParseLine();
      if rest.Fail? {
        return rest;
      }
      r := Ok(List(cmd, rest.value), s);
    }

    method ParseCmd() returns (r: Parse<Cmd<Span>>)
      requires s == 0
      modifies this
      ensures r == ShellParse.ParseCmd(b)
    {
      r := ParseLine();
      if r.Fail? {
        return;
      }
      var _ := Peek("");
      if s != |b| {
        return Fail(Leftovers);
      }
      r := Ok(r.value, s);
    }
  }

  /** Put a NUL at the end of every word of a command. */
  method NulTerminate(a: array<char>, c: Cmd<Span>)
    requires forall e :: e in Ends(c) ==> e < a.Length
    modifies a
    ensures forall k :: 0 <= k < a.Length ==> a[k] == if k in Ends(c) then '\0' else old(a[k])
    decreases c
  {
    match c
    case Exec(words) =>
      var i := 0;
      while i < |words|
        invariant i <= |words|
        invariant forall k :: 0 <= k < a.Length ==> a[k] == if k in Ends(Exec(words[..i])) then '\0' else old(a[k])
      {
        assert words[i].end in Ends(c);
        assert Ends(Exec(words[..i + 1])) == Ends(Exec(words[..i])) + {words[i].end} by {
          assert words[..i + 1] == words[..i] + [words[i]];
          assert words[..i + 1][i] == words[i];
        }
        a[words[i].end] := '\0';
        i := i + 1;
      }
      assert words[..i] == words;
    case Redir(d, file, _) =>
      assert file.end in Ends(c) && forall e :: e in Ends(d) ==> e in Ends(c);
      NulTerminate(a, d);
      a[file.end] := '\0';
    case Pipe(l, r) =>
      assert forall e :: e in Ends(l) || e in Ends(r) ==> e in Ends(c);
      NulTerminate(a, l);
      NulTerminate(a, r);
    case List(l, r) =>
      assert forall e :: e in Ends(l) || e in Ends(r) ==> e in Ends(c);
      NulTerminate(a, l);
      NulTerminate(a, r);
    case Back(d) =>
      assert Ends(d) == Ends(c);
      NulTerminate(a, d);
  }

  /** Parse the line in a buffer and cut it up: the command then reads, word for word, as the
      line did. */
  method ParseBuffer(a: array<char>, line: Line) returns (r: Parse<Cmd<Span>>)
    requires a.Length == |line| + 1 && a[..] == line + "\0"
    modifies a
    ensures r == ParseCmd(line)
    ensures r.Ok? ==> ReadCut(a[..], r.value) == Read(line, r.value)
  {
    var p := new Parser(line);
    r := p.ParseCmd();
    if r.Ok? {
      ParsedReadsBack(line);
      EndsInside(line, r.value);
      NulTerminate(a, r.value);
      assert a[..] == Cut(line, Ends(r.value));
    }
  }
}

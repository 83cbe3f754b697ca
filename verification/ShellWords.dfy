/**
  The words of a parsed command line: what the parser's spans cover, and what is left to read
  once nulterminate has cut the line up (Lab/code/sh.c:451-494).
 */
module ShellWords {
  import opened ShellParse

  /** A span that covers a whole word and stops at a character that is in no word. */
  ghost predicate IsWord(b: Line, w: Span) {
    && w.start < w.end <= |b|
    && (forall k :: w.start <= k < w.end ==> WordChar(b[k]))
    && (w.end < |b| ==> !WordChar(b[w.end]))
  }

  ghost predicate AllWords(b: Line, c: Cmd<Span>) {
    match c
    case Exec(ws) => forall i :: 0 <= i < |ws| ==> IsWord(b, ws[i])
    case Redir(d, f, _) => AllWords(b, d) && IsWord(b, f)
    case Pipe(l, r) => AllWords(b, l) && AllWords(b, r)
    case List(l, r) => AllWords(b, l) && AllWords(b, r)
    case Back(d) => AllWords(b, d)
  }

  ghost predicate RedirWords(b: Line, rs: Redirs) {
    forall i :: 0 <= i < |rs| ==> IsWord(b, rs[i].0)
  }

  // ---- every span the parser makes covers a word ----

  lemma {:induction false} TokenIsWord(b: Line, i: nat)
    requires i <= |b| && GetToken(b, i).kind == 'a'
    ensures IsWord(b, GetToken(b, i).span)
  {
  }

  lemma {:induction false} RedirsAreWords(b: Line, i: nat, rs: Redirs)
    requires i <= |b| && RedirWords(b, rs) && ParseRedirs(b, i, rs).Ok?
    ensures RedirWords(b, ParseRedirs(b, i, rs).value)
    decreases |b| - i
  {
    if Peek(b, i, "<>") {
      var t := GetToken(b, i);
      var f := GetToken(b, t.next);
      TokenIsWord(b, t.next);
      RedirsAreWords(b, f.next, rs + [(f.span, t.kind != '<')]);
    }
  }

  lemma {:induction false} WrapWords(b: Line, c: Cmd<Span>, rs: Redirs)
    requires AllWords(b, c) && RedirWords(b, rs)
    ensures AllWords(b, Wrap(c, rs))
  {
    if rs != [] {
      WrapWords(b, c, rs[..|rs| - 1]);
    }
  }

  lemma {:induction false} ArgsAreWords(b: Line, i: nat, args: seq<Span>, rs: Redirs)
    requires i <= |b| && RedirWords(b, rs) && AllWords(b, Exec(args)) && ParseArgs(b, i, args, rs).Ok?
    ensures AllWords(b, ParseArgs(b, i, args, rs).value)
    decreases |b| - i
  {
    WrapWords(b, Exec(args), rs);
    var t := GetToken(b, i);
    if !Peek(b, i, "|)&;") && t.kind != '\0' {
      TokenIsWord(b, i);
      RedirsAreWords(b, t.next, rs);
      var r := ParseRedirs(b, t.next, rs);
      ArgsAreWords(b, r.pos, args + [t.span], r.value);
    }
  }

  lemma {:induction false} ExecWords(b: Line, i: nat)
    requires i <= |b| && ParseExec(b, i).Ok?
    ensures AllWords(b, ParseExec(b, i).value)
    decreases |b| - i, 1
  {
    if Peek(b, i, "(") {
      BlockWords(b, i);
    } else {
      RedirsAreWords(b, SkipSpace(b, i), []);
      var r := ParseRedirs(b, SkipSpace(b, i), []);
      ArgsAreWords(b, r.pos, [], r.value);
    }
  }

  lemma {:induction false} BlockWords(b: Line, i: nat)
    requires i <= |b| && Peek(b, i, "(") && ParseBlock(b, i).Ok?
    ensures AllWords(b, ParseBlock(b, i).value)
    decreases |b| - i, 0
  {
    var j := GetToken(b, i).next;
    LineWords(b, j);
    var r := ParseLine(b, j);
    var k := GetToken(b, r.pos).next;
    RedirsAreWords(b, k, []);
    WrapWords(b, r.value, ParseRedirs(b, k, []).value);
  }

  lemma {:induction false} PipeWords(b: Line, i: nat)
    requires i <= |b| && ParsePipe(b, i).Ok?
    ensures AllWords(b, ParsePipe(b, i).value)
    decreases |b| - i, 2
  {
    ExecWords(b, i);
    var l := ParseExec(b, i);
    if Peek(b, l.pos, "|") {
      PipeWords(b, GetToken(b, l.pos).next);
    }
  }

  lemma {:induction false} BacksWords(b: Line, i: nat, c: Cmd<Span>)
    requires i <= |b| && AllWords(b, c)
    ensures AllWords(b, ParseBacks(b, i, c).0)
    decreases |b| - i
  {
    if Peek(b, i, "&") {
      BacksWords(b, GetToken(b, i).next, Back(c));
    }
  }

  /** Every span of a parsed line covers a word. */
  lemma {:induction false} LineWords(b: Line, i: nat)
    requires i <= |b| && ParseLine(b, i).Ok?
    ensures AllWords(b, ParseLine(b, i).value)
    decreases |b| - i, 3
  {
    PipeWords(b, i);
    var p := ParsePipe(b, i);
    BacksWords(b, p.pos, p.value);
    var j := ParseBacks(b, p.pos, p.value).1;
    if Peek(b, j, ";") {
      LineWords(b, GetToken(b, j).next);
    }
  }

  // ---- reading words back ----

  function Text(b: Line, w: Span): string {
    if w.start <= w.end <= |b| then b[w.start..w.end] else ""
  }

  /** The command with the text of its words. */
  function Read(b: Line, c: Cmd<Span>): Cmd<string> {
    match c
    case Exec(ws) => Exec(seq(|ws|, i requires 0 <= i < |ws| => Text(b, ws[i])))
    case Redir(d, f, o) => Redir(Read(b, d), Text(b, f), o)
    case Pipe(l, r) => Pipe(Read(b, l), Read(b, r))
    case List(l, r) => List(Read(b, l), Read(b, r))
    case Back(d) => Back(Read(b, d))
  }

  /** The characters from position i up to a NUL. */
  function CString(s: string, i: nat): string
    decreases if i < |s| then |s| - i else 0
  {
    if i >= |s| || s[i] == '\0' then "" else [s[i]] + CString(s, i + 1)
  }

  /** The command as the shell reads it: each word from its first character to a NUL. */
  function ReadCut(s: string, c: Cmd<Span>): Cmd<string> {
    match c
    case Exec(ws) => Exec(seq(|ws|, i requires 0 <= i < |ws| => CString(s, ws[i].start)))
    case Redir(d, f, o) => Redir(ReadCut(s, d), CString(s, f.start), o)
    case Pipe(l, r) => Pipe(ReadCut(s, l), ReadCut(s, r))
    case List(l, r) => List(ReadCut(s, l), ReadCut(s, r))
    case Back(d) => Back(ReadCut(s, d))
  }

  /** Where words end. */
  function Ends(c: Cmd<Span>): set<nat> {
    match c
    case Exec(ws) => set i | 0 <= i < |ws| :: ws[i].end
    case Redir(d, f, _) => Ends(d) + {f.end}
    case Pipe(l, r) => Ends(l) + Ends(r)
    case List(l, r) => Ends(l) + Ends(r)
    case Back(d) => Ends(d)
  }

  /** The line with a NUL at each of a set of positions, and its own at the end. */
  function Cut(b: Line, ends: set<nat>): (s: string)
    ensures |s| == |b| + 1
  {
    seq(|b| + 1, i requires 0 <= i <= |b| => if i in ends || i == |b| then '\0' else b[i])
  }

  ghost predicate EndsOutside(b: Line, ends: set<nat>) {
    forall e :: e in ends && e < |b| ==> !WordChar(b[e])
  }

  lemma {:induction false} EndsAreOutside(b: Line, c: Cmd<Span>)
    requires AllWords(b, c)
    ensures EndsOutside(b, Ends(c))
  {
    match c
    case Exec(ws) =>
    case Redir(d, f, _) => EndsAreOutside(b, d);
    case Pipe(l, r) =>
      EndsAreOutside(b, l);
      EndsAreOutside(b, r);
    case List(l, r) =>
      EndsAreOutside(b, l);
      EndsAreOutside(b, r);
    case Back(d) => EndsAreOutside(b, d);
  }

  lemma {:induction false} EndsInside(b: Line, c: Cmd<Span>)
    requires AllWords(b, c)
    ensures forall e :: e in Ends(c) ==> e <= |b|
  {
    match c
    case Exec(ws) =>
    case Redir(d, f, _) => EndsInside(b, d);
    case Pipe(l, r) =>
      EndsInside(b, l);
      EndsInside(b, r);
    case List(l, r) =>
      EndsInside(b, l);
      EndsInside(b, r);
    case Back(d) => EndsInside(b, d);
  }

  lemma {:induction false} WordReadsBack(b: Line, ends: set<nat>, w: Span, i: nat)
    requires EndsOutside(b, ends) && IsWord(b, w) && w.end in ends && w.start <= i <= w.end
    ensures CString(Cut(b, ends), i) == b[i..w.end]
    decreases w.end - i
  {
    if i < w.end {
      assert WordChar(b[i]);
      WordReadsBack(b, ends, w, i + 1);
      assert b[i..w.end] == [b[i]] + b[i + 1..w.end];
    }
  }

  /** With a NUL at every word's end, and wherever else words end, each word reads as its text. */
  lemma {:induction false} CutReads(b: Line, c: Cmd<Span>, ends: set<nat>)
    requires AllWords(b, c) && EndsOutside(b, ends) && Ends(c) <= ends
    ensures ReadCut(Cut(b, ends), c) == Read(b, c)
  {
    match c
    case Exec(ws) =>
      forall i | 0 <= i < |ws|
        ensures CString(Cut(b, ends), ws[i].start) == Text(b, ws[i])
      {
        assert ws[i].end in Ends(c);
        WordReadsBack(b, ends, ws[i], ws[i].start);
      }
    case Redir(d, f, _) =>
      CutReads(b, d, ends);
      WordReadsBack(b, ends, f, f.start);
    case Pipe(l, r) =>
      CutReads(b, l, ends);
      CutReads(b, r, ends);
    case List(l, r) =>
      CutReads(b, l, ends);
      CutReads(b, r, ends);
    case Back(d) => CutReads(b, d, ends);
  }

  /** Whatever line parses, its words read back from the cut line as they stood in it. */
  lemma {:induction false} ParsedReadsBack(b: Line)
    requires ParseCmd(b).Ok?
    ensures var c := ParseCmd(b).value; AllWords(b, c) && ReadCut(Cut(b, Ends(c)), c) == Read(b, c)
  {
    LineWords(b, 0);
    var c := ParseCmd(b).value;
    EndsAreOutside(b, c);
    CutReads(b, c, Ends(c));
  }
}

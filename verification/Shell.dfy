/** The command parser of user/sh.c. The line is s, without its terminating NUL; the parser's cursor goes in and out of
    each method. A panic makes the parser give up: the result is None. */
module Shell {
  import opened Prelude
  import opened ShellParse
  import opened ShellOpens
  import opened ShellSpec

  method SkipSpace(s: string, pos: nat) returns (next: nat)
    requires pos <= |s|
    ensures next == Skip(s, pos)
  {
    next := pos;
    while next < |s| && IsWhite(s[next])
      invariant White(s, pos, next)
    {
      next := next + 1;
    }
    SkipIs(s, pos, next);
  }

  /** gettoken: the kind of the next token, NUL at the end of the line, and where it is. */
  method GetToken(s: string, pos: nat) returns (tok: char, q: nat, eq: nat, next: nat)
    requires pos <= |s| && NUL !in s
    ensures q == Skip(s, pos) && tok == Kind(s, q) && (tok == NUL <==> q == |s|) && Settled(s, next)
    ensures if q == |s|
            then eq == next == |s|
            else eq == EndOf(s, q) && next == Next(s, q) && Tok(s, pos, next, q, eq, tok)
  {
    q := SkipSpace(s, pos);
    eq := q;
    if q == |s| {
      return NUL, q, eq, q;
    }
    tok := s[q];
    if s[q] == '|' || s[q] == '(' || s[q] == ')' || s[q] == ';' || s[q] == '&' || s[q] == '<' {
      eq := q + 1;
    } else if s[q] == '>' {
      eq := q + 1;
      if eq < |s| && s[eq] == '>' {
        tok, eq := '+', eq + 1;
      }
    } else {
      tok := 'a';
      eq := WordAt(s, q);
    }
    next := SkipSpace(s, eq);
    FoundTok(s, pos);
  }

  /** The loop of gettoken over a word. */
  method WordAt(s: string, q: nat) returns (eq: nat)
    requires q < |s| && IsWordChar(s[q])
    ensures Word(s, q, eq) && eq == WordEnd(s, q + 1)
  {
    eq := q;
    while eq < |s| && !IsWhite(s[eq]) && !IsSymbol(s[eq])
      invariant q <= eq <= |s| && forall i :: q <= i < eq ==> IsWordChar(s[i])
    {
      eq := eq + 1;
    }
    WordEndIs(s, q, eq);
  }

  /** peek: whether the next token begins with one of the characters. */
  method Peek(s: string, pos: nat, toks: string) returns (hit: bool, next: nat)
    requires pos <= |s|
    ensures next == Skip(s, pos) && (hit <==> At(s, next, toks))
  {
    next := SkipSpace(s, pos);
    hit := next < |s| && s[next] in toks;
  }

  /** parseredirs: adds the redirections at the cursor to the items found so far. */
  method ParseRedirs(s: string, pos: nat, items: seq<Item>) returns (ok: bool, all: seq<Item>, next: nat)
    requires NUL !in s && Settled(s, pos)
    ensures ok <==> Redirs(s, pos, items).Some?
    ensures ok ==> (all, next) == Redirs(s, pos, items).value
  {
    all, next, ok := items, pos, true;
    while true
      invariant pos <= next && Settled(s, next) && ok && Redirs(s, next, all) == Redirs(s, pos, items)
      decreases |s| - next
    {
      var hit;
      SkipSettled(s, next);
      hit, next := Peek(s, next, "<>");
      if !hit {
        return;
      }
      var tok, q, eq, m := GetToken(s, next);
      SkipSettled(s, m);
      var kind, q2, eq2, end := GetToken(s, m);
      if kind != 'a' {
        return false, all, next;
      }
      all, next := all + [Redirect(tok, (q2, eq2))], end;
    }
  }

  /** The redirections come first in a simple command. */
  lemma {:induction false} CollectRedirs(s: string, p: nat, items: seq<Item>)
    requires Settled(s, p)
    ensures var r := Redirs(s, p, items);
            Collect(s, p, items) == (if r.None? then None else Collect(s, r.value.1, r.value.0))
    ensures var r := Redirs(s, p, items); r.Some? ==> !At(s, r.value.1, "<>") && Args(r.value.0) == Args(items)
    decreases |s| - p
  {
    if At(s, p, "<>") && Kind(s, Next(s, p)) == 'a' {
      var m := Next(s, p);
      var it := Redirect(Kind(s, p), (m, EndOf(s, m)));
      assert (items + [it])[..|items|] == items;
      CollectRedirs(s, Next(s, m), items + [it]);
    }
  }

  /** parseexec: a block, or words and redirections up to a symbol that ends a command. */
  method ParseExec(s: string, pos: nat) returns (cmd: Option<Cmd>, next: nat)
    requires pos <= |s| && NUL !in s
    ensures Matches(cmd, next, PExec(s, Skip(s, pos)))
    decreases |s| - pos, 1
  {
    var hit;
    hit, next := Peek(s, pos, "(");
    if hit {
      cmd, next := ParseBlock(s, next);
      return;
    }
    var ok, items;
    ok, items, next := ParseItems(s, next);
    cmd := if ok then Some(Wrapped(Exec(Args(items)), items)) else None;
  }

  /** The part of parseexec for a command that is not a block. */
  method ParseItems(s: string, pos: nat) returns (ok: bool, items: seq<Item>, next: nat)
    requires NUL !in s && Settled(s, pos)
    ensures ok <==> Collect(s, pos, []).Some?
    ensures ok ==> (items, next) == Collect(s, pos, []).value
  {
    CollectRedirs(s, pos, []);
    ok, items, next := ParseRedirs(s, pos, []);
    if !ok {
      return;
    }
    var argc := 0;
    while true
      invariant pos <= next && Settled(s, next) && !At(s, next, "<>") && argc == |Args(items)| < MAXARGS && ok
      invariant Collect(s, next, items) == Collect(s, pos, [])
      decreases |s| - next
    {
      var hit;
      SkipSettled(s, next);
      hit, next := Peek(s, next, "|)&;");
      if hit {
        return;
      }
      var tok, q, eq, end := GetToken(s, next);
      if tok == NUL {
        return;
      }
      if tok != 'a' {
        return false, items, next;
      }
      argc := argc + 1;
      if argc >= MAXARGS {
        return false, items, next;
      }
      var more := items + [Arg((q, eq))];
      assert more[..|items|] == items;
      CollectRedirs(s, end, more);
      ok, items, next := ParseRedirs(s, end, more);
      if !ok {
        return;
      }
    }
  }

  /** A parser's result is that of the function it follows. */
  ghost predicate Matches(cmd: Option<Cmd>, next: nat, r: Option<(Cmd, nat)>) {
    (cmd.Some? <==> r.Some?) && (r.Some? ==> (cmd.value, next) == r.value)
  }

  /** parseblock: the cursor is at a parenthesis. */
  method ParseBlock(s: string, pos: nat) returns (cmd: Option<Cmd>, next: nat)
    requires NUL !in s && Settled(s, pos) && At(s, pos, "(")
    ensures Matches(cmd, next, PBlock(s, pos))
    decreases |s| - pos, 0
  {
    SkipSettled(s, pos);
    var tok, q, eq, m := GetToken(s, pos);
    var inner, n := ParseLine(s, m);
    SkipSettled(s, m);
    if inner.None? {
      return None, n;
    }
    var hit;
    SkipSettled(s, n);
    hit, next := Peek(s, n, ")");
    if !hit {
      return None, next;
    }
    var tok2, q2, eq2, k := GetToken(s, n);
    var ok, items;
    ok, items, next := ParseRedirs(s, k, []);
    cmd := if ok then Some(Wrapped(inner.value, items)) else None;
  }

  /** parsepipe */
  method ParsePipe(s: string, pos: nat) returns (cmd: Option<Cmd>, next: nat)
    requires pos <= |s| && NUL !in s
    ensures Matches(cmd, next, PPipe(s, Skip(s, pos)))
    decreases |s| - pos, 2
  {
    cmd, next := ParseExec(s, pos);
    if cmd.None? {
      return;
    }
    var hit;
    SkipSettled(s, next);
    hit, next := Peek(s, next, "|");
    if hit {
      var tok, q, eq, n := GetToken(s, next);
      SkipSettled(s, n);
      var right;
      right, next := ParsePipe(s, n);
      cmd := if right.None? then None else Some(Pipe(cmd.value, right.value));
    }
  }

  /** parseline */
  method ParseLine(s: string, pos: nat) returns (cmd: Option<Cmd>, next: nat)
    requires pos <= |s| && NUL !in s
    ensures Matches(cmd, next, PLine(s, Skip(s, pos)))
    decreases |s| - pos, 3
  {
    cmd, next := ParsePipe(s, pos);
    if cmd.None? {
      return;
    }
    ghost var start := (cmd.value, next);
    var hit;
    SkipSettled(s, next);
    hit, next := Peek(s, next, "&");
    while hit
      invariant cmd.Some? && start.1 <= next && Settled(s, next) && (hit <==> At(s, next, "&"))
      invariant PBacks(s, cmd.value, next) == PBacks(s, start.0, start.1)
      decreases |s| - next
    {
      SkipSettled(s, next);
      var tok, q, eq, end := GetToken(s, next);
      cmd := Some(Back(cmd.value));
      SkipSettled(s, end);
      hit, next := Peek(s, end, "&");
    }
    SkipSettled(s, next);
    hit, next := Peek(s, next, ";");
    if hit {
      var tok, q, eq, n := GetToken(s, next);
      SkipSettled(s, n);
      var right;
      right, next := ParseLine(s, n);
      cmd := if right.None? then None else Some(List(cmd.value, right.value));
    }
  }

  /** nulterminate: a NUL behind every word of the command, and nothing else. */
  method NulTerminate(buf: array<char>, cmd: Cmd)
    requires forall w :: w in Spans(cmd) ==> w.1 < buf.Length
    modifies buf
    ensures forall i :: 0 <= i < buf.Length ==> buf[i] == if IsEnd(Spans(cmd), i) then NUL else old(buf[i])
    decreases cmd
  {
    match cmd
    case Exec(args) =>
      TerminateArgs(buf, args);
    case Redir(c, file, _, _) =>
      NulTerminate(buf, c);
      assert file in Spans(cmd);
      buf[file.1] := NUL;
    case Pipe(l, r) =>
      NulTerminate(buf, l);
      NulTerminate(buf, r);
    case List(l, r) =>
      NulTerminate(buf, l);
      NulTerminate(buf, r);
    case Back(c) =>
      NulTerminate(buf, c);
  }

  method TerminateArgs(buf: array<char>, args: seq<Span>)
    requires forall w :: w in Spans(Exec(args)) ==> w.1 < buf.Length
    modifies buf
    ensures forall i :: 0 <= i < buf.Length ==> buf[i] == if IsEnd(Spans(Exec(args)), i) then NUL else old(buf[i])
  {
    for k := 0 to |args|
      invariant forall i ::
                  0 <= i < buf.Length ==> buf[i] == if IsEnd(Spans(Exec(args[..k])), i) then NUL else old(buf[i])
    {
      assert args[k] in Spans(Exec(args));
      ExecSpansLast(args[..k], args[k]);
      assert args[..k + 1] == args[..k] + [args[k]];
      buf[args[k].1] := NUL;
    }
    assert args[..|args|] == args;
  }

  /** strlen */
  method StrLen(buf: array<char>) returns (n: nat)
    requires exists i :: 0 <= i < buf.Length && buf[i] == NUL
    ensures n < buf.Length && buf[n] == NUL && NUL !in buf[..n]
  {
    n := 0;
    ghost var i :| 0 <= i < buf.Length && buf[i] == NUL;
    while buf[n] != NUL
      invariant n <= i && NUL !in buf[..n]
      decreases i - n
    {
      n := n + 1;
    }
  }

  /** parsecmd: accepts exactly the lines that spell a command, which is then the result. Every argument and file name,
      read in the buffer up to its NUL, is the word that the line had there; every word of the line is one of them. */
  method ParseCmd(buf: array<char>) returns (cmd: Option<Cmd>, ghost s: string)
    requires exists i :: 0 <= i < buf.Length && buf[i] == NUL
    modifies buf
    ensures |s| < buf.Length && s == old(buf[..|s|]) && NUL !in s && old(buf[|s|]) == NUL
    ensures forall c :: SpellsLine(s, 0, |s|, c) <==> cmd == Some(c)
    ensures cmd.Some? ==> Exact(s, 0, |s|, Spans(cmd.value)) && Told(s, 0, |s|, cmd.value)
    ensures cmd.Some? ==> forall w :: w in Spans(cmd.value) ==> ReadsAs(buf[..], w, s)
    ensures cmd.None? ==> buf[..] == old(buf[..])
  {
    var es := StrLen(buf);
    var line := buf[..es];
    s := line;
    var pos;
    forall c ensures SpellsLine(s, 0, |s|, c) <==> Accepts(s, c) { AcceptsIff(s, c); }
    cmd, pos := ParseLine(line, 0);
    if cmd.None? {
      return;
    }
    var hit;
    SkipSettled(s, pos);
    hit, pos := Peek(line, pos, "");
    if pos != es {
      return None, s;
    }
    LineExact(s, 0, es, cmd.value);
    LineTold(s, 0, es, cmd.value);
    Terminate(buf, cmd.value, s);
  }

  /** The end of parsecmd: every word of the command becomes a C string. */
  method Terminate(buf: array<char>, cmd: Cmd, ghost s: string)
    requires |s| < buf.Length && s == buf[..|s|] && NUL !in s && buf[|s|] == NUL && Exact(s, 0, |s|, Spans(cmd))
    modifies buf
    ensures forall w :: w in Spans(cmd) ==> ReadsAs(buf[..], w, s)
  {
    ghost var spans := Spans(cmd);
    forall w | w in spans ensures w.1 < buf.Length { assert WordSpan(s, w); }
    NulTerminate(buf, cmd);
    forall w | w in spans ensures ReadsAs(buf[..], w, s) {
      TerminatedReads(s, buf[..], spans, w);
    }
  }

  lemma TerminatedReads(s: string, all: string, spans: set<Span>, w: Span)
    requires NUL !in s && |s| < |all| && w in spans && (forall v :: v in spans ==> WordSpan(s, v))
    requires forall i :: 0 <= i <= |s| ==> all[i] == if IsEnd(spans, i) || i == |s| then NUL else s[i]
    ensures ReadsAs(all, w, s)
  {
    var t := all[..|s| + 1];
    TerminatedWords(s, t, spans, w);
    assert t[w.0..w.1] == all[w.0..w.1];
  }

  /** The C string at w.0 in buf is the word w of the line s. */
  ghost predicate ReadsAs(buf: string, w: Span, s: string) {
    w.0 < w.1 <= |s| < |buf| && buf[w.0..w.1] == s[w.0..w.1] && buf[w.1] == NUL && NUL !in buf[w.0..w.1]
  }
}

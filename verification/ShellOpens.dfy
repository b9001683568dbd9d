/** What a parsed command opens and runs, read off the command line itself (user/sh.c): which files, how and as which
    descriptor, with which arguments, and in which order. */
module ShellOpens {
  import opened ShellSpec

  const O_RDONLY := 0
  const O_WRONLY := 1
  const O_CREATE := 0x200

  /** A file that a command opens, with the mode and the descriptor it gets. */
  datatype Open = Open(file: Span, mode: nat, fd: nat)

  /** What a command opens, a redirection after those inside it. */
  function Opens(cmd: Cmd): seq<Open> {
    match cmd
    case Exec(_) => []
    case Redir(c, file, mode, fd) => Opens(c) + [Open(file, mode, fd)]
    case Pipe(l, r) => Opens(l) + Opens(r)
    case List(l, r) => Opens(l) + Opens(r)
    case Back(c) => Opens(c)
  }

  function Files(os: seq<Open>): seq<Span> { seq(|os|, i requires 0 <= i < |os| => os[i].file) }

  /** The arguments of all its simple commands. */
  function AllArgs(cmd: Cmd): seq<Span> {
    match cmd
    case Exec(args) => args
    case Redir(c, _, _, _) => AllArgs(c)
    case Pipe(l, r) => AllArgs(l) + AllArgs(r)
    case List(l, r) => AllArgs(l) + AllArgs(r)
    case Back(c) => AllArgs(c)
  }

  /** Up to white space, the character c is just before position i. */
  ghost predicate Behind(s: string, i: nat, c: char) { exists q :: BehindAt(s, i, c, q) }

  ghost predicate BehindAt(s: string, i: nat, c: char, q: nat) { q < i <= |s| && s[q] == c && White(s, q + 1, i) }

  /** The file behind < is read as descriptor 0, that behind > or >> is written, and made, as descriptor 1. */
  ghost predicate OpenedAs(s: string, o: Open) {
    || (Behind(s, o.file.0, '<') && o.mode == O_RDONLY && o.fd == 0)
    || (Behind(s, o.file.0, '>') && o.mode == O_WRONLY + O_CREATE && o.fd == 1)
  }

  /** No redirection waits for its file at position i. */
  ghost predicate Clean(s: string, i: nat) { !Behind(s, i, '<') && !Behind(s, i, '>') }

  /** The words lie between a and b, one behind the other. */
  ghost predicate Sorted(ws: seq<Span>, a: nat, b: nat) {
    && a <= b && (forall i :: 0 <= i < |ws| ==> a <= ws[i].0 <= ws[i].1 <= b)
    && (forall i, j :: 0 <= i < j < |ws| ==> ws[i].1 <= ws[j].0)
  }

  /** In the text from a to b, the files are opened as the symbols before them say, and the arguments are behind none of
      these; both are in the order of the text. */
  ghost predicate Shown(s: string, a: nat, b: nat, args: seq<Span>, os: seq<Open>) {
    && Sorted(args, a, b) && Sorted(Files(os), a, b)
    && (forall i :: 0 <= i < |os| ==> OpenedAs(s, os[i])) && (forall i :: 0 <= i < |args| ==> Clean(s, args[i].0))
  }

  ghost predicate Told(s: string, a: nat, b: nat, cmd: Cmd) { Shown(s, a, b, AllArgs(cmd), Opens(cmd)) }

  // ---------------------------------------------------------------- text

  lemma SortedConcat(x: seq<Span>, y: seq<Span>, a: nat, m: nat, n: nat, b: nat)
    requires Sorted(x, a, m) && m <= n && Sorted(y, n, b)
    ensures Sorted(x + y, a, b)
  {
  }

  lemma FilesConcat(x: seq<Open>, y: seq<Open>)
    ensures Files(x + y) == Files(x) + Files(y)
  {
  }

  lemma ShownConcat(s: string, a: nat, m: nat, n: nat, b: nat, args: seq<Span>, os: seq<Open>, args1: seq<Span>,
                    os1: seq<Open>)
    requires Shown(s, a, m, args, os) && m <= n && Shown(s, n, b, args1, os1)
    ensures Shown(s, a, b, args + args1, os + os1)
  {
    FilesConcat(os, os1);
    SortedConcat(Files(os), Files(os1), a, m, n, b);
    SortedConcat(args, args1, a, m, n, b);
  }

  /** Another character just before i leaves it clean. */
  lemma CleanBehind(s: string, i: nat, q: nat)
    requires q < i <= |s| && White(s, q + 1, i) && !IsWhite(s[q]) && s[q] != '<' && s[q] != '>'
    ensures Clean(s, i)
  {
    forall c, r: nat | c == '<' || c == '>' ensures !BehindAt(s, i, c, r) {
    }
  }

  lemma CleanWhite(s: string, a: nat, b: nat)
    requires Clean(s, a) && White(s, a, b)
    ensures Clean(s, b)
  {
    forall c, r: nat | c == '<' || c == '>' ensures !BehindAt(s, b, c, r) {
      assert BehindAt(s, b, c, r) ==> BehindAt(s, a, c, r);
    }
  }

  /** Behind a word, or a symbol that is no redirection, it is clean. */
  lemma CleanTok(s: string, a: nat, b: nat, q: nat, eq: nat, t: char)
    requires Tok(s, a, b, q, eq, t) && !RedirKind(t)
    ensures Clean(s, b)
  {
    CleanBehind(s, b, eq - 1);
  }

  lemma CleanTokIn(s: string, a: nat, b: nat, t: char)
    requires TokIn(s, a, b, t) && !RedirKind(t)
    ensures Clean(s, b) && a < b
  {
    var q: nat, eq: nat :| Tok(s, a, b, q, eq, t);
    CleanTok(s, a, b, q, eq, t);
  }

  /** Behind < or >, it is that symbol. */
  lemma RedirBehind(s: string, a: nat, m: nat, b: nat, t: char, w: Span)
    requires RedirKind(t) && TokIn(s, a, m, t) && Tok(s, m, b, w.0, w.1, 'a')
    ensures Behind(s, w.0, if t == '<' then '<' else '>') && a <= w.0 <= w.1 <= b
  {
    var q: nat, eq: nat :| Tok(s, a, m, q, eq, t);
    assert BehindAt(s, w.0, if t == '<' then '<' else '>', eq - 1);
  }

  // ---------------------------------------------------------------- simple commands

  /** What a redirection by the symbol t opens. */
  function Redirection(t: char, w: Span): Open {
    if t == '<' then Open(w, O_RDONLY, 0) else Open(w, O_WRONLY + O_CREATE, 1)
  }

  lemma WrappedLast(cmd: Cmd, items: seq<Item>, it: Item)
    ensures Opens(Wrapped(cmd, items + [it])) ==
              Opens(Wrapped(cmd, items)) + OpenOf(it)
    ensures Args(items + [it]) == Args(items) + ArgOf(it)
  {
    assert (items + [it])[..|items|] == items;
  }

  function ArgOf(it: Item): seq<Span> { if it.Arg? then [it.word] else [] }

  function OpenOf(it: Item): seq<Open> { if it.Redirect? then [Redirection(it.t, it.word)] else [] }

  /** An argument is clean, and a redirection opens its file as its symbol says. */
  lemma ItemTold(s: string, a: nat, b: nat, it: Item)
    requires ItemAt(s, a, b, it) && Clean(s, a)
    ensures Shown(s, a, b, ArgOf(it), OpenOf(it)) && Clean(s, b)
  {
    match it
    case Arg(w) =>
      CleanTok(s, a, b, w.0, w.1, 'a');
      CleanWhite(s, a, w.0);
    case Redirect(t, w) =>
      var m: nat :| TokIn(s, a, m, t) && Tok(s, m, b, w.0, w.1, 'a');
      RedirBehind(s, a, m, b, t, w);
      CleanTok(s, m, b, w.0, w.1, 'a');
  }

  /** What the items add to a command around which they stand. */
  ghost predicate ItemsTold(s: string, a: nat, b: nat, items: seq<Item>) {
    Shown(s, a, b, Args(items), Opens(Wrapped(Exec([]), items))) && Clean(s, b)
  }

  lemma ItemsMore(s: string, a: nat, m: nat, b: nat, items: seq<Item>, it: Item)
    requires ItemsTold(s, a, m, items) && ItemAt(s, m, b, it)
    ensures ItemsTold(s, a, b, items + [it])
  {
    ItemTold(s, m, b, it);
    WrappedLast(Exec([]), items, it);
    ShownConcat(s, a, m, m, b, Args(items), Opens(Wrapped(Exec([]), items)), ArgOf(it), OpenOf(it));
  }

  lemma {:induction false} SimpleTold(s: string, a: nat, b: nat, items: seq<Item>)
    requires Simple(s, a, b, items) && Clean(s, a)
    ensures ItemsTold(s, a, b, items)
    decreases |items|
  {
    if items == [] {
      CleanWhite(s, a, b);
    } else {
      var n := |items| - 1;
      var m: nat :| SimpleAt(s, a, b, m, items);
      SimpleTold(s, a, m, items[..n]);
      ItemsMore(s, a, m, b, items[..n], items[n]);
      assert items[..n] + [items[n]] == items;
    }
  }

  /** Redirections around a command are opened after what it opens itself, and change no argument. */
  lemma {:induction false} WrappedTells(cmd: Cmd, items: seq<Item>)
    ensures Opens(Wrapped(cmd, items)) == Opens(cmd) + Opens(Wrapped(Exec([]), items))
    ensures AllArgs(Wrapped(cmd, items)) == AllArgs(cmd)
    decreases |items|
  {
    if items != [] {
      WrappedTells(cmd, items[..|items| - 1]);
    }
  }

  // ---------------------------------------------------------------- the grammar

  lemma {:induction false} ExecTold(s: string, a: nat, b: nat, cmd: Cmd)
    requires SpellsExec(s, a, b, cmd) && Clean(s, a)
    ensures Told(s, a, b, cmd)
    decreases b, 1
  {
    if items :| SpellsSimple(s, a, b, cmd, items) {
      SimpleTold(s, a, b, items);
      WrappedTells(Exec(Args(items)), items);
      assert [] + Opens(Wrapped(Exec([]), items)) == Opens(Wrapped(Exec([]), items));
    } else {
      var m: nat, n: nat, k: nat, inner, items :| SpellsBlock(s, a, b, cmd, m, n, k, inner, items);
      CleanTokIn(s, a, m, '(');
      LineTold(s, m, n, inner);
      CleanTokIn(s, n, k, ')');
      SimpleTold(s, k, b, items);
      BlockTold(s, a, m, n, k, b, inner, items);
    }
  }

  lemma BlockTold(s: string, a: nat, m: nat, n: nat, k: nat, b: nat, inner: Cmd, items: seq<Item>)
    requires a <= m && Told(s, m, n, inner) && n <= k && ItemsTold(s, k, b, items)
    ensures Told(s, a, b, Wrapped(inner, items))
  {
    WrappedTells(inner, items);
    ShownConcat(s, m, n, k, b, AllArgs(inner), Opens(inner), [], Opens(Wrapped(Exec([]), items)));
    assert AllArgs(inner) + [] == AllArgs(inner);
  }

  lemma BothTold(s: string, a: nat, m: nat, n: nat, b: nat, cmd: Cmd, left: Cmd, right: Cmd)
    requires cmd == Pipe(left, right) || cmd == List(left, right)
    requires Told(s, a, m, left) && m <= n && Told(s, n, b, right)
    ensures Told(s, a, b, cmd)
  {
    ShownConcat(s, a, m, n, b, AllArgs(left), Opens(left), AllArgs(right), Opens(right));
  }

  lemma {:induction false} PipeTold(s: string, a: nat, b: nat, cmd: Cmd)
    requires SpellsPipe(s, a, b, cmd) && Clean(s, a)
    ensures Told(s, a, b, cmd)
    decreases b, 2, cmd
  {
    if SpellsExec(s, a, b, cmd) {
      ExecTold(s, a, b, cmd);
    } else {
      var m: nat, n: nat :| SpellsPipeAt(s, a, b, cmd, m, n);
      ExecTold(s, a, m, cmd.left);
      CleanTokIn(s, m, n, '|');
      PipeTold(s, n, b, cmd.right);
      BothTold(s, a, m, n, b, cmd, cmd.left, cmd.right);
    }
  }

  lemma {:induction false} BacksTold(s: string, a: nat, b: nat, cmd: Cmd)
    requires SpellsBacks(s, a, b, cmd) && Clean(s, a)
    ensures Told(s, a, b, cmd)
    decreases b, 3
  {
    if SpellsPipe(s, a, b, cmd) {
      PipeTold(s, a, b, cmd);
    } else {
      var m: nat :| SpellsBackAt(s, a, b, cmd, m);
      BacksTold(s, a, m, cmd.cmd);
      CleanTokIn(s, m, b, '&');
    }
  }

  /** Every command that text spells opens each file behind < for reading as descriptor 0, each file behind > or >> for
      writing, made if need be, as descriptor 1, and nothing else; its arguments are the other words; both in the order
      of the text. */
  lemma {:induction false} LineTold(s: string, a: nat, b: nat, cmd: Cmd)
    requires SpellsLine(s, a, b, cmd) && Clean(s, a)
    ensures Told(s, a, b, cmd)
    decreases b, 4, cmd
  {
    if SpellsBacks(s, a, b, cmd) {
      BacksTold(s, a, b, cmd);
    } else {
      var m: nat, n: nat :| SpellsListAt(s, a, b, cmd, m, n);
      BacksTold(s, a, m, cmd.left);
      CleanTokIn(s, m, n, ';');
      LineTold(s, n, b, cmd.right);
      BothTold(s, a, m, n, b, cmd, cmd.left, cmd.right);
    }
  }

  /** The words of a command are its arguments and the files it opens. */
  lemma {:induction false} WordsOf(cmd: Cmd, w: Span)
    ensures w in Spans(cmd) <==> w in AllArgs(cmd) || w in Files(Opens(cmd))
  {
    match cmd
    case Exec(_) =>
    case Redir(c, file, mode, fd) =>
      WordsOf(c, w);
      FilesConcat(Opens(c), [Open(file, mode, fd)]);
      assert Files([Open(file, mode, fd)]) == [file];
    case Pipe(l, r) =>
      WordsOf(l, w);
      WordsOf(r, w);
      FilesConcat(Opens(l), Opens(r));
    case List(l, r) =>
      WordsOf(l, w);
      WordsOf(r, w);
      FilesConcat(Opens(l), Opens(r));
    case Back(c) => WordsOf(c, w);
  }
}

/** The command language of user/sh.c: which text spells which command. Positions are indices into the command line. */
module ShellSpec {

  const NUL: char := '\0'
  const MAXARGS := 10

  /** A token of the line, from its first position to the one behind its last. */
  type Span = (nat, nat)

  datatype Cmd =
    | Exec(args: seq<Span>)
    | Redir(cmd: Cmd, file: Span, mode: nat, fd: nat)
    | Pipe(left: Cmd, right: Cmd)
    | List(left: Cmd, right: Cmd)
    | Back(cmd: Cmd)

  predicate IsWhite(c: char) { c == ' ' || c == '\t' || c == '\r' || c == '\n' || c == '\U{0B}' }
  predicate IsSymbol(c: char) { c == '<' || c == '|' || c == '>' || c == '&' || c == ';' || c == '(' || c == ')' }
  predicate IsWordChar(c: char) { !IsWhite(c) && !IsSymbol(c) }

  // ---------------------------------------------------------------- tokens

  predicate White(s: string, a: nat, b: nat) { a <= b <= |s| && forall i :: a <= i < b ==> IsWhite(s[i]) }

  /** A maximal run of word characters, as far as its end goes. */
  predicate Word(s: string, q: nat, eq: nat) {
    q < eq <= |s| && (forall i :: q <= i < eq ==> IsWordChar(s[i])) && (eq < |s| ==> !IsWordChar(s[eq]))
  }

  /** The token [q, eq) is of kind t: 'a' a word, '+' the symbol >>, else the symbol t. */
  predicate TokenAt(s: string, q: nat, eq: nat, t: char) {
    if t == 'a' then Word(s, q, eq)
    else if t == '+' then eq == q + 2 <= |s| && s[q] == '>' && s[q + 1] == '>'
    else eq == q + 1 <= |s| && s[q] == t && IsSymbol(t) && (t == '>' && eq < |s| ==> s[eq] != '>')
  }

  /** The text from a to b is the token [q, eq) of kind t between white space. */
  predicate Tok(s: string, a: nat, b: nat, q: nat, eq: nat, t: char) {
    White(s, a, q) && TokenAt(s, q, eq, t) && White(s, eq, b)
  }

  ghost predicate TokIn(s: string, a: nat, b: nat, t: char) { exists q, eq :: Tok(s, a, b, q, eq, t) }

  // ---------------------------------------------------------------- simple commands

  /** A part of a simple command: an argument, or a redirection by the symbol t. */
  datatype Item = Arg(word: Span) | Redirect(t: char, word: Span)

  predicate RedirKind(t: char) { t == '<' || t == '>' || t == '+' }

  ghost predicate ItemAt(s: string, a: nat, b: nat, it: Item) {
    match it
    case Arg(w) => Tok(s, a, b, w.0, w.1, 'a')
    case Redirect(t, w) => RedirKind(t) && exists m :: TokIn(s, a, m, t) && Tok(s, m, b, w.0, w.1, 'a')
  }

  /** The text from a to b is the items, in order. */
  ghost predicate Simple(s: string, a: nat, b: nat, items: seq<Item>)
    decreases |items|, 1
  {
    if items == [] then White(s, a, b)
    else exists m :: SimpleAt(s, a, b, m, items)
  }

  ghost predicate SimpleAt(s: string, a: nat, b: nat, m: nat, items: seq<Item>)
    requires items != []
    decreases |items|, 0
  {
    Simple(s, a, m, items[..|items| - 1]) && ItemAt(s, m, b, items[|items| - 1])
  }

  function Args(items: seq<Item>): seq<Span> {
    if items == [] then []
    else match items[|items| - 1]
         case Arg(w) => Args(items[..|items| - 1]) + [w]
         case Redirect(_, _) => Args(items[..|items| - 1])
  }

  /** O_RDONLY on descriptor 0, or O_WRONLY | O_CREATE on descriptor 1. */
  function RedirCmd(cmd: Cmd, t: char, w: Span): Cmd {
    if t == '<' then Redir(cmd, w, 0, 0) else Redir(cmd, w, 0x201, 1)
  }

  /** The redirections among the items around a command, the first innermost. */
  function Wrapped(cmd: Cmd, items: seq<Item>): Cmd {
    if items == [] then cmd
    else match items[|items| - 1]
         case Arg(_) => Wrapped(cmd, items[..|items| - 1])
         case Redirect(t, w) => RedirCmd(Wrapped(cmd, items[..|items| - 1]), t, w)
  }

  predicate OnlyRedirects(items: seq<Item>) { forall i :: 0 <= i < |items| ==> items[i].Redirect? }

  // ---------------------------------------------------------------- the grammar

  ghost predicate SpellsSimple(s: string, a: nat, b: nat, cmd: Cmd, items: seq<Item>) {
    Simple(s, a, b, items) && |Args(items)| < MAXARGS && cmd == Wrapped(Exec(Args(items)), items)
  }

  ghost predicate SpellsExec(s: string, a: nat, b: nat, cmd: Cmd)
    decreases b, 1
  {
    || (exists items :: SpellsSimple(s, a, b, cmd, items))
    || exists m, n, k, inner, items :: SpellsBlock(s, a, b, cmd, m, n, k, inner, items)
  }

  /** ( line ) and redirections. */
  ghost predicate SpellsBlock(s: string, a: nat, b: nat, cmd: Cmd, m: nat, n: nat, k: nat, inner: Cmd, items: seq<Item>)
    decreases b, 0
  {
    && n < b && SpellsLine(s, m, n, inner)
    && TokIn(s, a, m, '(') && TokIn(s, n, k, ')') && Simple(s, k, b, items) && OnlyRedirects(items)
    && cmd == Wrapped(inner, items)
  }

  ghost predicate SpellsPipe(s: string, a: nat, b: nat, cmd: Cmd)
    decreases b, 2, cmd
  {
    SpellsExec(s, a, b, cmd) || (cmd.Pipe? && exists m, n :: SpellsPipeAt(s, a, b, cmd, m, n))
  }

  ghost predicate SpellsPipeAt(s: string, a: nat, b: nat, cmd: Cmd, m: nat, n: nat)
    requires cmd.Pipe?
    decreases b, 2, cmd, 0
  {
    m < b && SpellsExec(s, a, m, cmd.left) && TokIn(s, m, n, '|') && SpellsPipe(s, n, b, cmd.right)
  }

  ghost predicate SpellsBacks(s: string, a: nat, b: nat, cmd: Cmd)
    decreases b, 3
  {
    SpellsPipe(s, a, b, cmd) || (cmd.Back? && exists m :: SpellsBackAt(s, a, b, cmd, m))
  }

  ghost predicate SpellsBackAt(s: string, a: nat, b: nat, cmd: Cmd, m: nat)
    requires cmd.Back?
    decreases b, 3, 0
  {
    m < b && SpellsBacks(s, a, m, cmd.cmd) && TokIn(s, m, b, '&')
  }

  ghost predicate SpellsLine(s: string, a: nat, b: nat, cmd: Cmd)
    decreases b, 4, cmd
  {
    SpellsBacks(s, a, b, cmd) || (cmd.List? && exists m, n :: SpellsListAt(s, a, b, cmd, m, n))
  }

  ghost predicate SpellsListAt(s: string, a: nat, b: nat, cmd: Cmd, m: nat, n: nat)
    requires cmd.List?
    decreases b, 4, cmd, 0
  {
    m < b && SpellsBacks(s, a, m, cmd.left) && TokIn(s, m, n, ';') && SpellsLine(s, n, b, cmd.right)
  }

  // ---------------------------------------------------------------- the words of a command

  function Spans(cmd: Cmd): set<Span> {
    match cmd
    case Exec(args) => set i | 0 <= i < |args| :: args[i]
    case Redir(c, file, _, _) => Spans(c) + {file}
    case Pipe(l, r) => Spans(l) + Spans(r)
    case List(l, r) => Spans(l) + Spans(r)
    case Back(c) => Spans(c)
  }

  ghost predicate WordSpan(s: string, w: Span) { Word(s, w.0, w.1) }

  ghost predicate InSpan(spans: set<Span>, i: nat) { exists w :: w in spans && w.0 <= i < w.1 }

  /** The spans are words of the line, and every word character of the text from a to b is in one. */
  ghost predicate Exact(s: string, a: nat, b: nat, spans: set<Span>) {
    && a <= b <= |s| && (forall w :: w in spans ==> WordSpan(s, w))
    && (forall i :: a <= i < b && IsWordChar(s[i]) ==> InSpan(spans, i))
  }

  lemma ExactConcat(s: string, a: nat, b: nat, c: nat, x: set<Span>, y: set<Span>)
    requires Exact(s, a, b, x) && Exact(s, b, c, y)
    ensures Exact(s, a, c, x + y)
  {
    forall i: nat | a <= i < c && IsWordChar(s[i]) ensures InSpan(x + y, i) {
      if i < b {
        var w :| w in x && w.0 <= i < w.1;
        assert w in x + y;
      } else {
        var w :| w in y && w.0 <= i < w.1;
        assert w in x + y;
      }
    }
  }

  lemma TokExact(s: string, a: nat, b: nat, q: nat, eq: nat, t: char)
    requires Tok(s, a, b, q, eq, t)
    ensures Exact(s, a, b, if t == 'a' then {(q, eq)} else {}) && a < b
  {
    var x: set<Span> := if t == 'a' then {(q, eq)} else {};
    forall i: nat | a <= i < b && IsWordChar(s[i]) ensures InSpan(x, i) {
      assert q <= i < eq;
      assert (q, eq) in x;
    }
  }

  lemma TokInExact(s: string, a: nat, b: nat, t: char)
    requires TokIn(s, a, b, t) && t != 'a'
    ensures Exact(s, a, b, {}) && a < b
  {
    var q: nat, eq: nat :| Tok(s, a, b, q, eq, t);
    TokExact(s, a, b, q, eq, t);
  }

  lemma ItemExact(s: string, a: nat, b: nat, it: Item)
    requires ItemAt(s, a, b, it)
    ensures Exact(s, a, b, {it.word})
  {
    match it
    case Arg(w) => TokExact(s, a, b, w.0, w.1, 'a');
    case Redirect(t, w) =>
      var m: nat :| TokIn(s, a, m, t) && Tok(s, m, b, w.0, w.1, 'a');
      TokInExact(s, a, m, t);
      TokExact(s, m, b, w.0, w.1, 'a');
      ExactConcat(s, a, m, b, {}, {w});
      assert {} + {w} == {w};
  }

  function ItemSpans(items: seq<Item>): set<Span> { set i | 0 <= i < |items| :: items[i].word }

  lemma {:induction false} SimpleExact(s: string, a: nat, b: nat, items: seq<Item>)
    requires Simple(s, a, b, items)
    ensures Exact(s, a, b, ItemSpans(items))
    decreases |items|
  {
    if items != [] {
      var n := |items| - 1;
      var m: nat :| SimpleAt(s, a, b, m, items);
      SimpleExact(s, a, m, items[..n]);
      ItemExact(s, m, b, items[n]);
      ExactConcat(s, a, m, b, ItemSpans(items[..n]), {items[n].word});
      ItemSpansLast(items);
    }
  }

  lemma ItemSpansLast(items: seq<Item>)
    requires items != []
    ensures ItemSpans(items) == ItemSpans(items[..|items| - 1]) + {items[|items| - 1].word}
  {
    var n := |items| - 1;
    forall w ensures w in ItemSpans(items) <==> w in ItemSpans(items[..n]) + {items[n].word} {
      if w in ItemSpans(items[..n]) {
        var i :| 0 <= i < n && items[..n][i].word == w;
        assert items[i].word == w;
      }
      if i :| 0 <= i < |items| && items[i].word == w {
        assert i < n ==> items[..n][i].word == w;
      }
    }
  }

  lemma ExecSpansLast(args: seq<Span>, w: Span)
    ensures Spans(Exec(args + [w])) == Spans(Exec(args)) + {w}
  {
    var all := args + [w];
    assert all[|args|] == w;
    forall x ensures x in Spans(Exec(all)) <==> x in Spans(Exec(args)) + {w} {
      if i :| 0 <= i < |args| && args[i] == x {
        assert all[i] == x;
      }
    }
  }

  /** A simple command has the words of its items. */
  lemma {:induction false} WrappedSpans(cmd: Cmd, items: seq<Item>)
    requires OnlyRedirects(items)
    ensures Spans(Wrapped(cmd, items)) == Spans(cmd) + ItemSpans(items)
    decreases |items|
  {
    if items != [] {
      WrappedSpans(cmd, items[..|items| - 1]);
      ItemSpansLast(items);
    }
  }

  lemma {:induction false} SimpleSpans(items: seq<Item>, args: seq<Span>)
    ensures Spans(Wrapped(Exec(args + Args(items)), items)) == Spans(Exec(args)) + ItemSpans(items)
    decreases |items|
  {
    if items == [] {
      assert args + [] == args;
    } else {
      var n := |items| - 1;
      ItemSpansLast(items);
      SimpleSpans(items[..n], args);
      WrappedMore(items[..n], args + Args(items[..n]), items[n].word);
      assert args + (Args(items[..n]) + [items[n].word]) == (args + Args(items[..n])) + [items[n].word];
    }
  }

  /** One more argument inside the redirections. */
  lemma {:induction false} WrappedMore(items: seq<Item>, args: seq<Span>, w: Span)
    ensures Spans(Wrapped(Exec(args + [w]), items)) == Spans(Wrapped(Exec(args), items)) + {w}
    decreases |items|
  {
    if items == [] {
      ExecSpansLast(args, w);
    } else {
      WrappedMore(items[..|items| - 1], args, w);
    }
  }

  lemma {:induction false} ExecExact(s: string, a: nat, b: nat, cmd: Cmd)
    requires SpellsExec(s, a, b, cmd)
    ensures Exact(s, a, b, Spans(cmd))
    decreases b, 1
  {
    if items :| SpellsSimple(s, a, b, cmd, items) {
      SimpleExact(s, a, b, items);
      SimpleSpans(items, []);
      assert [] + Args(items) == Args(items);
    } else {
      var m: nat, n: nat, k: nat, inner, items :| SpellsBlock(s, a, b, cmd, m, n, k, inner, items);
      LineExact(s, m, n, inner);
      TokInExact(s, a, m, '(');
      TokInExact(s, n, k, ')');
      SimpleExact(s, k, b, items);
      WrappedSpans(inner, items);
      ExactConcat(s, a, m, n, {}, Spans(inner));
      ExactConcat(s, n, k, b, {}, ItemSpans(items));
      ExactConcat(s, a, n, b, {} + Spans(inner), {} + ItemSpans(items));
      assert ({} + Spans(inner)) + ({} + ItemSpans(items)) == Spans(cmd);
    }
  }

  lemma {:induction false} PipeExact(s: string, a: nat, b: nat, cmd: Cmd)
    requires SpellsPipe(s, a, b, cmd)
    ensures Exact(s, a, b, Spans(cmd))
    decreases b, 2, cmd
  {
    if SpellsExec(s, a, b, cmd) {
      ExecExact(s, a, b, cmd);
    } else {
      var m: nat, n: nat :| SpellsPipeAt(s, a, b, cmd, m, n);
      ExecExact(s, a, m, cmd.left);
      TokInExact(s, m, n, '|');
      PipeExact(s, n, b, cmd.right);
      ExactBoth(s, a, m, n, b, Spans(cmd.left), Spans(cmd.right));
    }
  }

  lemma {:induction false} BacksExact(s: string, a: nat, b: nat, cmd: Cmd)
    requires SpellsBacks(s, a, b, cmd)
    ensures Exact(s, a, b, Spans(cmd))
    decreases b, 3
  {
    if SpellsPipe(s, a, b, cmd) {
      PipeExact(s, a, b, cmd);
    } else {
      var m: nat :| SpellsBackAt(s, a, b, cmd, m);
      BacksExact(s, a, m, cmd.cmd);
      TokInExact(s, m, b, '&');
      ExactConcat(s, a, m, b, Spans(cmd.cmd), {});
      assert Spans(cmd.cmd) + {} == Spans(cmd);
    }
  }

  /** A command that text spells has exactly the words of the text: its arguments and file names are words of the line,
      and every word character belongs to one of them. */
  lemma {:induction false} LineExact(s: string, a: nat, b: nat, cmd: Cmd)
    requires SpellsLine(s, a, b, cmd)
    ensures Exact(s, a, b, Spans(cmd))
    decreases b, 4, cmd
  {
    if SpellsBacks(s, a, b, cmd) {
      BacksExact(s, a, b, cmd);
    } else {
      var m: nat, n: nat :| SpellsListAt(s, a, b, cmd, m, n);
      BacksExact(s, a, m, cmd.left);
      TokInExact(s, m, n, ';');
      LineExact(s, n, b, cmd.right);
      ExactBoth(s, a, m, n, b, Spans(cmd.left), Spans(cmd.right));
    }
  }

  lemma ExactBoth(s: string, a: nat, m: nat, n: nat, b: nat, x: set<Span>, y: set<Span>)
    requires Exact(s, a, m, x) && Exact(s, m, n, {}) && Exact(s, n, b, y)
    ensures Exact(s, a, b, x + y)
  {
    ExactConcat(s, a, m, n, x, {});
    ExactConcat(s, a, n, b, x + {}, y);
    assert (x + {}) + y == x + y;
  }

  // ---------------------------------------------------------------- NUL termination

  predicate IsEnd(spans: set<Span>, i: nat) { exists w :: w in spans && w.1 == i }

  /** The NULs that end the words fall inside none of them: read up to its NUL, every word is what the line had
      there. */
  lemma TerminatedWords(s: string, t: string, spans: set<Span>, w: Span)
    requires NUL !in s && |t| == |s| + 1 && w in spans && (forall v :: v in spans ==> WordSpan(s, v))
    requires forall i :: 0 <= i <= |s| ==> t[i] == if IsEnd(spans, i) || i == |s| then NUL else s[i]
    ensures w.0 < w.1 <= |s| && t[w.0..w.1] == s[w.0..w.1] && t[w.1] == NUL && NUL !in t[w.0..w.1]
  {
    assert WordSpan(s, w) && IsEnd(spans, w.1);
    forall i: nat | w.0 <= i < w.1 ensures t[i] == s[i] {
      forall v | v in spans ensures v.1 != i { assert WordSpan(s, v); }
    }
  }
}

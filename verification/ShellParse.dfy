/** The parser of user/sh.c as functions on cursor positions, and that it finds every command that the grammar allows.
    Every cursor here is at a token or at the end of the line. */
module ShellParse {
  import opened Prelude
  import opened ShellSpec

  // ---------------------------------------------------------------- the lexer

  /** The first position from pos on that is not white space. */
  function Skip(s: string, pos: nat): (p: nat)
    requires pos <= |s|
    ensures pos <= p && Settled(s, p) && White(s, pos, p)
    decreases |s| - pos
  {
    if pos < |s| && IsWhite(s[pos]) then Skip(s, pos + 1) else pos
  }

  predicate Settled(s: string, p: nat) { p <= |s| && (p < |s| ==> !IsWhite(s[p])) }

  lemma SkipIs(s: string, pos: nat, p: nat)
    requires White(s, pos, p) && Settled(s, p)
    ensures Skip(s, pos) == p
    decreases p - pos
  {
    if pos < p {
      SkipIs(s, pos + 1, p);
    }
  }

  function WordEnd(s: string, q: nat): (eq: nat)
    requires q <= |s|
    ensures q <= eq <= |s| && (forall i :: q <= i < eq ==> IsWordChar(s[i])) && (eq < |s| ==> !IsWordChar(s[eq]))
    decreases |s| - q
  {
    if q < |s| && IsWordChar(s[q]) then WordEnd(s, q + 1) else q
  }

  lemma WordEndIs(s: string, q: nat, eq: nat)
    requires Word(s, q, eq)
    ensures WordEnd(s, q) == eq
  {
  }

  /** The kind of the token at p, NUL at the end of the line. */
  function Kind(s: string, p: nat): char
    requires p <= |s|
  {
    if p == |s| then NUL
    else if s[p] == '>' && p + 1 < |s| && s[p + 1] == '>' then '+'
    else if IsSymbol(s[p]) then s[p]
    else 'a'
  }

  function EndOf(s: string, p: nat): (eq: nat)
    requires Settled(s, p) && p < |s|
    ensures p < eq <= |s|
  {
    match Kind(s, p) case 'a' => WordEnd(s, p + 1) case '+' => p + 2 case _ => p + 1
  }

  /** The next token. */
  function Next(s: string, p: nat): (n: nat)
    requires Settled(s, p) && p < |s|
    ensures p < n && Settled(s, n)
  {
    Skip(s, EndOf(s, p))
  }

  /** A token of the grammar is the token the lexer finds. */
  lemma TokIs(s: string, a: nat, b: nat, q: nat, eq: nat, t: char)
    requires Tok(s, a, b, q, eq, t)
    ensures a < b <= |s| && Skip(s, a) == q < |s| && Kind(s, q) == t && EndOf(s, q) == eq && Skip(s, b) == Next(s, q)
  {
    assert Settled(s, q);
    SkipIs(s, a, q);
    if t == 'a' {
      WordEndIs(s, q, eq);
      assert WordEnd(s, q) == WordEnd(s, q + 1);
    }
    SkipWhite(s, eq, b);
  }

  lemma SkipWhite(s: string, a: nat, b: nat)
    requires White(s, a, b)
    ensures Skip(s, a) == Skip(s, b)
  {
    SkipIs(s, a, Skip(s, b));
  }

  lemma TokInIs(s: string, a: nat, b: nat, t: char)
    requires TokIn(s, a, b, t)
    ensures a < b <= |s| && Skip(s, a) < |s| && Kind(s, Skip(s, a)) == t && Skip(s, b) == Next(s, Skip(s, a))
  {
    var q: nat, eq: nat :| Tok(s, a, b, q, eq, t);
    TokIs(s, a, b, q, eq, t);
  }

  /** The character at p is one of toks. */
  predicate At(s: string, p: nat, toks: string) { p < |s| && s[p] in toks }

  // ---------------------------------------------------------------- the parser

  function Redirs(s: string, p: nat, items: seq<Item>): (r: Option<(seq<Item>, nat)>)
    requires Settled(s, p)
    ensures r.Some? ==> p <= r.value.1 && Settled(s, r.value.1)
    decreases |s| - p
  {
    if At(s, p, "<>") then
      var m := Next(s, p);
      if Kind(s, m) != 'a' then None else Redirs(s, Next(s, m), items + [Redirect(Kind(s, p), (m, EndOf(s, m)))])
    else Some((items, p))
  }

  /** The items of a simple command, up to a symbol that ends it. */
  function Collect(s: string, p: nat, items: seq<Item>): (r: Option<(seq<Item>, nat)>)
    requires Settled(s, p)
    ensures r.Some? ==> p <= r.value.1 && Settled(s, r.value.1)
    decreases |s| - p
  {
    if At(s, p, "<>") then
      var m := Next(s, p);
      if Kind(s, m) != 'a' then None else Collect(s, Next(s, m), items + [Redirect(Kind(s, p), (m, EndOf(s, m)))])
    else if p == |s| || At(s, p, "|)&;") then Some((items, p))
    else if Kind(s, p) != 'a' || |Args(items)| + 1 >= MAXARGS then None
    else Collect(s, Next(s, p), items + [Arg((p, EndOf(s, p)))])
  }

  function PExec(s: string, p: nat): (r: Option<(Cmd, nat)>)
    requires Settled(s, p)
    ensures r.Some? ==> p <= r.value.1 && Settled(s, r.value.1)
    decreases |s| - p, 1
  {
    if At(s, p, "(") then PBlock(s, p)
    else match Collect(s, p, [])
         case None => None
         case Some(c) => Some((Wrapped(Exec(Args(c.0)), c.0), c.1))
  }

  function PBlock(s: string, p: nat): (r: Option<(Cmd, nat)>)
    requires Settled(s, p) && At(s, p, "(")
    ensures r.Some? ==> p <= r.value.1 && Settled(s, r.value.1)
    decreases |s| - p, 0
  {
    match PLine(s, Next(s, p))
    case None => None
    case Some(c) =>
      if !At(s, c.1, ")") then None
      else match Redirs(s, Next(s, c.1), [])
           case None => None
           case Some(d) => Some((Wrapped(c.0, d.0), d.1))
  }

  function PPipe(s: string, p: nat): (r: Option<(Cmd, nat)>)
    requires Settled(s, p)
    ensures r.Some? ==> p <= r.value.1 && Settled(s, r.value.1)
    decreases |s| - p, 2
  {
    match PExec(s, p)
    case None => None
    case Some(c) =>
      if !At(s, c.1, "|") then Some(c)
      else match PPipe(s, Next(s, c.1))
           case None => None
           case Some(d) => Some((Pipe(c.0, d.0), d.1))
  }

  function PBacks(s: string, cmd: Cmd, p: nat): (r: (Cmd, nat))
    requires Settled(s, p)
    ensures p <= r.1 && Settled(s, r.1)
    decreases |s| - p
  {
    if At(s, p, "&") then PBacks(s, Back(cmd), Next(s, p)) else (cmd, p)
  }

  function PLine(s: string, p: nat): (r: Option<(Cmd, nat)>)
    requires Settled(s, p)
    ensures r.Some? ==> p <= r.value.1 && Settled(s, r.value.1)
    decreases |s| - p, 3
  {
    match PPipe(s, p)
    case None => None
    case Some(a) =>
      var c := PBacks(s, a.0, a.1);
      if !At(s, c.1, ";") then Some(c)
      else match PLine(s, Next(s, c.1))
           case None => None
           case Some(d) => Some((List(c.0, d.0), d.1))
  }

  // ---------------------------------------------------------------- items

  /** From p on the tokens are the items, up to e. */
  ghost predicate Reaches(s: string, p: nat, items: seq<Item>, e: nat)
    requires Settled(s, p)
    decreases |items|
  {
    if items == [] then p == e
    else p < |s| && match items[0]
         case Arg(w) => Kind(s, p) == 'a' && w == (p, EndOf(s, p)) && Reaches(s, Next(s, p), items[1..], e)
         case Redirect(t, w) =>
           && RedirKind(t) && Kind(s, p) == t && Next(s, p) < |s| && Kind(s, Next(s, p)) == 'a'
           && w == (Next(s, p), EndOf(s, Next(s, p))) && Reaches(s, Next(s, Next(s, p)), items[1..], e)
  }

  lemma {:induction false} ReachesMore(s: string, p: nat, items: seq<Item>, m: nat, it: Item, e: nat)
    requires Settled(s, p) && Reaches(s, p, items, m) && Settled(s, m) && Reaches(s, m, [it], e)
    ensures Reaches(s, p, items + [it], e)
    decreases |items|
  {
    if items == [] {
      assert items + [it] == [it];
    } else {
      var n := match items[0] case Arg(_) => Next(s, p) case Redirect(_, _) => Next(s, Next(s, p));
      ReachesMore(s, n, items[1..], m, it, e);
      assert (items + [it])[1..] == items[1..] + [it] && (items + [it])[0] == items[0];
    }
  }

  lemma ItemReaches(s: string, a: nat, b: nat, it: Item)
    requires ItemAt(s, a, b, it)
    ensures a <= |s| && b <= |s| && Reaches(s, Skip(s, a), [it], Skip(s, b))
  {
    match it
    case Arg(w) =>
      TokIs(s, a, b, w.0, w.1, 'a');
    case Redirect(t, w) =>
      var m: nat :| TokIn(s, a, m, t) && Tok(s, m, b, w.0, w.1, 'a');
      TokInIs(s, a, m, t);
      TokIs(s, m, b, w.0, w.1, 'a');
  }

  lemma {:induction false} SimpleReaches(s: string, a: nat, b: nat, items: seq<Item>)
    requires Simple(s, a, b, items)
    ensures a <= |s| && b <= |s| && Reaches(s, Skip(s, a), items, Skip(s, b))
    decreases |items|
  {
    if items == [] {
      SkipWhite(s, a, b);
    } else {
      var n := |items| - 1;
      var m: nat :| SimpleAt(s, a, b, m, items);
      SimpleReaches(s, a, m, items[..n]);
      ItemReaches(s, m, b, items[n]);
      ReachesMore(s, Skip(s, a), items[..n], Skip(s, m), items[n], Skip(s, b));
      assert items[..n] + [items[n]] == items;
    }
  }

  lemma {:induction false} ArgsConcat(items: seq<Item>, rest: seq<Item>)
    ensures Args(items + rest) == Args(items) + Args(rest)
    decreases |rest|
  {
    if rest == [] {
      assert items + rest == items;
    } else {
      var n := |rest| - 1;
      var all := items + rest;
      assert all[..|all| - 1] == items + rest[..n] && all[|all| - 1] == rest[n];
      ArgsConcat(items, rest[..n]);
    }
  }

  lemma ArgsRoom(items: seq<Item>, rest: seq<Item>)
    requires rest != []
    ensures (items + [rest[0]]) + rest[1..] == items + rest
    ensures rest[0].Arg? ==> |Args(items)| + 1 <= |Args(items + rest)|
  {
    var more := items + [rest[0]];
    assert more + rest[1..] == items + rest;
    ArgsConcat(more, rest[1..]);
    ArgsConcat(items, [rest[0]]);
  }

  predicate EndsSimple(s: string, e: nat) { e == |s| || At(s, e, "|)&;") }

  lemma ReachesFirst(s: string, p: nat, items: seq<Item>, e: nat) returns (n: nat)
    requires Settled(s, p) && items != [] && Reaches(s, p, items, e)
    ensures Settled(s, n) && Reaches(s, p, [items[0]], n) && Reaches(s, n, items[1..], e)
  {
    n := match items[0] case Arg(_) => Next(s, p) case Redirect(_, _) => Next(s, Next(s, p));
  }

  lemma CollectStep(s: string, p: nat, items: seq<Item>, it: Item, n: nat)
    requires Settled(s, p) && Reaches(s, p, [it], n) && (it.Arg? ==> |Args(items)| + 1 < MAXARGS)
    ensures Settled(s, n) && Collect(s, p, items) == Collect(s, n, items + [it])
  {
  }

  lemma {:induction false} CollectReaches(s: string, p: nat, items: seq<Item>, rest: seq<Item>, e: nat)
    requires Settled(s, p) && Reaches(s, p, rest, e) && EndsSimple(s, e) && |Args(items + rest)| < MAXARGS
    ensures Collect(s, p, items) == Some((items + rest, e))
    decreases |rest|
  {
    if rest == [] {
      assert items + rest == items;
    } else {
      ArgsRoom(items, rest);
      var n := ReachesFirst(s, p, rest, e);
      CollectStep(s, p, items, rest[0], n);
      CollectReaches(s, n, items + [rest[0]], rest[1..], e);
    }
  }

  lemma {:induction false} RedirsReaches(s: string, p: nat, items: seq<Item>, rest: seq<Item>, e: nat)
    requires Settled(s, p) && Reaches(s, p, rest, e) && OnlyRedirects(rest) && EndsSimple(s, e)
    ensures Redirs(s, p, items) == Some((items + rest, e))
    decreases |rest|
  {
    if rest == [] {
      assert items + rest == items;
    } else {
      assert items + [rest[0]] + rest[1..] == items + rest;
      RedirsReaches(s, Next(s, Next(s, p)), items + [rest[0]], rest[1..], e);
    }
  }

  // ---------------------------------------------------------------- every spelled command is found

  /** What can follow a pipeline, and a line. */
  predicate EndsPipe(s: string, e: nat) { e == |s| || At(s, e, ")&;") }
  predicate EndsLine(s: string, e: nat) { e == |s| || At(s, e, ")") }

  lemma {:induction false} SimpleFound(s: string, a: nat, b: nat, cmd: Cmd, items: seq<Item>)
    requires SpellsSimple(s, a, b, cmd, items) && b <= |s| && EndsSimple(s, Skip(s, b))
    ensures a <= |s| && PExec(s, Skip(s, a)) == Some((cmd, Skip(s, b)))
  {
    SimpleReaches(s, a, b, items);
    assert [] + items == items;
    CollectReaches(s, Skip(s, a), [], items, Skip(s, b));
  }

  lemma {:induction false} ExecFound(s: string, a: nat, b: nat, cmd: Cmd)
    requires SpellsExec(s, a, b, cmd) && b <= |s| && EndsSimple(s, Skip(s, b))
    ensures a <= |s| && PExec(s, Skip(s, a)) == Some((cmd, Skip(s, b)))
    decreases b, 1
  {
    if items :| SpellsSimple(s, a, b, cmd, items) {
      SimpleFound(s, a, b, cmd, items);
    } else {
      var m: nat, n: nat, k: nat, inner, items :| SpellsBlock(s, a, b, cmd, m, n, k, inner, items);
      TokInIs(s, n, k, ')');
      LineFound(s, m, n, inner);
      BlockFound(s, a, b, m, n, k, inner, items);
    }
  }

  lemma BlockFound(s: string, a: nat, b: nat, m: nat, n: nat, k: nat, inner: Cmd, items: seq<Item>)
    requires TokIn(s, a, m, '(') && TokIn(s, n, k, ')') && m <= |s| && n <= |s|
    requires PLine(s, Skip(s, m)) == Some((inner, Skip(s, n)))
    requires Simple(s, k, b, items) && OnlyRedirects(items) && b <= |s| && EndsSimple(s, Skip(s, b))
    ensures a <= |s| && PExec(s, Skip(s, a)) == Some((Wrapped(inner, items), Skip(s, b)))
  {
    TokInIs(s, a, m, '(');
    TokInIs(s, n, k, ')');
    SimpleReaches(s, k, b, items);
    RedirsReaches(s, Skip(s, k), [], items, Skip(s, b));
    assert [] + items == items;
  }

  lemma {:induction false} PipeFound(s: string, a: nat, b: nat, cmd: Cmd)
    requires SpellsPipe(s, a, b, cmd) && b <= |s| && EndsPipe(s, Skip(s, b))
    ensures a <= |s| && PPipe(s, Skip(s, a)) == Some((cmd, Skip(s, b)))
    decreases b, 2, cmd
  {
    if SpellsExec(s, a, b, cmd) {
      ExecFound(s, a, b, cmd);
    } else {
      var m: nat, n: nat :| SpellsPipeAt(s, a, b, cmd, m, n);
      TokInIs(s, m, n, '|');
      ExecFound(s, a, m, cmd.left);
      PipeFound(s, n, b, cmd.right);
    }
  }

  /** The command found so far, and what the loop over & still does, lead to cmd at the end of its text. */
  lemma {:induction false} BacksFound(s: string, a: nat, b: nat, cmd: Cmd)
    requires SpellsBacks(s, a, b, cmd) && b <= |s| && EndsPipe(s, Skip(s, b))
    ensures a <= |s| && PPipe(s, Skip(s, a)).Some?
    ensures var c := PPipe(s, Skip(s, a)).value; PBacks(s, c.0, c.1) == PBacks(s, cmd, Skip(s, b))
    decreases b, 3
  {
    if SpellsPipe(s, a, b, cmd) {
      PipeFound(s, a, b, cmd);
    } else {
      var m: nat :| SpellsBackAt(s, a, b, cmd, m);
      TokInIs(s, m, b, '&');
      BacksFound(s, a, m, cmd.cmd);
    }
  }

  /** The parser finds the command of every text that the grammar allows, so there is only one. */
  lemma {:induction false} LineFound(s: string, a: nat, b: nat, cmd: Cmd)
    requires SpellsLine(s, a, b, cmd) && b <= |s| && EndsLine(s, Skip(s, b))
    ensures a <= |s| && PLine(s, Skip(s, a)) == Some((cmd, Skip(s, b)))
    decreases b, 4, cmd
  {
    if SpellsBacks(s, a, b, cmd) {
      BacksFound(s, a, b, cmd);
    } else {
      var m: nat, n: nat :| SpellsListAt(s, a, b, cmd, m, n);
      TokInIs(s, m, n, ';');
      BacksFound(s, a, m, cmd.left);
      LineFound(s, n, b, cmd.right);
    }
  }

  /** No line spells two commands. */
  lemma Unambiguous(s: string, c: Cmd, d: Cmd)
    requires SpellsLine(s, 0, |s|, c) && SpellsLine(s, 0, |s|, d)
    ensures c == d
  {
    LineFound(s, 0, |s|, c);
    LineFound(s, 0, |s|, d);
  }

  // ---------------------------------------------------------------- every command found is spelled

  /** The lexer finds tokens of the grammar. */
  lemma FoundTok(s: string, a: nat)
    requires a <= |s| && Skip(s, a) < |s| && NUL !in s
    ensures var p := Skip(s, a); Tok(s, a, Next(s, p), p, EndOf(s, p), Kind(s, p))
  {
  }

  lemma FoundTokIn(s: string, a: nat, t: char)
    requires a <= |s| && Skip(s, a) < |s| && Kind(s, Skip(s, a)) == t && NUL !in s
    ensures TokIn(s, a, Next(s, Skip(s, a)), t)
  {
    FoundTok(s, a);
  }

  lemma SkipSettled(s: string, p: nat)
    requires Settled(s, p)
    ensures Skip(s, p) == p
  {
  }

  lemma AddItem(s: string, a: nat, m: nat, b: nat, items: seq<Item>, it: Item)
    requires Simple(s, a, m, items) && ItemAt(s, m, b, it)
    ensures Simple(s, a, b, items + [it]) && Args(items + [it]) == Args(items) + (if it.Arg? then [it.word] else [])
  {
    var all := items + [it];
    assert all[..|all| - 1] == items && all[|all| - 1] == it;
    assert SimpleAt(s, a, b, m, all);
  }

  /** A redirection at p is an item. */
  lemma RedirItem(s: string, p: nat)
    requires Settled(s, p) && At(s, p, "<>") && Kind(s, Next(s, p)) == 'a' && NUL !in s
    ensures Next(s, p) < |s|
    ensures var m := Next(s, p); ItemAt(s, p, Next(s, m), Redirect(Kind(s, p), (m, EndOf(s, m))))
  {
    var m := Next(s, p);
    SkipSettled(s, p);
    SkipSettled(s, m);
    FoundTokIn(s, p, Kind(s, p));
    FoundTok(s, m);
  }

  lemma OneMoreRedirect(items: seq<Item>, it: Item, all: seq<Item>)
    requires it.Redirect? && items + [it] <= all && OnlyRedirects(all[|items| + 1..])
    ensures items <= all && OnlyRedirects(all[|items|..])
  {
    assert all[|items|] == it;
    forall i: nat | i < |all| - |items| ensures all[|items|..][i].Redirect? {
      assert i > 0 ==> all[|items|..][i] == all[|items| + 1..][i - 1];
    }
  }

  lemma {:induction false} RedirsSpelled(s: string, a: nat, p: nat, items: seq<Item>)
    requires NUL !in s && Settled(s, p) && Simple(s, a, p, items) && Redirs(s, p, items).Some?
    ensures var c := Redirs(s, p, items).value; Simple(s, a, c.1, c.0) && items <= c.0 && OnlyRedirects(c.0[|items|..])
    decreases |s| - p
  {
    if At(s, p, "<>") {
      var m := Next(s, p);
      var it := Redirect(Kind(s, p), (m, EndOf(s, m)));
      RedirItem(s, p);
      AddItem(s, a, p, Next(s, m), items, it);
      RedirsSpelled(s, a, Next(s, m), items + [it]);
      OneMoreRedirect(items, it, Redirs(s, p, items).value.0);
    }
  }

  lemma {:induction false} CollectSpelled(s: string, a: nat, p: nat, items: seq<Item>)
    requires NUL !in s && Settled(s, p) && Simple(s, a, p, items) && |Args(items)| < MAXARGS
    requires Collect(s, p, items).Some?
    ensures var c := Collect(s, p, items).value; Simple(s, a, c.1, c.0) && |Args(c.0)| < MAXARGS
    decreases |s| - p
  {
    if At(s, p, "<>") {
      var m := Next(s, p);
      RedirItem(s, p);
      AddItem(s, a, p, Next(s, m), items, Redirect(Kind(s, p), (m, EndOf(s, m))));
      CollectSpelled(s, a, Next(s, m), items + [Redirect(Kind(s, p), (m, EndOf(s, m)))]);
    } else if p < |s| && !At(s, p, "|)&;") {
      SkipSettled(s, p);
      FoundTok(s, p);
      AddItem(s, a, p, Next(s, p), items, Arg((p, EndOf(s, p))));
      CollectSpelled(s, a, Next(s, p), items + [Arg((p, EndOf(s, p)))]);
    }
  }

  lemma {:induction false} ExecSpelled(s: string, a: nat)
    requires NUL !in s && a <= |s| && PExec(s, Skip(s, a)).Some?
    ensures var c := PExec(s, Skip(s, a)).value; SpellsExec(s, a, c.1, c.0)
    decreases |s| - Skip(s, a), 1
  {
    var p := Skip(s, a);
    var c := PExec(s, p).value;
    if At(s, p, "(") {
      BlockSpelled(s, a);
    } else {
      CollectSpelled(s, a, p, []);
      assert SpellsSimple(s, a, c.1, c.0, Collect(s, p, []).value.0);
    }
  }

  lemma {:induction false} BlockSpelled(s: string, a: nat)
    requires NUL !in s && a <= |s| && At(s, Skip(s, a), "(") && PBlock(s, Skip(s, a)).Some?
    ensures var c := PBlock(s, Skip(s, a)).value; SpellsExec(s, a, c.1, c.0)
    decreases |s| - Skip(s, a), 0
  {
    var p := Skip(s, a);
    var m := Next(s, p);
    FoundTokIn(s, a, '(');
    SkipSettled(s, m);
    LineSpelled(s, m);
    var inner := PLine(s, m).value;
    var n := inner.1;
    var k := Next(s, n);
    SkipSettled(s, n);
    FoundTokIn(s, n, ')');
    RedirsSpelled(s, k, k, []);
    var d := Redirs(s, k, []).value;
    assert d.0[0..] == d.0;
    assert SpellsBlock(s, a, d.1, Wrapped(inner.0, d.0), m, n, k, inner.0, d.0);
  }

  lemma {:induction false} PipeSpelled(s: string, a: nat)
    requires NUL !in s && a <= |s| && PPipe(s, Skip(s, a)).Some?
    ensures var c := PPipe(s, Skip(s, a)).value; SpellsPipe(s, a, c.1, c.0)
    decreases |s| - Skip(s, a), 2
  {
    ExecSpelled(s, a);
    var c := PExec(s, Skip(s, a)).value;
    if At(s, c.1, "|") {
      var n := Next(s, c.1);
      SkipSettled(s, c.1);
      FoundTokIn(s, c.1, '|');
      SkipSettled(s, n);
      PipeSpelled(s, n);
      var d := PPipe(s, n).value;
      assert SpellsPipeAt(s, a, d.1, Pipe(c.0, d.0), c.1, n);
    }
  }

  lemma {:induction false} BacksSpelled(s: string, a: nat, cmd: Cmd, p: nat)
    requires NUL !in s && Settled(s, p) && SpellsBacks(s, a, p, cmd)
    ensures var c := PBacks(s, cmd, p); SpellsBacks(s, a, c.1, c.0)
    decreases |s| - p
  {
    if At(s, p, "&") {
      SkipSettled(s, p);
      FoundTokIn(s, p, '&');
      assert SpellsBackAt(s, a, Next(s, p), Back(cmd), p);
      BacksSpelled(s, a, Back(cmd), Next(s, p));
    }
  }

  /** What the parser returns is spelled by the text it has read. */
  lemma {:induction false} LineSpelled(s: string, a: nat)
    requires NUL !in s && a <= |s| && PLine(s, Skip(s, a)).Some?
    ensures var c := PLine(s, Skip(s, a)).value; SpellsLine(s, a, c.1, c.0)
    decreases |s| - Skip(s, a), 3
  {
    PipeSpelled(s, a);
    var b := PPipe(s, Skip(s, a)).value;
    BacksSpelled(s, a, b.0, b.1);
    var c := PBacks(s, b.0, b.1);
    if At(s, c.1, ";") {
      var n := Next(s, c.1);
      SkipSettled(s, c.1);
      FoundTokIn(s, c.1, ';');
      SkipSettled(s, n);
      LineSpelled(s, n);
      var d := PLine(s, n).value;
      assert SpellsListAt(s, a, d.1, List(c.0, d.0), c.1, n);
    }
  }

  /** The parser reads the whole line as cmd. */
  ghost predicate Accepts(s: string, cmd: Cmd) {
    var r := PLine(s, Skip(s, 0));
    r.Some? && r.value.0 == cmd && r.value.1 == |s|
  }

  /** The parser accepts exactly the lines of the grammar, with exactly the commands they spell. */
  lemma AcceptsIff(s: string, cmd: Cmd)
    requires NUL !in s
    ensures Accepts(s, cmd) <==> SpellsLine(s, 0, |s|, cmd)
  {
    if Accepts(s, cmd) {
      LineSpelled(s, 0);
    }
    if SpellsLine(s, 0, |s|, cmd) {
      LineFound(s, 0, |s|, cmd);
    }
  }
}

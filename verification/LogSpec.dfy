/** The redo log on disk (kernel/log.c): what commit and recovery write, and what every crash leaves behind.
    One block write is atomic; a crash may fall between any two. */
module LogSpec {
  import opened Prelude
  import opened Bio

  const LOGSIZE := 30
  const MAXOPBLOCKS := 10

  /** The log's place on its device: a header block and the slots behind it. */
  datatype Layout = Layout(dev: nat, start: nat, size: nat)

  function Hdr(l: Layout): Key { Key(l.dev, l.start) }

  function Slot(l: Layout, i: nat): Key { Key(l.dev, l.start + 1 + i) }

  predicate InLog(l: Layout, k: Key) { k.dev == l.dev && l.start <= k.blockno < l.start + l.size }

  /** The header block after write_head: count, block numbers, and whatever the block held behind them. */
  function HeaderOf(before: Block, bs: seq<nat>): (h: Block)
    requires |bs| <= LOGSIZE
  {
    seq(WORDS, i requires 0 <= i < WORDS => if i == 0 then |bs| else if i <= |bs| then bs[i - 1] else before[i])
  }

  /** The block numbers read_head finds. */
  function Logged(h: Block): seq<nat>
    requires h[0] <= LOGSIZE
  {
    h[1..1 + h[0]]
  }

  /** On disk, the header block is the first of the log: the count, and then the block numbers in order. */
  ghost predicate HeaderOnDisk(l: Layout, d: Disk, bs: seq<nat>) {
    var k := Key(l.dev, l.start);
    |bs| <= LOGSIZE && k in d && d[k][0] == |bs| && forall i :: 0 <= i < |bs| ==> d[k][1 + i] == bs[i]
  }

  /** Behind it are the logged blocks, in the same order. */
  ghost predicate SlotsOnDisk(l: Layout, d: Disk, datas: seq<Block>) {
    forall i :: 0 <= i < |datas| ==> SlotOnDisk(l, d, i, datas[i])
  }

  ghost predicate SlotOnDisk(l: Layout, d: Disk, i: nat, x: Block) {
    var k := Key(l.dev, l.start + 1 + i); k in d && d[k] == x
  }

  lemma HeaderRoundTrip(before: Block, bs: seq<nat>)
    requires |bs| <= LOGSIZE
    ensures HeaderOf(before, bs)[0] == |bs| && Logged(HeaderOf(before, bs)) == bs
  {
  }

  // ---------------------------------------------------------------- sequences of writes

  /** The last value written to k, if any. */
  function Last(ws: Writes, k: Key): Option<Block> {
    if ws == [] then None
    else if ws[|ws| - 1].0 == k then Some(ws[|ws| - 1].1)
    else Last(ws[..|ws| - 1], k)
  }

  lemma {:induction false} ApplyAt(d: Disk, ws: Writes, k: Key)
    ensures k in Apply(d, ws) <==> k in d || Last(ws, k).Some?
    ensures Last(ws, k).Some? ==> Apply(d, ws)[k] == Last(ws, k).value
    ensures Last(ws, k).None? && k in d ==> Apply(d, ws)[k] == d[k]
    decreases |ws|
  {
    if ws != [] {
      ApplyAt(d, ws[..|ws| - 1], k);
    }
  }

  lemma {:induction false} LastAppend(a: Writes, b: Writes, k: Key)
    ensures Last(a + b, k) == if Last(b, k).Some? then Last(b, k) else Last(a, k)
    decreases |b|
  {
    if b == [] {
      assert a + b == a;
    } else {
      assert (a + b)[..|a + b| - 1] == a + b[..|b| - 1];
      LastAppend(a, b[..|b| - 1], k);
    }
  }

  lemma {:induction false} LastWritten(ws: Writes, k: Key)
    ensures Last(ws, k).Some? <==> exists i :: 0 <= i < |ws| && ws[i].0 == k
    decreases |ws|
  {
    if ws != [] {
      LastWritten(ws[..|ws| - 1], k);
      if i :| 0 <= i < |ws| && ws[i].0 == k && i != |ws| - 1 {
        assert ws[..|ws| - 1][i].0 == k;
      }
    }
  }

  /** The last value written to k is one that was written to it. */
  lemma {:induction false} LastAmong(ws: Writes, k: Key)
    requires Last(ws, k).Some?
    ensures exists i :: 0 <= i < |ws| && ws[i] == (k, Last(ws, k).value)
    decreases |ws|
  {
    var m := |ws| - 1;
    if ws[m].0 == k {
      assert ws[m] == (k, Last(ws, k).value);
    } else {
      LastAmong(ws[..m], k);
      var i :| 0 <= i < m && ws[..m][i] == (k, Last(ws, k).value);
      assert ws[i] == (k, Last(ws, k).value);
    }
  }

  lemma ApplyAppend(d: Disk, a: Writes, b: Writes)
    ensures Apply(d, a + b) == Apply(Apply(d, a), b)
  {
    forall k ensures (k in Apply(d, a + b) <==> k in Apply(Apply(d, a), b))
      && (k in Apply(d, a + b) ==> Apply(d, a + b)[k] == Apply(Apply(d, a), b)[k])
    {
      ApplyAt(d, a + b, k);
      ApplyAt(d, a, k);
      ApplyAt(Apply(d, a), b, k);
      LastAppend(a, b, k);
    }
  }

  /** Repeating the whole after any prefix of it ends where the whole does. */
  lemma PrefixAbsorbed(d: Disk, ws: Writes, j: nat)
    requires j <= |ws|
    ensures Apply(Apply(d, ws[..j]), ws) == Apply(d, ws)
  {
    forall k ensures (k in Apply(Apply(d, ws[..j]), ws) <==> k in Apply(d, ws))
      && (k in Apply(d, ws) ==> Apply(Apply(d, ws[..j]), ws)[k] == Apply(d, ws)[k])
    {
      ApplyAt(d, ws, k);
      ApplyAt(d, ws[..j], k);
      ApplyAt(Apply(d, ws[..j]), ws, k);
      assert ws == ws[..j] + ws[j..];
      LastAppend(ws[..j], ws[j..], k);
    }
  }

  // ---------------------------------------------------------------- commit and recovery as writes

  /** install_trans: slot i's block goes to its home. */
  function HomeWrites(l: Layout, bs: seq<nat>, datas: seq<Block>): Writes
    requires |bs| == |datas|
  {
    seq(|bs|, i requires 0 <= i < |bs| => (Key(l.dev, bs[i]), datas[i]))
  }

  /** write_log: the modified blocks go to the slots. */
  function SlotWrites(l: Layout, datas: seq<Block>): Writes {
    seq(|datas|, i requires 0 <= i < |datas| => (Slot(l, i), datas[i]))
  }

  function CommitWrites(l: Layout, before: Block, bs: seq<nat>, datas: seq<Block>): Writes
    requires |bs| == |datas| <= LOGSIZE
  {
    SlotWrites(l, datas)
    + [(Hdr(l), HeaderOf(before, bs))]
    + HomeWrites(l, bs, datas)
    + [(Hdr(l), HeaderOf(HeaderOf(before, bs), []))]
  }

  /** A disk whose log header names blocks outside the log, with all the blocks it needs. */
  ghost predicate LogOk(l: Layout, d: Disk) {
    && l.size >= 1 && Hdr(l) in d && d[Hdr(l)][0] <= LOGSIZE && d[Hdr(l)][0] < l.size
    && HomesOk(l, d, Logged(d[Hdr(l)]))
    && forall i :: 0 <= i < l.size - 1 ==> Slot(l, i) in d
  }

  ghost predicate HomesOk(l: Layout, d: Disk, bs: seq<nat>) {
    forall i :: 0 <= i < |bs| ==> Key(l.dev, bs[i]) in d && !InLog(l, Key(l.dev, bs[i]))
  }

  function SlotData(l: Layout, d: Disk, n: nat): seq<Block>
    requires forall i :: 0 <= i < n ==> Slot(l, i) in d
  {
    seq(n, i requires 0 <= i < n => d[Slot(l, i)])
  }

  ghost function RecoveryWrites(l: Layout, d: Disk): Writes
    requires LogOk(l, d)
  {
    var bs := Logged(d[Hdr(l)]);
    HomeWrites(l, bs, SlotData(l, d, |bs|)) + [(Hdr(l), HeaderOf(d[Hdr(l)], []))]
  }

  /** The disk after recover_from_log has run to the end. */
  ghost function Recovered(l: Layout, d: Disk): Disk
    requires LogOk(l, d)
  {
    Apply(d, RecoveryWrites(l, d))
  }

  /** Equal outside the log. */
  ghost predicate SameHome(l: Layout, d: Disk, e: Disk) {
    d.Keys == e.Keys && forall k :: k in d && !InLog(l, k) ==> d[k] == e[k]
  }

  lemma HomeLast(l: Layout, bs: seq<nat>, datas: seq<Block>, k: Key)
    requires |bs| == |datas| && InLog(l, k) && forall i :: 0 <= i < |bs| ==> !InLog(l, Key(l.dev, bs[i]))
    ensures Last(HomeWrites(l, bs, datas), k).None?
  {
    LastWritten(HomeWrites(l, bs, datas), k);
  }

  /** Home writes change neither the header nor the slots. */
  lemma HomeWritesKeepLog(l: Layout, d: Disk, bs: seq<nat>, datas: seq<Block>, j: nat)
    requires LogOk(l, d) && HomesOk(l, d, bs) && |bs| == |datas| && j <= |bs|
    ensures var e := Apply(d, HomeWrites(l, bs, datas)[..j]);
            LogOk(l, e) && e[Hdr(l)] == d[Hdr(l)] && e.Keys == d.Keys
            && forall i :: 0 <= i < l.size - 1 ==> e[Slot(l, i)] == d[Slot(l, i)]
  {
    var ws := HomeWrites(l, bs, datas);
    var e := Apply(d, ws[..j]);
    assert ws == ws[..j] + ws[j..];
    forall k | InLog(l, k) ensures (k in e <==> k in d) && (k in d ==> e[k] == d[k]) {
      HomeLast(l, bs, datas, k);
      LastAppend(ws[..j], ws[j..], k);
      LastWritten(ws[..j], k);
      LastWritten(ws, k);
      ApplyAt(d, ws[..j], k);
    }
    forall k ensures k in e <==> k in d {
      ApplyAt(d, ws[..j], k);
      LastWritten(ws[..j], k);
    }
    assert InLog(l, Hdr(l));
  }

  // ---------------------------------------------------------------- crashes

  lemma ClearedHeader(h: Block)
    requires h[0] <= LOGSIZE
    ensures HeaderOf(h, [])[0] == 0 && HeaderOf(HeaderOf(h, []), []) == HeaderOf(h, [])
    ensures h[0] == 0 ==> HeaderOf(h, []) == h
  {
  }

  /** With an empty log, recovery changes nothing at all. */
  lemma EmptyLogRecovers(l: Layout, d: Disk)
    requires LogOk(l, d) && d[Hdr(l)][0] == 0
    ensures Recovered(l, d) == d
  {
    ClearedHeader(d[Hdr(l)]);
    var ws := RecoveryWrites(l, d);
    assert ws == [(Hdr(l), d[Hdr(l)])];
    assert ws[..|ws| - 1] == [];
    assert Apply(d, []) == d;
  }

  /** Recovery interrupted after any of its writes still has the same outcome, so any number of crashes does. */
  lemma RecoveryCrash(l: Layout, d: Disk, j: nat)
    requires LogOk(l, d) && j <= |RecoveryWrites(l, d)|
    ensures var e := Apply(d, RecoveryWrites(l, d)[..j]);
            LogOk(l, e) && Recovered(l, e) == Recovered(l, d) && (j == |RecoveryWrites(l, d)| ==> e[Hdr(l)][0] == 0)
  {
    var ws := RecoveryWrites(l, d);
    var bs := Logged(d[Hdr(l)]);
    var hs := HomeWrites(l, bs, SlotData(l, d, |bs|));
    var clear := [(Hdr(l), HeaderOf(d[Hdr(l)], []))];
    var e := Apply(d, ws[..j]);
    if j < |ws| {
      assert ws[..j] == hs[..j];
      HomeWritesKeepLog(l, d, bs, SlotData(l, d, |bs|), j);
      assert SlotData(l, e, |bs|) == SlotData(l, d, |bs|);
      assert RecoveryWrites(l, e) == ws;
      PrefixAbsorbed(d, ws, j);
    } else {
      assert ws[..j] == ws;
      assert hs[..|bs|] == hs;
      HomeWritesKeepLog(l, d, bs, SlotData(l, d, |bs|), |bs|);
      ApplyAppend(d, hs, clear);
      var m := Apply(d, hs);
      assert clear[..0] == [] && Apply(m, []) == m;
      assert e == m[Hdr(l) := HeaderOf(d[Hdr(l)], [])];
      ClearedHeader(d[Hdr(l)]);
      assert LogOk(l, e);
      EmptyLogRecovers(l, e);
    }
  }

  /** What commit starts from: an empty log on disk, and distinct-or-not home blocks outside it that fit its slots. */
  ghost predicate TxnOk(l: Layout, d: Disk, bs: seq<nat>, datas: seq<Block>) {
    LogOk(l, d) && d[Hdr(l)][0] == 0 && |bs| == |datas| && |bs| <= LOGSIZE && |bs| < l.size && HomesOk(l, d, bs)
  }

  /** The disk with the whole transaction applied to the home blocks. */
  function Post(l: Layout, d: Disk, bs: seq<nat>, datas: seq<Block>): Disk
    requires |bs| == |datas|
  {
    Apply(d, HomeWrites(l, bs, datas))
  }

  lemma PostAgrees(l: Layout, d: Disk, e: Disk, bs: seq<nat>, datas: seq<Block>)
    requires |bs| == |datas| && SameHome(l, d, e)
    ensures SameHome(l, Post(l, d, bs, datas), Post(l, e, bs, datas))
  {
    var ws := HomeWrites(l, bs, datas);
    forall k
      ensures k in Apply(d, ws) <==> k in Apply(e, ws)
      ensures k in Apply(d, ws) && !InLog(l, k) ==> Apply(d, ws)[k] == Apply(e, ws)[k]
    {
      ApplyAt(d, ws, k);
      ApplyAt(e, ws, k);
    }
    assert Apply(d, ws).Keys == Apply(e, ws).Keys;
  }

  /** Writing slots leaves the log empty and the home blocks alone. */
  lemma SlotsOnly(l: Layout, d: Disk, bs: seq<nat>, datas: seq<Block>, j: nat)
    requires TxnOk(l, d, bs, datas) && j <= |datas|
    ensures var e := Apply(d, SlotWrites(l, datas)[..j]);
            && LogOk(l, e) && e[Hdr(l)] == d[Hdr(l)] && SameHome(l, e, d)
            && forall i :: 0 <= i < j ==> e[Slot(l, i)] == datas[i]
    decreases j
  {
    var ws := SlotWrites(l, datas);
    if j > 0 {
      SlotsOnly(l, d, bs, datas, j - 1);
      assert ws[..j][..j - 1] == ws[..j - 1];
    } else {
      assert ws[..0] == [];
    }
  }

  /** The disk just after the commit point: slots filled, header naming them. */
  lemma CommitPoint(l: Layout, d: Disk, bs: seq<nat>, datas: seq<Block>) returns (c: Disk)
    requires TxnOk(l, d, bs, datas)
    ensures c == Apply(d, SlotWrites(l, datas) + [(Hdr(l), HeaderOf(d[Hdr(l)], bs))])
    ensures LogOk(l, c) && c[Hdr(l)] == HeaderOf(d[Hdr(l)], bs) && Logged(c[Hdr(l)]) == bs
    ensures SlotData(l, c, |bs|) == datas
    ensures SameHome(l, c, d)
  {
    var ws := SlotWrites(l, datas);
    var h := [(Hdr(l), HeaderOf(d[Hdr(l)], bs))];
    assert ws[..|datas|] == ws;
    SlotsOnly(l, d, bs, datas, |datas|);
    var e := Apply(d, ws);
    ApplyAppend(d, ws, h);
    assert h[..0] == [] && Apply(e, []) == e;
    c := e[Hdr(l) := HeaderOf(d[Hdr(l)], bs)];
    HeaderRoundTrip(d[Hdr(l)], bs);
  }

  /** All or nothing: a crash after any write of commit leaves a disk that recovers to the state before the
      transaction, up to the header write, and to the state after it from then on. */
  lemma CommitCrash(l: Layout, d: Disk, bs: seq<nat>, datas: seq<Block>, j: nat)
    requires TxnOk(l, d, bs, datas) && j <= |CommitWrites(l, d[Hdr(l)], bs, datas)|
    ensures var ws := CommitWrites(l, d[Hdr(l)], bs, datas);
            var e := Apply(d, ws[..j]);
            && LogOk(l, e)
            && SameHome(l, Recovered(l, e), if j <= |bs| then d else Post(l, d, bs, datas))
            && (j == |ws| ==> e[Hdr(l)][0] == 0)
  {
    var ws := CommitWrites(l, d[Hdr(l)], bs, datas);
    var e := Apply(d, ws[..j]);
    if j <= |bs| {
      assert ws[..j] == SlotWrites(l, datas)[..j];
      SlotsOnly(l, d, bs, datas, j);
      EmptyLogRecovers(l, e);
    } else {
      var c := CommitPoint(l, d, bs, datas);
      var first := SlotWrites(l, datas) + [(Hdr(l), HeaderOf(d[Hdr(l)], bs))];
      assert SlotData(l, c, |bs|) == datas;
      assert ws == first + RecoveryWrites(l, c);
      var i := j - |bs| - 1;
      assert ws[..j] == first + RecoveryWrites(l, c)[..i];
      ApplyAppend(d, first, RecoveryWrites(l, c)[..i]);
      RecoveryCrash(l, c, i);
      RecoveredIsPost(l, c, bs, datas);
      PostAgrees(l, c, d, bs, datas);
    }
  }

  lemma RecoveredIsPost(l: Layout, c: Disk, bs: seq<nat>, datas: seq<Block>)
    requires LogOk(l, c) && Logged(c[Hdr(l)]) == bs && |bs| == |datas| && SlotData(l, c, |bs|) == datas
    ensures SameHome(l, Recovered(l, c), Post(l, c, bs, datas))
  {
    var hs := HomeWrites(l, bs, datas);
    var clear := [(Hdr(l), HeaderOf(c[Hdr(l)], []))];
    ApplyAppend(c, hs, clear);
    var m := Apply(c, hs);
    assert clear[..0] == [] && Apply(m, []) == m;
    assert hs[..|bs|] == hs;
    HomeWritesKeepLog(l, c, bs, datas, |bs|);
    assert InLog(l, Hdr(l));
  }

  // ---------------------------------------------------------------- runs with crashes

  /** A transaction stopped after cut writes (all of them if it was not stopped), or a recovery likewise. */
  datatype Event = Txn(bs: seq<nat>, datas: seq<Block>, cut: nat) | Reboot(cut: nat)

  /** up: the last commit or recovery ran to its end, so transactions may start. */
  datatype Machine = Machine(disk: Disk, up: bool)

  ghost predicate Step(l: Layout, m: Machine, e: Event, m': Machine) {
    LogOk(l, m.disk) &&
    match e
    case Txn(bs, datas, cut) =>
      && m.up && TxnOk(l, m.disk, bs, datas)
      && var ws := CommitWrites(l, m.disk[Hdr(l)], bs, datas);
         cut <= |ws| && m' == Machine(Apply(m.disk, ws[..cut]), cut == |ws|)
    case Reboot(cut) =>
      var ws := RecoveryWrites(l, m.disk);
      cut <= |ws| && m' == Machine(Apply(m.disk, ws[..cut]), cut == |ws|)
  }

  /** What users of the file system may rely on: a transaction counts once its header write reached the disk. */
  function Advance(l: Layout, home: Disk, e: Event): Disk {
    match e
    case Txn(bs, datas, cut) => if cut > |bs| && |bs| == |datas| then Post(l, home, bs, datas) else home
    case Reboot(_) => home
  }

  function Ideal(l: Layout, home: Disk, es: seq<Event>): Disk {
    if es == [] then home else Advance(l, Ideal(l, home, es[..|es| - 1]), es[|es| - 1])
  }

  ghost predicate Run(l: Layout, ms: seq<Machine>, es: seq<Event>) {
    |ms| == |es| + 1 && forall i :: 0 <= i < |es| ==> Step(l, ms[i], es[i], ms[i + 1])
  }

  /** Recovery would show exactly home; a machine that is up shows it already, with an empty log. */
  ghost predicate Shows(l: Layout, m: Machine, home: Disk) {
    LogOk(l, m.disk) && SameHome(l, Recovered(l, m.disk), home)
    && (m.up ==> m.disk[Hdr(l)][0] == 0 && SameHome(l, m.disk, home))
  }

  lemma StepIsAtomic(l: Layout, m: Machine, e: Event, m': Machine, home: Disk)
    requires Step(l, m, e, m') && Shows(l, m, home)
    ensures Shows(l, m', Advance(l, home, e))
  {
    match e
    case Txn(bs, datas, cut) =>
      CommitCrash(l, m.disk, bs, datas, cut);
      PostAgrees(l, m.disk, home, bs, datas);
      if m'.up {
        EmptyLogRecovers(l, m'.disk);
      }
    case Reboot(cut) =>
      RecoveryCrash(l, m.disk, cut);
      if m'.up {
        EmptyLogRecovers(l, m'.disk);
      }
  }

  /** Over every run of transactions and recoveries, each cut off anywhere, recovering gives exactly the
      transactions that reached their commit point, each in full. */
  lemma {:induction false} RunsAreAtomic(l: Layout, ms: seq<Machine>, es: seq<Event>, home: Disk)
    requires Run(l, ms, es) && Shows(l, ms[0], home)
    ensures Shows(l, ms[|es|], Ideal(l, home, es))
    decreases |es|
  {
    if es != [] {
      var n := |es| - 1;
      RunsAreAtomic(l, ms[..|ms| - 1], es[..n], home);
      assert Step(l, ms[n], es[n], ms[n + 1]);
      StepIsAtomic(l, ms[n], es[n], ms[n + 1], Ideal(l, home, es[..n]));
    }
  }
}

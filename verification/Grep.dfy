/** The regular expression matcher and the line loop of user/grep.c. Strings are without their terminating NUL. */
module Grep {

  // ---------------------------------------------------------------- what patterns mean

  datatype Item = One(c: char) | Star(c: char)

  predicate Hit(c: char, x: char) { c == '.' || c == x }

  predicate AllHit(c: char, w: string) { forall i :: 0 <= i < |w| ==> Hit(c, w[i]) }

  ghost predicate ItemMatches(it: Item, w: string) {
    match it case One(c) => |w| == 1 && Hit(c, w[0]) case Star(c) => AllHit(c, w)
  }

  /** w is a concatenation of words of the items. */
  ghost predicate InLanguage(items: seq<Item>, w: string)
    decreases |items|, 1
  {
    if items == [] then w == [] else exists k :: SplitsAt(items, w, k)
  }

  /** The first item takes k characters of w, the other items the rest. */
  ghost predicate SplitsAt(items: seq<Item>, w: string, k: nat)
    requires items != []
    decreases |items|, 0
  {
    k <= |w| && ItemMatches(items[0], w[..k]) && InLanguage(items[1..], w[k..])
  }

  /** The items of a pattern without ^. */
  function Items(re: string): seq<Item> {
    if re == [] || re == "$" then []
    else if |re| >= 2 && re[1] == '*' then [Star(re[0])] + Items(re[2..])
    else [One(re[0])] + Items(re[1..])
  }

  /** The pattern ends in an anchor: a $ that is last and not starred. */
  predicate AnchoredEnd(re: string) {
    if re == [] then false
    else if |re| >= 2 && re[1] == '*' then AnchoredEnd(re[2..])
    else re == "$" || AnchoredEnd(re[1..])
  }

  /** The first k characters of text are in the language of re, and all of text if re ends in an anchor. */
  ghost predicate PrefixMatches(re: string, text: string, k: nat) {
    k <= |text| && InLanguage(Items(re), text[..k]) && (AnchoredEnd(re) ==> k == |text|)
  }

  ghost predicate MatchesHere(re: string, text: string) { exists k :: PrefixMatches(re, text, k) }

  ghost predicate MatchesFrom(re: string, text: string, i: nat) { i <= |text| && MatchesHere(re, text[i..]) }

  /** Some substring of text is in the language of the pattern, at the start after ^ and at the end before a final $. */
  ghost predicate Matches(re: string, text: string) {
    if re != [] && re[0] == '^' then MatchesHere(re[1..], text) else exists i :: MatchesFrom(re, text, i)
  }

  // ---------------------------------------------------------------- the cases of matchhere

  lemma HereEmpty(text: string)
    ensures MatchesHere("", text)
  {
    assert PrefixMatches("", text, 0);
  }

  lemma HereEnd(text: string)
    ensures MatchesHere("$", text) <==> text == []
  {
    if text == [] {
      assert PrefixMatches("$", text, 0);
    }
  }

  predicate IsStar(re: string) { |re| >= 2 && re[1] == '*' }

  lemma HereOne(re: string, text: string)
    requires re != [] && !IsStar(re) && re != "$"
    ensures MatchesHere(re, text) <==> text != [] && Hit(re[0], text[0]) && MatchesHere(re[1..], text[1..])
  {
    if MatchesHere(re, text) {
      var k: nat :| PrefixMatches(re, text, k);
      var w := text[..k];
      assert InLanguage(Items(re), w);
      var l: nat :| SplitsAt(Items(re), w, l);
      assert Items(re)[1..] == Items(re[1..]) && l == 1 && w[1..] == text[1..][..k - 1];
      assert PrefixMatches(re[1..], text[1..], k - 1);
    }
    if text != [] && Hit(re[0], text[0]) && MatchesHere(re[1..], text[1..]) {
      var k: nat :| PrefixMatches(re[1..], text[1..], k);
      var w := text[..k + 1];
      assert Items(re)[1..] == Items(re[1..]) && w[1..] == text[1..][..k] && w[..1] == [text[0]];
      assert SplitsAt(Items(re), w, 1);
      assert PrefixMatches(re, text, k + 1);
    }
  }

  /** c* followed by re matches after some characters that c hits. */
  ghost predicate StarMatches(c: char, re: string, text: string, j: nat) {
    j <= |text| && AllHit(c, text[..j]) && MatchesHere(re, text[j..])
  }

  lemma HereStar(re: string, text: string)
    requires IsStar(re)
    ensures MatchesHere(re, text) <==> exists j :: StarMatches(re[0], re[2..], text, j)
  {
    assert Items(re)[1..] == Items(re[2..]);
    if MatchesHere(re, text) {
      var k: nat :| PrefixMatches(re, text, k);
      var w := text[..k];
      assert InLanguage(Items(re), w);
      var l: nat :| SplitsAt(Items(re), w, l);
      assert w[..l] == text[..l] && w[l..] == text[l..][..k - l];
      assert PrefixMatches(re[2..], text[l..], k - l);
      assert StarMatches(re[0], re[2..], text, l);
    }
    if j: nat :| StarMatches(re[0], re[2..], text, j) {
      var k: nat :| PrefixMatches(re[2..], text[j..], k);
      var w := text[..j + k];
      assert w[..j] == text[..j] && w[j..] == text[j..][..k];
      assert SplitsAt(Items(re), w, j);
      assert PrefixMatches(re, text, j + k);
    }
  }

  // ---------------------------------------------------------------- the matcher

  /** matchhere */
  method MatchHere(re: string, text: string) returns (r: bool)
    ensures r <==> MatchesHere(re, text)
    decreases |re|, 0
  {
    if re == [] {
      HereEmpty(text);
      return true;
    }
    if |re| >= 2 && re[1] == '*' {
      HereStar(re, text);
      r := MatchStar(re[0], re[2..], text);
      return;
    }
    if re[0] == '$' && |re| == 1 {
      assert re == "$";
      HereEnd(text);
      return text == [];
    }
    HereOne(re, text);
    if text != [] && (re[0] == '.' || re[0] == text[0]) {
      r := MatchHere(re[1..], text[1..]);
      return;
    }
    r := false;
  }

  /** matchstar */
  method MatchStar(c: char, re: string, text: string) returns (r: bool)
    ensures r <==> exists j :: StarMatches(c, re, text, j)
    decreases |re|, 1
  {
    var j := 0;
    while true
      invariant 0 <= j <= |text| && AllHit(c, text[..j]) && forall l :: 0 <= l < j ==> !StarMatches(c, re, text, l)
      decreases |text| - j
    {
      var here := MatchHere(re, text[j..]);
      if here {
        assert StarMatches(c, re, text, j);
        return true;
      }
      if j == |text| || !(text[j] == c || c == '.') {
        assert forall l :: j < l <= |text| ==> text[..l][j] == text[j];
        return false;
      }
      j := j + 1;
    }
  }

  /** match */
  method Match(re: string, text: string) returns (r: bool)
    ensures r <==> Matches(re, text)
  {
    if re != [] && re[0] == '^' {
      r := MatchHere(re[1..], text);
      return;
    }
    var i := 0;
    while true
      invariant 0 <= i <= |text| && forall l :: 0 <= l < i ==> !MatchesFrom(re, text, l)
      decreases |text| - i
    {
      var here := MatchHere(re, text[i..]);
      if here {
        assert MatchesFrom(re, text, i);
        return true;
      }
      if i == |text| {
        return false;
      }
      i := i + 1;
    }
  }

  // ---------------------------------------------------------------- lines

  const NUL: char := '\0'
  const NL: char := '\n'

  /** The line that ends at the first newline: strchr finds none behind a NUL. */
  ghost predicate LineAt(s: string, q: nat) {
    q < |s| && s[q] == NL && forall i :: 0 <= i < q ==> s[i] != NL && s[i] != NUL
  }

  ghost predicate NoLine(s: string) { forall q :: !LineAt(s, q) }

  /** Where the first line ends, or -1. */
  function LineEnd(s: string, i: nat): (q: int)
    requires i <= |s| && forall k :: 0 <= k < i ==> s[k] != NL && s[k] != NUL
    ensures if q == -1 then NoLine(s) else q >= 0 && LineAt(s, q)
    decreases |s| - i
  {
    if i == |s| || s[i] == NUL then -1 else if s[i] == NL then i else LineEnd(s, i + 1)
  }

  /** The complete lines of s. */
  function LinesOf(s: string): seq<string>
    decreases |s|
  {
    var q := LineEnd(s, 0);
    if q == -1 then [] else [s[..q]] + LinesOf(s[q + 1..])
  }

  /** What follows them. */
  function RestOf(s: string): string
    decreases |s|
  {
    var q := LineEnd(s, 0);
    if q == -1 then s else RestOf(s[q + 1..])
  }

  lemma LinesFirst(s: string, q: nat)
    requires LineAt(s, q)
    ensures LinesOf(s) == [s[..q]] + LinesOf(s[q + 1..]) && RestOf(s) == RestOf(s[q + 1..])
  {
    assert LineEnd(s, 0) == q;
  }

  lemma LinesNone(s: string)
    requires NoLine(s)
    ensures LinesOf(s) == [] && RestOf(s) == s
  {
    assert LineEnd(s, 0) == -1;
  }

  lemma LineStays(s: string, t: string, q: nat)
    requires LineAt(s, q)
    ensures LineAt(s + t, q) && (s + t)[..q] == s[..q] && (s + t)[q + 1..] == s[q + 1..] + t
  {
  }

  /** Reading more goes on where the lines before it ended. */
  lemma {:induction false} LinesMore(s: string, t: string)
    ensures LinesOf(s + t) == LinesOf(s) + LinesOf(RestOf(s) + t)
    decreases |s|
  {
    var q := LineEnd(s, 0);
    if q == -1 {
      LinesNone(s);
    } else {
      LinesFirst(s, q);
      LineStays(s, t, q);
      LinesFirst(s + t, q);
      LinesMore(s[q + 1..], t);
    }
  }

  lemma {:induction false} RestMore(s: string, t: string)
    ensures RestOf(s + t) == RestOf(RestOf(s) + t)
    decreases |s|
  {
    var q := LineEnd(s, 0);
    if q == -1 {
      LinesNone(s);
    } else {
      LinesFirst(s, q);
      LineStays(s, t, q);
      LinesFirst(s + t, q);
      RestMore(s[q + 1..], t);
    }
  }

  /** The lines that match, each with its newline. */
  ghost function Printed(re: string, lines: seq<string>): string {
    if lines == [] then []
    else Printed(re, lines[..|lines| - 1]) + if Matches(re, lines[|lines| - 1]) then lines[|lines| - 1] + [NL] else []
  }

  lemma PrintedNext(re: string, lines: seq<string>, line: string)
    ensures Printed(re, lines + [line]) == Printed(re, lines) + if Matches(re, line) then line + [NL] else []
  {
    assert (lines + [line])[..|lines|] == lines;
  }

  lemma {:induction false} PrintedConcat(re: string, a: seq<string>, b: seq<string>)
    ensures Printed(re, a + b) == Printed(re, a) + Printed(re, b)
  {
    if b == [] {
      assert a + b == a;
    } else {
      var n := |b| - 1;
      var c, line := b[..n], b[n];
      PrintedConcat(re, a, c);
      assert a + b == (a + c) + [line] && b == c + [line];
      PrintedNext(re, a + c, line);
      PrintedNext(re, c, line);
    }
  }

  // ---------------------------------------------------------------- the loop

  /** A file being read; read gives at least one character unless there is none left or none is asked for. */
  class Input {
    var data: string

    method Read(max: nat) returns (s: string)
      modifies this
      ensures s + data == old(data) && |s| <= max
      ensures s == [] ==> max == 0 || data == []
    {
      var n: int := *;
      var most := if |data| < max then |data| else max;
      if n > most {
        n := most;
      } else if n < 1 {
        n := if most == 0 then 0 else 1;
      }
      s, data := data[..n], data[n..];
    }
  }

  /** strchr(buf + p, '\n') on a buffer that is NUL terminated at m. */
  method FindNewline(buf: array<char>, p: nat, m: nat) returns (q: int)
    requires p <= m < buf.Length && buf[m] == NUL
    ensures if q == -1 then NoLine(buf[p..m]) else p <= q < m && LineAt(buf[p..m], q - p)
  {
    q := p;
    while buf[q] != NL && buf[q] != NUL
      invariant p <= q <= m && forall i :: p <= i < q ==> buf[i] != NL && buf[i] != NUL
      decreases m - q
    {
      q := q + 1;
    }
    ghost var s := buf[p..m];
    assert forall i :: 0 <= i < |s| ==> s[i] == buf[p + i];
    if buf[q] == NL {
      assert LineAt(s, q - p);
    } else {
      forall r: nat ensures !LineAt(s, r) {
        if q - p < |s| {
          assert s[q - p] == NUL;
        }
      }
      q := -1;
    }
  }

  /** The C string at p. */
  method TextAt(buf: array<char>, p: nat, ghost end: nat) returns (text: string)
    requires p <= end < buf.Length && buf[end] == NUL && forall i :: p <= i < end ==> buf[i] != NUL
    ensures text == buf[p..end]
  {
    var e := p;
    while buf[e] != NUL
      invariant p <= e <= end
      decreases end - e
    {
      e := e + 1;
    }
    text := buf[p..e];
  }

  /** Prints the line buf[p..q] if it matches. */
  method PrintLine(re: string, buf: array<char>, p: nat, q: nat, m: nat) returns (out: string)
    requires p <= q < m < buf.Length && buf[q] == NL && forall i :: p <= i < q ==> buf[i] != NUL
    modifies buf
    ensures out == if Matches(re, old(buf[p..q])) then old(buf[p..q]) + [NL] else []
    ensures buf[q + 1..m] == old(buf[q + 1..m]) && buf[m] == old(buf[m])
  {
    ghost var line := buf[p..q];
    buf[q] := NUL;
    assert buf[p..q] == line;
    var text := TextAt(buf, p, q);
    var hit := Match(re, text);
    out := [];
    if hit {
      buf[q] := NL;
      out := buf[p..q + 1];
    }
  }

  /** Prints the next complete line of what is left of s, if there is one and it matches: q is where it ends. */
  method PrintNext(re: string, buf: array<char>, p: nat, m: nat, ghost s: string, ghost lines: seq<string>)
    returns (q: int, printed: string, ghost line: string)
    requires p <= m < buf.Length && buf[m] == NUL && Parsed(s, lines, buf[p..m])
    modifies buf
    ensures q == -1 ==> LinesOf(s) == lines && RestOf(s) == buf[p..m]
    ensures q != -1 ==> p <= q < m && buf[m] == NUL && Parsed(s, lines + [line], buf[q + 1..m])
    ensures q != -1 ==> Printed(re, lines + [line]) == Printed(re, lines) + printed
  {
    ghost var t := buf[p..m];
    q := FindNewline(buf, p, m);
    printed, line := [], [];
    if q == -1 {
      ParsedAll(s, lines, t);
    } else {
      Slices(buf[..], p, q, m);
      line := t[..q - p];
      assert buf[p..q] == line;
      NextLine(re, s, lines, t, q - p, line, t[q - p + 1..]);
      printed := PrintLine(re, buf, p, q, m);
    }
  }

  /** Prints the matching lines among those complete in buf[..m], and finds where the rest begins. */
  method PrintLines(re: string, buf: array<char>, m: nat) returns (out: string, p: nat)
    requires m < buf.Length && buf[m] == NUL
    modifies buf
    ensures p <= m && out == Printed(re, LinesOf(old(buf[..m]))) && buf[p..m] == RestOf(old(buf[..m]))
  {
    out, p := [], 0;
    ghost var s, lines := buf[..m], [];
    while true
      invariant p <= m && buf[m] == NUL && out == Printed(re, lines) && Parsed(s, lines, buf[p..m])
      decreases m - p
    {
      ghost var line;
      var q, printed;
      q, printed, line := PrintNext(re, buf, p, m, s, lines);
      if q == -1 {
        return;
      }
      lines := lines + [line];
      out := out + printed;
      p := q + 1;
    }
  }

  lemma Slices(a: string, p: nat, q: nat, m: nat)
    requires p <= q < m <= |a|
    ensures a[p..m][..q - p] == a[p..q] && a[p..m][q - p + 1..] == a[q + 1..m]
  {
  }

  /** The first line of what is left of s, and what follows it. */
  lemma NextLine(re: string, s: string, lines: seq<string>, t: string, q: nat, line: string, rest: string)
    requires Parsed(s, lines, t) && LineAt(t, q) && line == t[..q] && rest == t[q + 1..]
    ensures Parsed(s, lines + [line], rest)
    ensures Printed(re, lines + [line]) == Printed(re, lines) + if Matches(re, line) then line + [NL] else []
  {
    ParsedLine(s, lines, t, q);
    PrintedNext(re, lines, line);
  }

  /** The lines of s are the given ones and those of what is left, t. */
  ghost predicate Parsed(s: string, lines: seq<string>, t: string) {
    LinesOf(s) == lines + LinesOf(t) && RestOf(s) == RestOf(t)
  }

  lemma ParsedLine(s: string, lines: seq<string>, t: string, q: nat)
    requires Parsed(s, lines, t) && LineAt(t, q)
    ensures Parsed(s, lines + [t[..q]], t[q + 1..])
  {
    LinesFirst(t, q);
  }

  lemma ParsedAll(s: string, lines: seq<string>, t: string)
    requires Parsed(s, lines, t) && NoLine(t)
    ensures LinesOf(s) == lines && RestOf(s) == t
  {
    LinesNone(t);
  }

  /** What read puts behind the first m characters, NUL terminated. */
  method Fill(buf: array<char>, m: nat, s: string)
    requires m + |s| < buf.Length
    modifies buf
    ensures buf[..m + |s|] == old(buf[..m]) + s && buf[m + |s|] == NUL
  {
    for i := 0 to |s|
      invariant buf[..m + i] == old(buf[..m]) + s[..i]
    {
      buf[m + i] := s[i];
      assert buf[..m + i + 1] == buf[..m + i] + [s[i]];
    }
    buf[m + |s|] := NUL;
  }

  /** memmove(buf, buf + p, m - p) */
  method Shift(buf: array<char>, p: nat, m: nat)
    requires p <= m < buf.Length
    modifies buf
    ensures buf[..m - p] == old(buf[p..m])
  {
    ghost var s := buf[p..m];
    for i := 0 to m - p
      invariant buf[..i] == s[..i] && buf[p + i..m] == s[i..]
    {
      var c := buf[p + i];
      assert c == s[i];
      buf[i] := c;
      assert buf[p + i + 1..m] == s[i + 1..];
    }
  }

  lemma PrintedMore(re: string, seen: string, s: string)
    ensures Printed(re, LinesOf(seen + s)) == Printed(re, LinesOf(seen)) + Printed(re, LinesOf(RestOf(seen) + s))
  {
    LinesMore(seen, s);
    PrintedConcat(re, LinesOf(seen), LinesOf(RestOf(seen) + s));
  }

  /** s comes in behind the first m characters, which makes t: its complete lines are dealt with, the rest is moved. */
  method Digest(re: string, buf: array<char>, m: nat, s: string, ghost t: string) returns (out: string, left: nat)
    requires m + |s| < buf.Length && t == buf[..m] + s
    modifies buf
    ensures left <= m + |s| && buf[..left] == RestOf(t) && out == Printed(re, LinesOf(t))
  {
    Fill(buf, m, s);
    var p;
    out, p := PrintLines(re, buf, m + |s|);
    Shift(buf, p, m + |s|);
    left := m + |s| - p;
  }

  /** One turn of grep: s comes in behind the m characters left over from what was seen before. */
  method Turn(re: string, buf: array<char>, m: nat, s: string, ghost seen: string) returns (out: string, left: nat)
    requires m + |s| < buf.Length && buf[..m] == RestOf(seen)
    modifies buf
    ensures left <= m + |s| && buf[..left] == RestOf(seen + s)
    ensures Printed(re, LinesOf(seen + s)) == Printed(re, LinesOf(seen)) + out
  {
    out, left := Digest(re, buf, m, s, RestOf(seen) + s);
    PrintedMore(re, seen, s);
    RestMore(seen, s);
  }

  lemma {:induction false} RestShorter(s: string)
    ensures |RestOf(s)| <= |s|
    decreases |s|
  {
    var q := LineEnd(s, 0);
    if q != -1 {
      RestShorter(s[q + 1..]);
    }
  }

  /** The first k characters end in a line that fills the buffer. */
  ghost predicate FullAt(all: string, k: nat) { k <= |all| && |RestOf(all[..k])| == 1023 }

  /** A read that does not overfill the buffer passes no place where it would be full. */
  lemma NoneFull(all: string, seen: string, s: string, data: string, k: nat)
    requires Ahead(all, seen, s, data) && s != [] && |RestOf(seen)| + |s| <= 1023 && |seen| <= k < |seen| + |s|
    ensures !FullAt(all, k)
  {
    var t := s[..k - |seen|];
    assert all[..k] == seen + t;
    RestMore(seen, t);
    RestShorter(RestOf(seen) + t);
  }

  /** grep: prints the matching lines of what it has read. It reads all of its input, unless a line leaves no room in
      the buffer before the end: it stops at the first place where that happens. */
  method Run(re: string, input: Input, buf: array<char>) returns (out: string, ghost seen: string)
    requires buf.Length == 1024
    modifies input, buf
    ensures seen + input.data == old(input.data) && out == Printed(re, LinesOf(seen))
    ensures forall k :: 0 <= k < |seen| ==> !FullAt(old(input.data), k)
    ensures input.data != [] <==> exists k :: 0 <= k < |old(input.data)| && FullAt(old(input.data), k)
    ensures input.data != [] ==> FullAt(old(input.data), |seen|)
  {
    ghost var all := input.data;
    out, seen := [], [];
    var m := 0;
    var s := input.Read(1023);
    while s != []
      invariant 0 <= m <= m + |s| <= 1023 && Ahead(all, seen, s, input.data)
      invariant buf[..m] == RestOf(seen) && out == Printed(re, LinesOf(seen))
      invariant s == [] ==> input.data == [] || m == 1023
      invariant forall k :: 0 <= k < |seen| ==> !FullAt(all, k)
      decreases |s| + |input.data|
    {
      var printed;
      forall k | |seen| <= k < |seen| + |s| ensures !FullAt(all, k) { NoneFull(all, seen, s, input.data, k); }
      printed, m := Turn(re, buf, m, s, seen);
      out := out + printed;
      ghost var data := input.data;
      SeenMore(all, seen, s, data);
      seen := seen + s;
      s := input.Read(1023 - m);
      NextAhead(all, seen, s, input.data, data);
    }
    Stopped(all, seen, input.data, m);
  }

  /** Where grep stops, it has read everything or the buffer is full. */
  lemma Stopped(all: string, seen: string, data: string, m: nat)
    requires all == seen + data && |RestOf(seen)| == m && (data == [] || m == 1023)
    requires forall k :: 0 <= k < |seen| ==> !FullAt(all, k)
    ensures data != [] <==> exists k :: 0 <= k < |all| && FullAt(all, k)
    ensures data != [] ==> FullAt(all, |seen|)
  {
    assert all[..|seen|] == seen;
    if data != [] {
      assert FullAt(all, |seen|);
    }
  }

  /** The file is what has been seen, what has been read but not seen, and what is still to be read. */
  ghost predicate Ahead(all: string, seen: string, s: string, data: string) { all == seen + (s + data) }

  lemma SeenMore(all: string, seen: string, s: string, data: string)
    requires Ahead(all, seen, s, data)
    ensures all == (seen + s) + data
  {
  }

  lemma NextAhead(all: string, seen: string, s: string, data: string, was: string)
    requires all == seen + was && was == s + data
    ensures Ahead(all, seen, s, data)
  {
  }
}

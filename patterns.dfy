/**
 * The regular-expression substitutions that the advanced backend applies to a
 * format template (`String#gsub!` with the patterns `/%a/`, `/^%a/`,
 * `/(%d|%e)?(\s*)(%b)/` and their siblings), each written as a left-to-right,
 * non-overlapping rewrite of a character sequence. Text a substitution inserts
 * is never scanned again by the same substitution.
 */
module Patterns {
  import opened Wrappers

  /** The two-character directive `%c`. */
  function Directive(c: char): string {
    ['%', c]
  }

  /** The directive letters the backend rewrites are letters, so a directive
      never starts, ends or overlaps with `%`, whitespace or a newline. */
  predicate IsLetter(c: char) {
    ('a' <= c <= 'z') || ('A' <= c <= 'Z')
  }

  /** `%c` occurs in `s` at index `i`. */
  predicate DirectiveAt(s: string, c: char, i: int) {
    0 <= i && i + 1 < |s| && s[i] == '%' && s[i + 1] == c
  }

  predicate HasDirective(s: string, c: char) {
    exists i :: 0 <= i < |s| && DirectiveAt(s, c, i)
  }

  lemma DirectiveInSuffix(s: string, c: char, k: nat)
    requires k <= |s|
    ensures HasDirective(s[k..], c) ==> HasDirective(s, c)
  {
    if HasDirective(s[k..], c) {
      var i :| 0 <= i < |s[k..]| && DirectiveAt(s[k..], c, i);
      assert s[k..][i] == s[i + k] && s[k..][i + 1] == s[i + k + 1];
      assert DirectiveAt(s, c, i + k);
    }
  }

  /** A string without `%` holds no directive, and putting it in front of a
      string without directive `%c` does not create one. */
  lemma {:induction false} NoDirectiveAfterPlain(a: string, b: string, c: char)
    requires '%' !in a && !HasDirective(b, c)
    ensures !HasDirective(a + b, c)
  {
    forall i | 0 <= i < |a + b| ensures !DirectiveAt(a + b, c, i) {
      if i < |a| {
        assert (a + b)[i] == a[i];
        assert a[i] in a;
      } else if i + 1 < |a + b| {
        assert (a + b)[i] == b[i - |a|] && (a + b)[i + 1] == b[i + 1 - |a|];
        assert !DirectiveAt(b, c, i - |a|);
      }
    }
  }

  lemma NoDirectiveWithoutPercent(s: string, c: char)
    requires '%' !in s
    ensures !HasDirective(s, c)
  {
    forall i | 0 <= i < |s| ensures !DirectiveAt(s, c, i) {
      assert s[i] in s;
    }
  }

  /** A string in which the letter `c` does not occur holds no `%c`. */
  lemma AbsentLetter(s: string, c: char)
    requires c !in s
    ensures !HasDirective(s, c)
  {
    forall i | 0 <= i < |s| - 1 ensures !DirectiveAt(s, c, i) {
      assert s[i + 1] in s;
    }
  }

  /** Concatenation creates no `%c` when the left part does not end in `%`. */
  lemma NoDirectiveConcat(a: string, b: string, c: char)
    requires !HasDirective(a, c) && !HasDirective(b, c)
    requires |a| == 0 || a[|a| - 1] != '%'
    ensures !HasDirective(a + b, c)
  {
    forall i | 0 <= i < |a + b| ensures !DirectiveAt(a + b, c, i) {
      if i + 1 < |a| {
        assert (a + b)[i] == a[i] && (a + b)[i + 1] == a[i + 1];
        assert !DirectiveAt(a, c, i);
      } else if i + 1 == |a| {
        assert (a + b)[i] == a[i];
      } else if i + 1 < |a + b| {
        assert (a + b)[i] == b[i - |a|] && (a + b)[i + 1] == b[i + 1 - |a|];
        assert !DirectiveAt(b, c, i - |a|);
      }
    }
  }

  /** Regrouping of a concatenation. Stated once here, so that the proofs
      of the scans need not rediscover it among their other facts. */
  lemma Associate(a: string, b: string, t: string)
    ensures (a + b) + t == a + (b + t)
  {
  }

  lemma ConcatFirst(a: string, t: string)
    requires |a| > 0
    ensures (a + t)[0] == a[0] && (a + t)[1..] == a[1..] + t && [a[0]] + a[1..] == a
  {
  }

  /** Joins `ps`, putting `sep` between consecutive pieces. */
  function Join(ps: seq<string>, sep: string): string
    decreases |ps|
  {
    if |ps| == 0 then []
    else if |ps| == 1 then ps[0]
    else ps[0] + sep + Join(ps[1..], sep)
  }

  lemma JoinConsPiece(x: string, ps: seq<string>, sep: string)
    requires |ps| > 0
    ensures Join([x + ps[0]] + ps[1..], sep) == x + Join(ps, sep)
  {
    var qs := [x + ps[0]] + ps[1..];
    assert qs[1..] == ps[1..];
  }

  // ---------------------------------------------------------------------
  // gsub!(/%c/, rep)
  // ---------------------------------------------------------------------

  /** `gsub!(/%c/, rep)`: every `%c`, found left to right without overlap,
      becomes `rep`; everything else is copied. */
  function ReplaceAll(s: string, c: char, rep: string): string
    decreases |s|
  {
    if |s| < 2 then s
    else if DirectiveAt(s, c, 0) then rep + ReplaceAll(s[2..], c, rep)
    else [s[0]] + ReplaceAll(s[1..], c, rep)
  }

  /** A text without `%c` passes through the substitution unchanged. */
  lemma {:induction false} ReplaceAllUnchanged(s: string, c: char, rep: string)
    requires !HasDirective(s, c)
    ensures ReplaceAll(s, c, rep) == s
    decreases |s|
  {
    if |s| >= 2 {
      assert !DirectiveAt(s, c, 0);
      DirectiveInSuffix(s, c, 1);
      ReplaceAllUnchanged(s[1..], c, rep);
      assert [s[0]] + s[1..] == s;
    }
  }

  /** One step of `ReplaceAll` at index `i` of `s`. */
  lemma ReplaceAllAt(s: string, i: nat, c: char, rep: string)
    requires i < |s|
    ensures DirectiveAt(s, c, i) ==> ReplaceAll(s[i..], c, rep) == rep + ReplaceAll(s[i + 2..], c, rep)
    ensures !DirectiveAt(s, c, i) ==> ReplaceAll(s[i..], c, rep) == [s[i]] + ReplaceAll(s[i + 1..], c, rep)
  {
    var t := s[i..];
    if |t| < 2 {
      assert t == [s[i]] && s[i + 1..] == [];
    } else {
      assert t[0] == s[i] && t[1] == s[i + 1];
      assert t[2..] == s[i + 2..] && t[1..] == s[i + 1..];
    }
  }

  /** Cuts `s` at every occurrence of `%c`: the pieces between directives. */
  function Split(s: string, c: char): (ps: seq<string>)
    ensures |ps| > 0
    decreases |s|
  {
    if |s| < 2 then [s]
    else if DirectiveAt(s, c, 0) then [[]] + Split(s[2..], c)
    else
      var t := Split(s[1..], c);
      [[s[0]] + t[0]] + t[1..]
  }

  lemma {:induction false} JoinStartsWithFirst(ps: seq<string>, sep: string)
    requires |ps| > 0
    ensures |Join(ps, sep)| >= |ps[0]| && Join(ps, sep)[..|ps[0]|] == ps[0]
  {
  }

  /** Split and Join with the directive are inverse: `s` is its pieces joined
      by `%c`, and no piece holds `%c`. */
  lemma {:induction false} SplitJoin(s: string, c: char)
    requires IsLetter(c)
    ensures Join(Split(s, c), Directive(c)) == s
    ensures forall k :: 0 <= k < |Split(s, c)| ==> !HasDirective(Split(s, c)[k], c)
    decreases |s|
  {
    var ps := Split(s, c);
    if |s| < 2 {
    } else if DirectiveAt(s, c, 0) {
      var t := Split(s[2..], c);
      SplitJoin(s[2..], c);
      assert ps == [[]] + t;
      assert ps[1..] == t;
      assert s == Directive(c) + s[2..];
      forall k | 0 <= k < |ps| ensures !HasDirective(ps[k], c) {
        if k > 0 { assert ps[k] == t[k - 1]; }
      }
    } else {
      var t := Split(s[1..], c);
      SplitJoin(s[1..], c);
      JoinConsPiece([s[0]], t, Directive(c));
      assert s == [s[0]] + s[1..];
      var p := [s[0]] + t[0];
      assert ps[0] == p;
      forall i | 0 <= i < |p| ensures !DirectiveAt(p, c, i) {
        if i == 0 && |t[0]| > 0 {
          JoinStartsWithFirst(t, Directive(c));
          assert t[0][0] == s[1..][0] == s[1];
          assert p[1] == s[1];
        } else if i > 0 && i + 1 < |p| {
          assert p[i] == t[0][i - 1] && p[i + 1] == t[0][i];
          assert !DirectiveAt(t[0], c, i - 1);
        }
      }
      forall k | 0 <= k < |ps| ensures !HasDirective(ps[k], c) {
        if k > 0 { assert ps[k] == t[k]; }
      }
    }
  }

  /** A piece without `%c` followed by `%c`: the piece is copied and the
      directive replaced. */
  lemma {:induction false} ReplaceAllAfterPiece(p: string, c: char, rep: string, t: string)
    requires IsLetter(c) && !HasDirective(p, c)
    ensures ReplaceAll(p + Directive(c) + t, c, rep) == p + rep + ReplaceAll(t, c, rep)
    decreases |p|
  {
    var s := p + Directive(c) + t;
    var tail := ReplaceAll(t, c, rep);
    ReplaceAllAt(s, 0, c, rep);
    assert s[0..] == s;
    if |p| == 0 {
      assert s == Directive(c) + t;
      assert DirectiveAt(s, c, 0) && s[2..] == t;
      assert p + rep == rep;
    } else {
      var q := p[1..];
      PieceFirstChar(p, c, t);
      DirectiveInSuffix(p, c, 1);
      ReplaceAllAfterPiece(q, c, rep, t);
      Associate([p[0]], q + rep, tail);
      Associate([p[0]], q, rep);
      assert [p[0]] + q == p;
    }
  }

  lemma PieceFirstChar(p: string, c: char, t: string)
    requires IsLetter(c) && !HasDirective(p, c) && |p| > 0
    ensures (p + Directive(c) + t)[0] == p[0] && !DirectiveAt(p + Directive(c) + t, c, 0)
    ensures (p + Directive(c) + t)[1..] == p[1..] + Directive(c) + t
  {
    var s := p + Directive(c) + t;
    if |p| >= 2 {
      assert s[1] == p[1];
      assert !DirectiveAt(p, c, 0);
    } else {
      assert s[1] == '%';
    }
  }

  /** The bare directive becomes the replacement. */
  lemma ReplaceAllDirective(c: char, rep: string)
    requires IsLetter(c)
    ensures ReplaceAll(Directive(c), c, rep) == rep
  {
    ReplaceAllAfterPiece([], c, rep, []);
    assert [] + Directive(c) + [] == Directive(c);
    assert [] + rep + [] == rep;
  }

  /** Replacing every `%c` is joining the pieces between directives with
      `rep` in place of `%c`, whatever `rep` holds. */
  lemma {:induction false} ReplaceAllJoin(ps: seq<string>, c: char, rep: string)
    requires |ps| > 0 && IsLetter(c)
    requires forall k :: 0 <= k < |ps| ==> !HasDirective(ps[k], c)
    ensures ReplaceAll(Join(ps, Directive(c)), c, rep) == Join(ps, rep)
    decreases |ps|
  {
    if |ps| == 1 {
      ReplaceAllUnchanged(ps[0], c, rep);
    } else {
      ReplaceAllJoin(ps[1..], c, rep);
      ReplaceAllAfterPiece(ps[0], c, rep, Join(ps[1..], Directive(c)));
    }
  }

  /** The reference reading of `gsub!(/%c/, rep)`: cut the template at every
      `%c` and glue the pieces back with `rep`. */
  lemma ReplaceAllIsSplitJoin(s: string, c: char, rep: string)
    requires IsLetter(c)
    ensures ReplaceAll(s, c, rep) == Join(Split(s, c), rep)
  {
    SplitJoin(s, c);
    ReplaceAllJoin(Split(s, c), c, rep);
  }

  // ---------------------------------------------------------------------
  // gsub!(/^%c/, rep)
  // ---------------------------------------------------------------------

  /** `gsub!(/^%c/, rep)`. Ruby's `^` holds at the start of the string and
      right after every newline; `atLineStart` says whether it holds in front
      of `s`. */
  function ReplaceAtLineStarts(s: string, c: char, rep: string, atLineStart: bool): string
    decreases |s|
  {
    if |s| == 0 then []
    else if atLineStart && DirectiveAt(s, c, 0) then
      rep + ReplaceAtLineStarts(s[2..], c, rep, c == '\n')
    else [s[0]] + ReplaceAtLineStarts(s[1..], c, rep, s[0] == '\n')
  }

  /** A text without `%c` passes through the anchored substitution unchanged. */
  lemma {:induction false} LineStartsUnchanged(s: string, c: char, rep: string, atLineStart: bool)
    requires !HasDirective(s, c)
    ensures ReplaceAtLineStarts(s, c, rep, atLineStart) == s
    decreases |s|
  {
    if |s| > 0 {
      assert !DirectiveAt(s, c, 0);
      DirectiveInSuffix(s, c, 1);
      LineStartsUnchanged(s[1..], c, rep, s[0] == '\n');
      assert [s[0]] + s[1..] == s;
    }
  }

  /** One step of `ReplaceAtLineStarts` at index `i` of `s`. */
  lemma LineStartsAt(s: string, i: nat, c: char, rep: string, atLineStart: bool)
    requires i < |s|
    ensures atLineStart && DirectiveAt(s, c, i) ==>
      ReplaceAtLineStarts(s[i..], c, rep, atLineStart) == rep + ReplaceAtLineStarts(s[i + 2..], c, rep, c == '\n')
    ensures !(atLineStart && DirectiveAt(s, c, i)) ==>
      ReplaceAtLineStarts(s[i..], c, rep, atLineStart) == [s[i]] + ReplaceAtLineStarts(s[i + 1..], c, rep, s[i] == '\n')
  {
    var t := s[i..];
    assert t[0] == s[i] && t[1..] == s[i + 1..];
    if |t| >= 2 {
      assert t[1] == s[i + 1] && t[2..] == s[i + 2..];
    }
  }

  /** A single line rewritten by the anchored pattern: only a `%c` at its very
      start is replaced. */
  function ReplaceLeading(line: string, c: char, rep: string): string {
    if DirectiveAt(line, c, 0) then rep + line[2..] else line
  }

  function MapLeading(ls: seq<string>, c: char, rep: string): (r: seq<string>)
    ensures |r| == |ls|
    ensures forall k :: 0 <= k < |ls| ==> r[k] == ReplaceLeading(ls[k], c, rep)
  {
    seq(|ls|, k requires 0 <= k < |ls| => ReplaceLeading(ls[k], c, rep))
  }

  /** The lines of `s`: the pieces between newlines. */
  function Lines(s: string): (ls: seq<string>)
    ensures |ls| > 0
    decreases |s|
  {
    if |s| == 0 then [[]]
    else if s[0] == '\n' then [[]] + Lines(s[1..])
    else
      var t := Lines(s[1..]);
      [[s[0]] + t[0]] + t[1..]
  }

  /** Every string is its lines joined by newlines. */
  lemma {:induction false} LinesJoin(s: string)
    ensures Join(Lines(s), "\n") == s
    ensures forall k :: 0 <= k < |Lines(s)| ==> '\n' !in Lines(s)[k]
    decreases |s|
  {
    var ls := Lines(s);
    if |s| == 0 {
    } else if s[0] == '\n' {
      var t := Lines(s[1..]);
      LinesJoin(s[1..]);
      assert ls[1..] == t;
      assert s == "\n" + s[1..];
      forall k | 0 <= k < |ls| ensures '\n' !in ls[k] {
        if k > 0 { assert ls[k] == t[k - 1]; }
      }
    } else {
      var t := Lines(s[1..]);
      LinesJoin(s[1..]);
      JoinConsPiece([s[0]], t, "\n");
      assert s == [s[0]] + s[1..];
      forall k | 0 <= k < |ls| ensures '\n' !in ls[k] {
        if k > 0 { assert ls[k] == t[k]; }
      }
    }
  }

  lemma CharNotInSuffix(l: string, ch: char, k: nat)
    requires k <= |l| && ch !in l
    ensures ch !in l[k..]
  {
    forall j | 0 <= j < |l[k..]| ensures l[k..][j] != ch {
      assert l[k..][j] == l[j + k];
      assert l[j + k] in l;
    }
  }

  /** Off a line start, the anchored pattern leaves a newline-free text alone. */
  lemma {:induction false} LineStartsInsideLine(l: string, c: char, rep: string)
    requires IsLetter(c) && '\n' !in l
    ensures ReplaceAtLineStarts(l, c, rep, false) == l
    decreases |l|
  {
    if |l| > 0 {
      assert l[0] in l;
      LineStartsInsideLine(l[1..], c, rep);
      assert [l[0]] + l[1..] == l;
    }
  }

  lemma {:induction false} LineStartsToNewline(l: string, c: char, rep: string, t: string)
    requires IsLetter(c) && '\n' !in l
    ensures ReplaceAtLineStarts(l + "\n" + t, c, rep, false)
         == l + "\n" + ReplaceAtLineStarts(t, c, rep, true)
    decreases |l|
  {
    var s := l + "\n" + t;
    if |l| == 0 {
      assert s == ['\n'] + t;
      assert s[1..] == t;
    } else {
      assert l[0] in l;
      assert s[1..] == l[1..] + "\n" + t;
      LineStartsToNewline(l[1..], c, rep, t);
      assert [l[0]] + l[1..] == l;
    }
  }

  /** At a line start, the first line of `l + "\n" + t` loses only a leading
      `%c`, and `t` starts a new line. */
  lemma LineStartsOneLine(l: string, c: char, rep: string, t: string)
    requires IsLetter(c) && '\n' !in l
    ensures ReplaceAtLineStarts(l + "\n" + t, c, rep, true)
         == ReplaceLeading(l, c, rep) + "\n" + ReplaceAtLineStarts(t, c, rep, true)
  {
    if DirectiveAt(l, c, 0) {
      LineStartsLeadingDirective(l, c, rep, t);
    } else {
      LineStartsPlainLine(l, c, rep, t);
    }
  }

  lemma LineStartsLeadingDirective(l: string, c: char, rep: string, t: string)
    requires IsLetter(c) && '\n' !in l && DirectiveAt(l, c, 0)
    ensures ReplaceAtLineStarts(l + "\n" + t, c, rep, true)
         == rep + l[2..] + "\n" + ReplaceAtLineStarts(t, c, rep, true)
  {
    var s := l + "\n" + t;
    assert DirectiveAt(s, c, 0);
    assert s[2..] == l[2..] + "\n" + t;
    CharNotInSuffix(l, '\n', 2);
    LineStartsToNewline(l[2..], c, rep, t);
  }

  lemma LineStartsPlainLine(l: string, c: char, rep: string, t: string)
    requires IsLetter(c) && '\n' !in l && !DirectiveAt(l, c, 0)
    ensures ReplaceAtLineStarts(l + "\n" + t, c, rep, true)
         == l + "\n" + ReplaceAtLineStarts(t, c, rep, true)
  {
    var s := l + "\n" + t;
    if |l| == 0 {
      assert s == ['\n'] + t;
      assert s[1..] == t;
    } else {
      assert l[0] in l;
      assert s[0] == l[0];
      if |l| == 1 { assert s[1] == '\n'; } else { assert s[1] == l[1]; }
      assert !DirectiveAt(s, c, 0);
      assert s[1..] == l[1..] + "\n" + t;
      CharNotInSuffix(l, '\n', 1);
      LineStartsToNewline(l[1..], c, rep, t);
      assert [l[0]] + l[1..] == l;
    }
  }

  lemma LineStartsLastLine(l: string, c: char, rep: string)
    requires IsLetter(c) && '\n' !in l
    ensures ReplaceAtLineStarts(l, c, rep, true) == ReplaceLeading(l, c, rep)
  {
    if DirectiveAt(l, c, 0) {
      CharNotInSuffix(l, '\n', 2);
      LineStartsInsideLine(l[2..], c, rep);
    } else if |l| > 0 {
      assert l[0] in l;
      CharNotInSuffix(l, '\n', 1);
      LineStartsInsideLine(l[1..], c, rep);
      assert [l[0]] + l[1..] == l;
    }
  }

  /** The reference reading of `gsub!(/^%c/, rep)`: each line that starts
      with `%c` has that one directive replaced; nothing else changes. */
  lemma {:induction false} ReplaceAtLineStartsByLine(ls: seq<string>, c: char, rep: string)
    requires |ls| > 0 && IsLetter(c)
    requires forall k :: 0 <= k < |ls| ==> '\n' !in ls[k]
    ensures ReplaceAtLineStarts(Join(ls, "\n"), c, rep, true) == Join(MapLeading(ls, c, rep), "\n")
    decreases |ls|
  {
    var ms := MapLeading(ls, c, rep);
    if |ls| == 1 {
      LineStartsLastLine(ls[0], c, rep);
    } else {
      ReplaceAtLineStartsByLine(ls[1..], c, rep);
      LineStartsOneLine(ls[0], c, rep, Join(ls[1..], "\n"));
      assert ms[1..] == MapLeading(ls[1..], c, rep);
    }
  }

  lemma ReplaceAtLineStartsIsByLine(s: string, c: char, rep: string)
    requires IsLetter(c)
    ensures ReplaceAtLineStarts(s, c, rep, true) == Join(MapLeading(Lines(s), c, rep), "\n")
  {
    LinesJoin(s);
    ReplaceAtLineStartsByLine(Lines(s), c, rep);
  }

  // ---------------------------------------------------------------------
  // gsub!(/(%d|%e)?(\s*)(%c)/) { $1 ? $1 + $2 + contextual : $2 + standalone }
  // ---------------------------------------------------------------------

  /** Ruby's `\s`: space, tab, newline, vertical tab, form feed, carriage return. */
  predicate IsSpace(ch: char) {
    ch == ' ' || ch == '\t' || ch == '\n' || ch == '\U{000B}' || ch == '\U{000C}' || ch == '\r'
  }

  predicate AllSpace(w: string) {
    forall k :: 0 <= k < |w| ==> IsSpace(w[k])
  }

  predicate IsDayDirective(d: string) {
    |d| == 2 && d[0] == '%' && (d[1] == 'd' || d[1] == 'e')
  }

  /** The end of the longest run of whitespace in `s` that starts at `i`:
      what the greedy `\s*` takes. */
  function SpaceEnd(s: string, i: nat): (j: nat)
    requires i <= |s|
    ensures i <= j <= |s| && AllSpace(s[i..j])
    ensures j == |s| || !IsSpace(s[j])
    decreases |s| - i
  {
    if i < |s| && IsSpace(s[i]) then
      var j := SpaceEnd(s, i + 1);
      assert forall k :: 0 <= k < j - i ==> s[i..j][k] == s[i + k];
      assert forall k :: 1 <= k < j - i ==> s[i..j][k] == s[i + 1..j][k - 1];
      j
    else i
  }

  lemma SpaceEndUnique(s: string, i: nat, j: nat)
    requires i <= j < |s| && AllSpace(s[i..j]) && !IsSpace(s[j])
    ensures SpaceEnd(s, i) == j
  {
    var e := SpaceEnd(s, i);
    forall k | i <= k < j ensures IsSpace(s[k]) {
      assert s[i..j][k - i] == s[k];
    }
    forall k | i <= k < e ensures IsSpace(s[k]) {
      assert s[i..e][k - i] == s[k];
    }
  }

  /** What `(%d|%e)?(\s*)(%c)` captures: `$1`, absent when the optional group
      took no part, and `$2`. */
  datatype MonthMatch = MonthMatch(day: Option<string>, space: string)

  function DayText(m: MonthMatch): string {
    match m.day
    case Some(d) => d
    case None => []
  }

  /** The text a match spans: `$1 $2 %c`. */
  function Matched(m: MonthMatch, c: char): string {
    DayText(m) + m.space + Directive(c)
  }

  /** A day directive, then whitespace, then `%c`, at the start of `s`. */
  ghost predicate DayThenMonth(s: string, c: char) {
    |s| >= 2 && IsDayDirective(s[..2]) && exists j :: 2 <= j <= |s| && AllSpace(s[2..j]) && DirectiveAt(s, c, j)
  }

  /** Whitespace, then `%c`, at the start of `s`. */
  ghost predicate SpaceThenMonth(s: string, c: char) {
    exists j :: 0 <= j <= |s| && AllSpace(s[..j]) && DirectiveAt(s, c, j)
  }

  /** The regular expression `(%d|%e)?(\s*)(%c)` tried at the start of `s`:
      the optional day group first, then without it. */
  function MatchMonth(s: string, c: char): (r: Option<MonthMatch>)
    ensures r.Some? ==> |Matched(r.value, c)| <= |s| && s[..|Matched(r.value, c)|] == Matched(r.value, c)
    ensures r.Some? ==> DirectiveAt(s, c, |Matched(r.value, c)| - 2)
    ensures r.Some? ==> AllSpace(r.value.space) && (r.value.day.Some? ==> IsDayDirective(r.value.day.value))
  {
    if |s| >= 2 && IsDayDirective(s[..2]) && DirectiveAt(s, c, SpaceEnd(s, 2)) then
      var j := SpaceEnd(s, 2);
      assert s[..j + 2] == s[..2] + s[2..j] + Directive(c);
      Some(MonthMatch(Some(s[..2]), s[2..j]))
    else if DirectiveAt(s, c, SpaceEnd(s, 0)) then
      var j := SpaceEnd(s, 0);
      assert s[..j + 2] == s[..j] + Directive(c);
      Some(MonthMatch(None, s[..j]))
    else None
  }

  lemma MatchNeedsDirective(s: string, c: char)
    ensures MatchMonth(s, c).Some? ==> HasDirective(s, c)
  {
    if MatchMonth(s, c).Some? {
      assert DirectiveAt(s, c, |Matched(MatchMonth(s, c).value, c)| - 2);
    }
  }

  /** The match is found exactly when the regular expression can match, and
      the day group takes part exactly when it can. */
  lemma MatchMonthSemantics(s: string, c: char)
    ensures MatchMonth(s, c).Some? <==> DayThenMonth(s, c) || SpaceThenMonth(s, c)
    ensures MatchMonth(s, c).Some? ==> (MatchMonth(s, c).value.day.Some? <==> DayThenMonth(s, c))
  {
    if DayThenMonth(s, c) {
      var j :| 2 <= j <= |s| && AllSpace(s[2..j]) && DirectiveAt(s, c, j);
      SpaceEndUnique(s, 2, j);
    }
    if SpaceThenMonth(s, c) {
      var j :| 0 <= j <= |s| && AllSpace(s[..j]) && DirectiveAt(s, c, j);
      assert s[0..j] == s[..j];
      SpaceEndUnique(s, 0, j);
    }
    var m := MatchMonth(s, c);
    if m.Some? && m.value.day.Some? {
      assert DirectiveAt(s, c, SpaceEnd(s, 2));
    }
    if m.Some? && m.value.day.None? {
      var j := SpaceEnd(s, 0);
      assert s[..j] == s[0..j];
      assert DirectiveAt(s, c, j);
    }
  }

  /** The replacement the block returns: `$1 + $2 + contextual` when the day
      group took part, `$2 + standalone` otherwise. */
  function MonthText(m: MonthMatch, contextual: string, standalone: string): string {
    match m.day
    case Some(d) => d + m.space + contextual
    case None => m.space + standalone
  }

  /** `gsub!(/(%d|%e)?(\s*)(%c)/) { ... }`: scans left to right, rewriting
      every match with `MonthText` and copying everything else. */
  function ReplaceMonth(s: string, c: char, contextual: string, standalone: string): string
    decreases |s|
  {
    if |s| == 0 then []
    else
      match MatchMonth(s, c)
      case Some(m) =>
        MonthText(m, contextual, standalone) + ReplaceMonth(s[|Matched(m, c)|..], c, contextual, standalone)
      case None =>
        [s[0]] + ReplaceMonth(s[1..], c, contextual, standalone)
  }

  /** A text without `%c` never matches the month pattern and passes through
      unchanged. */
  lemma {:induction false} ReplaceMonthUnchanged(s: string, c: char, contextual: string, standalone: string)
    requires !HasDirective(s, c)
    ensures ReplaceMonth(s, c, contextual, standalone) == s
    decreases |s|
  {
    if |s| > 0 {
      MatchNeedsDirective(s, c);
      ReplaceMonthStep(s, c, contextual, standalone);
      DirectiveInSuffix(s, c, 1);
      ReplaceMonthUnchanged(s[1..], c, contextual, standalone);
      assert [s[0]] + s[1..] == s;
    }
  }

  /** One step of the month substitution, unfolded. */
  lemma ReplaceMonthStep(s: string, c: char, contextual: string, standalone: string)
    requires |s| > 0
    ensures MatchMonth(s, c).Some? ==>
      ReplaceMonth(s, c, contextual, standalone)
        == MonthText(MatchMonth(s, c).value, contextual, standalone)
         + ReplaceMonth(s[|Matched(MatchMonth(s, c).value, c)|..], c, contextual, standalone)
    ensures MatchMonth(s, c).None? ==>
      ReplaceMonth(s, c, contextual, standalone) == [s[0]] + ReplaceMonth(s[1..], c, contextual, standalone)
  {
  }

  /** A month directive right after a day directive and whitespace takes the
      contextual name; the day directive and the whitespace stay. */
  lemma MonthAfterDay(day: string, w: string, c: char, t: string, contextual: string, standalone: string)
    requires IsDayDirective(day) && AllSpace(w)
    ensures ReplaceMonth(day + w + Directive(c) + t, c, contextual, standalone)
         == day + w + contextual + ReplaceMonth(t, c, contextual, standalone)
  {
    var s := day + w + Directive(c) + t;
    assert s[..2] == day;
    assert s[2..2 + |w|] == w;
    SpaceEndUnique(s, 2, 2 + |w|);
    assert DirectiveAt(s, c, 2 + |w|);
    assert s[2 + |w| + 2..] == t;
  }

  /** The same, when nothing after the month directive holds another one. */
  lemma MonthAfterDayPlainTail(day: string, w: string, c: char, t: string, contextual: string, standalone: string)
    requires IsDayDirective(day) && AllSpace(w) && !HasDirective(t, c)
    ensures ReplaceMonth(day + w + Directive(c) + t, c, contextual, standalone) == day + w + contextual + t
  {
    MonthAfterDay(day, w, c, t, contextual, standalone);
    ReplaceMonthUnchanged(t, c, contextual, standalone);
  }

  /** The same, when the month directive ends the text. */
  lemma MonthAfterDayEnd(day: string, w: string, c: char, contextual: string, standalone: string)
    requires IsDayDirective(day) && AllSpace(w)
    ensures ReplaceMonth(day + w + Directive(c), c, contextual, standalone) == day + w + contextual
  {
    MonthAfterDay(day, w, c, [], contextual, standalone);
    assert day + w + Directive(c) + [] == day + w + Directive(c);
    assert day + w + contextual + [] == day + w + contextual;
  }

  /** Text without `%` is copied, and the month directive that ends the
      text after a day directive takes the contextual name. */
  lemma PlainThenDayMonth(p: string, day: string, w: string, c: char, contextual: string, standalone: string)
    requires '%' !in p && IsDayDirective(day) && AllSpace(w) && c != 'd' && c != 'e'
    ensures ReplaceMonth(p + day + w + Directive(c), c, contextual, standalone) == p + day + w + contextual
  {
    var rest := day + w + Directive(c);
    assert rest[0] == '%' && rest[1] == day[1];
    MonthPlainPrefix(p, rest, c, contextual, standalone);
    MonthAfterDayEnd(day, w, c, contextual, standalone);
    Associate(p, day, w);
    Associate(p, day + w, Directive(c));
    Associate(p, day + w, contextual);
  }

  /** A month directive after whitespace only (possibly none) and no day
      directive takes the standalone name; the whitespace stays. */
  lemma MonthWithoutDay(w: string, c: char, t: string, contextual: string, standalone: string)
    requires AllSpace(w) && c != 'd' && c != 'e'
    ensures ReplaceMonth(w + Directive(c) + t, c, contextual, standalone)
         == w + standalone + ReplaceMonth(t, c, contextual, standalone)
  {
    var s := w + Directive(c) + t;
    if |w| > 0 {
      assert s[0] == w[0];
    }
    assert !(|s| >= 2 && IsDayDirective(s[..2])) by {
      if |w| == 0 { assert s[..2] == Directive(c); }
      else { assert IsSpace(s[0]); }
    }
    assert s[0..|w|] == w;
    SpaceEndUnique(s, 0, |w|);
    assert DirectiveAt(s, c, |w|);
    assert s[..|w|] == w;
    assert s[|w| + 2..] == t;
  }

  /** A character that is neither `%` nor whitespace cannot begin a match. */
  lemma MonthLiteralChar(ch: char, t: string, c: char, contextual: string, standalone: string)
    requires ch != '%' && !IsSpace(ch)
    ensures ReplaceMonth([ch] + t, c, contextual, standalone)
         == [ch] + ReplaceMonth(t, c, contextual, standalone)
  {
    var s := [ch] + t;
    assert SpaceEnd(s, 0) == 0;
    assert s[1..] == t;
  }

  /** The day directive and whitespace a match keeps hold no other directive. */
  lemma NoDirectiveBeforeMonth(m: MonthMatch, c: char)
    requires IsLetter(c) && c != 'd' && c != 'e'
    requires AllSpace(m.space) && (m.day.Some? ==> IsDayDirective(m.day.value))
    ensures !HasDirective(DayText(m) + m.space, c)
  {
    var d, p := DayText(m), DayText(m) + m.space;
    forall i | 0 <= i < |p| ensures !DirectiveAt(p, c, i) {
      if i < |d| {
        assert p[i] == d[i];
        if i + 1 < |d| { assert p[i + 1] == d[i + 1]; }
      } else {
        assert p[i] == m.space[i - |d|];
      }
    }
  }

  /** The month substitution only chooses which name replaces `%c`: with the
      same name for both forms it is the plain `gsub!(/%c/, name)`, so every
      character outside the directives is kept. */
  lemma {:induction false} MonthSameNames(s: string, c: char, name: string)
    requires IsLetter(c) && c != 'd' && c != 'e'
    ensures ReplaceMonth(s, c, name, name) == ReplaceAll(s, c, name)
    decreases |s|
  {
    if |s| > 0 {
      match MatchMonth(s, c)
      case Some(m) =>
        var n := MonthSameNamesMatch(s, c, name, m);
        MonthSameNames(s[n..], c, name);
      case None =>
        MonthSameNamesNoMatch(s, c, name);
        MonthSameNames(s[1..], c, name);
    }
  }

  /** One match of the month pattern: both substitutions copy the day
      directive and the whitespace, and put `name` in place of `%c`. */
  lemma MonthSameNamesMatch(s: string, c: char, name: string, m: MonthMatch) returns (n: nat)
    requires IsLetter(c) && c != 'd' && c != 'e'
    requires |s| > 0 && MatchMonth(s, c) == Some(m)
    ensures 0 < n <= |s|
    ensures ReplaceMonth(s, c, name, name) == DayText(m) + m.space + name + ReplaceMonth(s[n..], c, name, name)
    ensures ReplaceAll(s, c, name) == DayText(m) + m.space + name + ReplaceAll(s[n..], c, name)
  {
    var p := DayText(m) + m.space;
    n := |Matched(m, c)|;
    assert s == p + Directive(c) + s[n..] by {
      assert s == s[..n] + s[n..];
    }
    assert MonthText(m, name, name) == p + name;
    NoDirectiveBeforeMonth(m, c);
    ReplaceAllAfterPiece(p, c, name, s[n..]);
  }

  /** No match of the month pattern: both substitutions copy the first
      character. */
  lemma MonthSameNamesNoMatch(s: string, c: char, name: string)
    requires IsLetter(c) && |s| > 0 && MatchMonth(s, c).None?
    ensures ReplaceMonth(s, c, name, name) == [s[0]] + ReplaceMonth(s[1..], c, name, name)
    ensures ReplaceAll(s, c, name) == [s[0]] + ReplaceAll(s[1..], c, name)
  {
    MatchMonthSemantics(s, c);
    assert AllSpace(s[..0]);
    assert !DirectiveAt(s, c, 0);
  }

  /** Text without `%` in front of anything that neither starts with
      whitespace nor with `%c` cannot take part in a month match: it is
      copied. */
  lemma {:induction false} MonthPlainPrefix(a: string, t: string, c: char, contextual: string, standalone: string)
    requires '%' !in a && (|t| == 0 || !IsSpace(t[0])) && !DirectiveAt(t, c, 0)
    ensures ReplaceMonth(a + t, c, contextual, standalone) == a + ReplaceMonth(t, c, contextual, standalone)
    decreases |a|
  {
    if |a| > 0 {
      ghost var s := a + t;
      NoMonthMatchInPlain(a, t, c);
      ReplaceMonthStep(s, c, contextual, standalone);
      ConcatFirst(a, t);
      CharNotInSuffix(a, '%', 1);
      MonthPlainPrefix(a[1..], t, c, contextual, standalone);
      Associate([a[0]], a[1..], ReplaceMonth(t, c, contextual, standalone));
    } else {
      assert a + t == t;
    }
  }

  lemma NoMonthMatchInPlain(a: string, t: string, c: char)
    requires |a| > 0 && '%' !in a && (|t| == 0 || !IsSpace(t[0])) && !DirectiveAt(t, c, 0)
    ensures MatchMonth(a + t, c).None?
  {
    var s := a + t;
    forall k | 0 <= k < |a| ensures s[k] != '%' {
      assert s[k] == a[k];
      assert a[k] in a;
    }
    var j := SpaceEnd(s, 0);
    forall k | 0 <= k < j ensures IsSpace(s[k]) {
      assert s[0..j][k] == s[k];
    }
    if |t| > 0 {
      assert s[|a|] == t[0];
      if |t| > 1 { assert s[|a| + 1] == t[1]; }
    }
    assert !DirectiveAt(s, c, j);
  }
}

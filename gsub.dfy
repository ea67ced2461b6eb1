/**
 * `String#gsub!` as the backend runs it: one left-to-right pass over the
 * buffer that copies literal text and writes the replacement for each match,
 * resuming after the match so that inserted text is never rescanned. Each
 * scanner is proved to compute the substitution `Patterns` defines.
 */
module Gsub {
  import opened Wrappers
  import opened Patterns

  /** `format.gsub!(/%c/, rep)`. */
  method GsubDirective(s: string, c: char, rep: string) returns (r: string)
    ensures r == ReplaceAll(s, c, rep)
  {
    r := [];
    var i := 0;
    assert s[i..] == s;
    while i < |s|
      invariant 0 <= i <= |s|
      invariant r + ReplaceAll(s[i..], c, rep) == ReplaceAll(s, c, rep)
    {
      ReplaceAllAt(s, i, c, rep);
      if DirectiveAt(s, c, i) {
        Associate(r, rep, ReplaceAll(s[i + 2..], c, rep));
        r, i := r + rep, i + 2;
      } else {
        Associate(r, [s[i]], ReplaceAll(s[i + 1..], c, rep));
        r, i := r + [s[i]], i + 1;
      }
    }
  }

  /** `format.gsub!(/^%c/, rep)`: `^` holds at index 0 and after each newline. */
  method GsubAtLineStarts(s: string, c: char, rep: string) returns (r: string)
    ensures r == ReplaceAtLineStarts(s, c, rep, true)
  {
    r := [];
    var i := 0;
    assert s[i..] == s;
    var atLineStart := true;
    while i < |s|
      invariant 0 <= i <= |s|
      invariant atLineStart == (i == 0 || s[i - 1] == '\n')
      invariant r + ReplaceAtLineStarts(s[i..], c, rep, atLineStart) == ReplaceAtLineStarts(s, c, rep, true)
    {
      LineStartsAt(s, i, c, rep, atLineStart);
      if atLineStart && DirectiveAt(s, c, i) {
        Associate(r, rep, ReplaceAtLineStarts(s[i + 2..], c, rep, c == '\n'));
        r, i := r + rep, i + 2;
      } else {
        Associate(r, [s[i]], ReplaceAtLineStarts(s[i + 1..], c, rep, s[i] == '\n'));
        r, i := r + [s[i]], i + 1;
      }
      atLineStart := s[i - 1] == '\n';
    }
  }

  /** `format.gsub!(/(%d|%e)?(\s*)(%c)/) { $1 ? $1 + $2 + contextual : $2 + standalone }`.
      The scan keeps the text not yet scanned in `rest`. */
  method GsubMonth(s: string, c: char, contextual: string, standalone: string) returns (r: string)
    ensures r == ReplaceMonth(s, c, contextual, standalone)
  {
    r := [];
    var rest := s;
    while |rest| > 0
      invariant r + ReplaceMonth(rest, c, contextual, standalone) == ReplaceMonth(s, c, contextual, standalone)
      decreases |rest|
    {
      var m := MatchMonth(rest, c);
      ReplaceMonthStep(rest, c, contextual, standalone);
      if m.Some? {
        var text, n := MonthText(m.value, contextual, standalone), |Matched(m.value, c)|;
        AppendStep(r, ReplaceMonth(rest, c, contextual, standalone), text,
          ReplaceMonth(rest[n..], c, contextual, standalone), ReplaceMonth(s, c, contextual, standalone));
        r, rest := r + text, rest[n..];
      } else {
        AppendStep(r, ReplaceMonth(rest, c, contextual, standalone), [rest[0]],
          ReplaceMonth(rest[1..], c, contextual, standalone), ReplaceMonth(s, c, contextual, standalone));
        r, rest := r + [rest[0]], rest[1..];
      }
    }
  }

  /** Bookkeeping of the scan: the output so far plus the rest's rewrite. */
  lemma AppendStep(r: string, rest: string, text: string, tail: string, whole: string)
    requires r + rest == whole && rest == text + tail
    ensures (r + text) + tail == whole
  {
    Associate(r, text, tail);
  }
}

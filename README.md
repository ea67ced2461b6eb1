# Localized date templates of the `russian` gem's advanced I18n backend

`I18n::Backend::Advanced#localize` formats a date or time with the locale's
own names for weekdays and months. Before it hands the format template to
`strftime`, it rewrites the directives `%a`, `%A`, `%b`, `%B` and `%p` itself.
Russian needs two forms of each name:

- a standalone (nominative) form, e.g. "Январь" alone or at the head of a line;
- a contextual (genitive) form, e.g. "1 января", after a day number.

The template is rewritten by a fixed sequence of `String#gsub!` calls on one
working copy:

1. the standalone abbreviated weekday at line starts (`/^%a/`), when the locale has that table;
2. every remaining `%a` becomes the contextual abbreviated weekday;
3. the same two steps for `%A`;
4. `%b`, then `%B`. With a standalone table, `/(%d|%e)?(\s*)(%b)/` chooses the contextual name right after a day directive and the standalone name elsewhere. Without one, every `%b` becomes the contextual name;
5. `%p` becomes the am or pm label, but only when the object has an hour.

The project has three modules.

- `Patterns` (patterns.dfy) defines each substitution as a function on strings with Ruby's regular-expression semantics:
  - a left-to-right scan with no overlap;
  - text the substitution inserts is never rescanned;
  - `^` holds at the start of the string and after every newline;
  - `\s` covers space, tab, newline, vertical tab, form feed and carriage return;
  - the optional day group is tried first, and `\s*` is greedy.

  Each function is related to an independent reference reading by lemmas:
  - split at the directive and join with the replacement;
  - rewrite each line on its own;
  - the month pattern as a description of what it matches.
- `Gsub` (gsub.dfy) holds the scanning loops of `gsub!`. Each loop is proved to compute its `Patterns` function.
- `Advanced` (advanced.dfy) holds the data model and `Localize`.
  - The data model covers the object's capabilities and calendar fields, the format, and the locale's name tables. A standalone table the locale lacks is `None`.
  - `Localize` rejects an object without `strftime`, resolves a symbolic format strictly, then reassigns the working template through the five steps in the source's order.
  - The function `Rewrite` specifies the result. Lemmas show what it does with typical templates.

Ruby's `^` matches after every newline, so the standalone weekday form is produced at the start of every line of the template, not only at the start of the template. The model follows the code: `Advanced.StandaloneWeekdayPerLine` proves this for `"%a %a\n%a"`.

## Model

| member | source | states |
|---|---|---|
| `Advanced.Localize` | lib/russian/backend/advanced.rb:37-80 | An object without `strftime` gives `ArgumentError` before any lookup. Otherwise the result is the format-resolution error, or the resolved template rewritten by the five steps in their fixed order, each step on the previous step's output. |
| `Advanced.ResolveFormat` | lib/russian/backend/advanced.rb:40-44 | A template string is used as given. A symbolic key succeeds exactly when `time.formats.<key>` (object with `sec`) or `date.formats.<key>` (otherwise) is present, and yields that entry. A missing key fails with `MissingTranslation` naming the full key. |
| `Advanced.ApplyWeekday` | lib/russian/backend/advanced.rb:48-58 | The anchored standalone substitution runs only when the standalone table exists; then every remaining directive gets the contextual name. The result equals `Advanced.WeekdayStep`. |
| `Advanced.ApplyMonth` | lib/russian/backend/advanced.rb:60-76 | The block form of the month substitution runs when a standalone month table exists, the plain `gsub!` otherwise. The result equals `Advanced.MonthStep`. |
| `Advanced.ApplyMeridiem` | lib/russian/backend/advanced.rb:78 | `%p` is replaced by the am label for hours below 12 and the pm label otherwise. The template is unchanged when the object has no hour. |
| `Advanced.RewriteChain` | lib/russian/backend/advanced.rb:46-78 | The rewrite is the meridiem step applied after the two weekday steps and the two month steps, in source order, each consuming the previous output. It leaves the month steps' output alone when no `%p` remains. |
| `Advanced.RewriteUnchanged` | lib/russian/backend/advanced.rb:46-78 | A template holding none of `%a`, `%A`, `%b`, `%B`, `%p` reaches `strftime` unchanged. |
| `Advanced.WeekdayStepAbsent` | lib/russian/backend/advanced.rb:48-58 | A weekday step leaves a template without its directive unchanged, with or without a standalone table. |
| `Advanced.MonthStepAbsent` | lib/russian/backend/advanced.rb:60-76 | A month step leaves a template without its directive unchanged, with or without a standalone table. |
| `Advanced.MeridiemByHour` | lib/russian/backend/advanced.rb:78 | `%p` becomes the am label for hours 0-11 and the pm label for hours from 12 on. It stays `%p` for an object without an hour. |
| `Advanced.DayThenMonthIsContextual` | lib/russian/backend/advanced.rb:69-73 | With a standalone month table, `%d %B %Y` becomes `%d <contextual month> %Y`. The day directive and the space are kept verbatim. |
| `Advanced.MonthAloneIsStandalone` | lib/russian/backend/advanced.rb:69-76 | A bare `%B` becomes the standalone month name when the locale has that table, and the contextual name otherwise. |
| `Advanced.DirectiveOnly` | lib/russian/backend/advanced.rb:60-76 | A month step on the bare directive yields the standalone name when there is a standalone table, the contextual name otherwise. |
| `Advanced.StandaloneWeekdayFirst` | lib/russian/backend/advanced.rb:48-67 | With a standalone weekday table, `%a, %d %b` gives the standalone weekday first. `%b` after the day gets the contextual month name, whether or not a standalone month table exists. |
| `Advanced.StandaloneWeekdayPerLine` | lib/russian/backend/advanced.rb:48-52 | `^` anchors at every line start: in `%a %a\n%a` the first and last `%a` get the standalone name and the middle one the contextual name. |
| `Advanced.WeekdayNameRewrittenByMonthStep` | lib/russian/backend/advanced.rb:52-67 | The steps feed each other: a contextual weekday name that reads `%b` is rewritten by the later abbreviated-month step. |
| `Advanced.InsertedTextNotRescanned` | lib/russian/backend/advanced.rb:52 | Within one `gsub!`, inserted text is not scanned again: a weekday name reading `%a` survives its own step. |
| `Advanced.FormatKey` | lib/russian/backend/advanced.rb:42-43 | Defines the key a symbolic format is looked up under: `time.formats.<key>` for an object with `sec`, `date.formats.<key>` otherwise. `Advanced.ResolveFormat` states what the lookup yields. |
| `Advanced.WeekdayStep` | lib/russian/backend/advanced.rb:48-58 | Defines one weekday directive's two substitutions: the anchored standalone one when the table exists, then the contextual one everywhere. `Advanced.WeekdayStepAbsent`, `Advanced.StandaloneWeekdayPerLine` and `Advanced.StandaloneWeekdayFirst` state what it does. |
| `Advanced.MonthStep` | lib/russian/backend/advanced.rb:60-76 | Defines one month directive's substitution: the block form with a standalone table, the plain form without. `Advanced.MonthStepAbsent`, `Advanced.DirectiveOnly` and `Patterns.MonthSameNames` state what it does. |
| `Advanced.MeridiemLabel` | lib/russian/backend/advanced.rb:78 | Defines the label chosen by `hour < 12`: `time.am` below 12, `time.pm` from 12 on. `Advanced.MeridiemByHour` states it for the whole rewrite. |
| `Advanced.MeridiemStep` | lib/russian/backend/advanced.rb:78 | Defines the `%p` substitution, run only when the object has an hour. `Advanced.MeridiemByHour` states its effect. |
| `Advanced.Rewrite` | lib/russian/backend/advanced.rb:46-78 | Defines the template handed to `strftime`: the five steps in source order, each on the previous step's output. `Advanced.Localize` is proved to return it; `Advanced.RewriteChain` and `Advanced.RewriteUnchanged` state its properties. |
| `Patterns.ReplaceAll` | lib/russian/backend/advanced.rb:52 | Defines `gsub!(/%c/, rep)` as a left-to-right scan without overlap that does not rescan what it inserts. It serves lines 52, 58, 66, 75 and 78. `Patterns.ReplaceAllIsSplitJoin` relates it to the split-and-join reading. |
| `Patterns.ReplaceAtLineStarts` | lib/russian/backend/advanced.rb:23-24 | Defines `gsub!(/^%c/, rep)`, where `^` holds at the start and after each newline. It serves lines 49 and 55. `Patterns.ReplaceAtLineStartsIsByLine` relates it to the line-by-line reading. |
| `Patterns.ReplaceMonth` | lib/russian/backend/advanced.rb:61-64 | Defines the block form of the month `gsub!` with `/(%d\|%e)?(\s*)(%c)/`. It serves lines 61-64 and 70-73. `Patterns.MonthAfterDay`, `Patterns.MonthWithoutDay` and `Patterns.MonthSameNames` state what it does. |
| `Gsub.GsubDirective` | lib/russian/backend/advanced.rb:52 | The scanning loop of `gsub!(/%c/, rep)` computes exactly `ReplaceAll`. |
| `Gsub.GsubAtLineStarts` | lib/russian/backend/advanced.rb:48-51 | The scanning loop of `gsub!(/^%c/, rep)` computes exactly the line-start substitution. It tracks whether the index is at a line start. |
| `Gsub.GsubMonth` | lib/russian/backend/advanced.rb:61-64 | The scanning loop of the block form of the month `gsub!` computes exactly `ReplaceMonth`. |
| `Patterns.ReplaceAllIsSplitJoin` | lib/russian/backend/advanced.rb:52 | Replacing every `%c` equals cutting the template at each `%c` and joining the pieces with the replacement. All text outside the directives is kept, in order. |
| `Patterns.SplitJoin` | lib/russian/backend/advanced.rb:52 | The pieces between directives, joined with the directive, give back the template, and no piece holds the directive. |
| `Patterns.ReplaceAllJoin` | lib/russian/backend/advanced.rb:52 | Directive-free pieces joined by `%c` become the same pieces joined by the replacement. |
| `Patterns.ReplaceAllAfterPiece` | lib/russian/backend/advanced.rb:52 | A directive-free piece followed by `%c` is copied, and the first `%c` after it becomes the replacement. |
| `Patterns.ReplaceAllDirective` | lib/russian/backend/advanced.rb:52 | The bare directive becomes the replacement. |
| `Patterns.ReplaceAllUnchanged` | lib/russian/backend/advanced.rb:52 | A text without `%c` passes through `gsub!(/%c/, rep)` unchanged. |
| `Patterns.ReplaceAtLineStartsIsByLine` | lib/russian/backend/advanced.rb:23-24 | The anchored substitution equals cutting the template into lines and replacing a `%c` at the very start of each line, keeping the newlines. |
| `Patterns.ReplaceAtLineStartsByLine` | lib/russian/backend/advanced.rb:23-24 | For newline-free lines joined by newlines, the anchored substitution rewrites only each line's leading `%c`. |
| `Patterns.LinesJoin` | lib/russian/backend/advanced.rb:23-24 | Every template is its newline-free lines joined by newlines. |
| `Patterns.LineStartsInsideLine` | lib/russian/backend/advanced.rb:23-24 | Away from a line start, the anchored substitution leaves newline-free text unchanged. |
| `Patterns.LineStartsUnchanged` | lib/russian/backend/advanced.rb:23-24 | A text without `%c` passes through the anchored substitution unchanged. |
| `Patterns.SpaceEnd` | lib/russian/backend/advanced.rb:21-22 | Greedy `\s*`: the run of whitespace from the index is maximal. Every character in it is whitespace, and the character after it is not. |
| `Patterns.MatchMonth` | lib/russian/backend/advanced.rb:21-22 | A match of `(%d\|%e)?(\s*)(%c)` at the start of the text is a prefix of it that ends in `%c`. Its captured day is `%d` or `%e`, and its captured whitespace is all whitespace. |
| `Patterns.MatchMonthSemantics` | lib/russian/backend/advanced.rb:21-22 | The pattern matches exactly when the text starts with a day directive, whitespace and `%c`, or with whitespace and `%c`. The day group is captured exactly in the first case. |
| `Patterns.MatchNeedsDirective` | lib/russian/backend/advanced.rb:21-22 | The month pattern matches only in a text that holds the month directive. |
| `Patterns.NoDirectiveBeforeMonth` | lib/russian/backend/advanced.rb:21-22 | The day directive and whitespace a match keeps hold no month directive. |
| `Patterns.MonthAfterDay` | lib/russian/backend/advanced.rb:61-64 | `%d`/`%e`, whitespace and `%c` become the day directive, the same whitespace and the contextual name. The rest is rewritten independently. |
| `Patterns.MonthWithoutDay` | lib/russian/backend/advanced.rb:61-64 | Whitespace and `%c`, with no day directive before them, become the same whitespace and the standalone name. |
| `Patterns.MonthLiteralChar` | lib/russian/backend/advanced.rb:61-64 | A character that is neither `%` nor whitespace is copied and cannot start a match. |
| `Patterns.MonthPlainPrefix` | lib/russian/backend/advanced.rb:61-64 | Text without `%` in front of a non-whitespace, non-directive remainder is copied. The remainder is rewritten on its own. |
| `Patterns.ReplaceMonthUnchanged` | lib/russian/backend/advanced.rb:61-64 | A text without the month directive passes through the block form unchanged. |
| `Patterns.MonthSameNames` | lib/russian/backend/advanced.rb:60-67 | The block form only chooses the name. With equal contextual and standalone names it equals the plain `gsub!(/%c/, name)` of line 66. |

## Left out

- The translation store (`I18n.t`, `lookup`, `resolve`): what `localize` reads from it is an input. That input is a `Translations` record with the format templates by full key and the name tables. `resolve` is the identity on strings; translations that are Procs are not modelled.
- The final `object.strftime(format)` (line 80) is a foreign call. The model ends at the template passed to it.
- The `locale` and `options` parameters only select and parameterize store lookups, so they do not appear.
- `I18n::Backend::Pluralization` (line 19) is mixed in but never used by `localize`.
- Replacement strings are literal. Ruby's `gsub!` with a string replacement would interpret `\0`, `\1` or `\\` inside a name; the block form does not.
- Encodings, `.to_s` and `.dup` (line 46): strings are sequences of characters, and the working copy is a local variable.
- Advanced.Localize: requires, once the object responds to `strftime` and the format resolves, that every table the rewrite indexes has an entry at `wday` or `mon`: the contextual tables, and the standalone tables that are present. Ruby would index out of range to `nil`, and `gsub!` then raises a `TypeError`; in the block form only when a match occurs, while the model needs the entry in every case. The `ArgumentError` and missing-key paths carry no such requirement.
- Missing contextual tables are not modelled: the contextual tables are always present. Ruby's non-raising `I18n.t` would return its "translation missing" message as a String, and indexing that String by `wday` or `mon` substitutes a single character of it (or `nil`). The am/pm labels are always present too; Ruby would substitute the whole message for a missing one.
- The default argument `format = :default` (line 37): `Localize` always takes a format; a caller that gives none corresponds to `Advanced.DefaultFormat`, the key `default`.
- The object's `hour` is a natural number. `wday` and `mon` are used only as indices.

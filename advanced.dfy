/**
 * `I18n::Backend::Advanced#localize`: resolves the format, then rewrites the
 * weekday, month and meridiem directives of the template with the locale's
 * names before the template is handed to `strftime`. The rewrite chooses
 * between standalone and contextual name forms.
 *
 * The translation store is not modelled: what `localize` reads from it (the
 * format templates and the name tables of the locale) is an input.
 */
module Advanced {
  import opened Wrappers
  import opened Patterns
  import Gsub

  /** The object handed to `localize`: which of `strftime`, `sec` and `hour`
      it responds to, and its calendar fields. `wday` is 0-based (Sunday is
      0), `mon` is 1-based. */
  datatype Instant = Instant(
    respondsToStrftime: bool,
    respondsToSec: bool,
    wday: nat,
    mon: nat,
    hour: Option<nat>)

  /** A format: a symbolic key such as `:default`, or a template string. */
  datatype Format = Key(name: string) | Template(text: string)

  /** The format `localize` uses when its caller gives none. */
  const DefaultFormat: Format := Key("default")

  /** The name tables of the locale. Month tables are indexed by the month
      number itself (entry 0 is a placeholder); weekday tables by `wday`. A
      standalone table is `None` when the locale does not define it. */
  datatype NameTables = NameTables(
    standaloneAbbrDayNames: Option<seq<string>>,
    abbrDayNames: seq<string>,
    standaloneDayNames: Option<seq<string>>,
    dayNames: seq<string>,
    standaloneAbbrMonthNames: Option<seq<string>>,
    abbrMonthNames: seq<string>,
    standaloneMonthNames: Option<seq<string>>,
    monthNames: seq<string>,
    am: string,
    pm: string)

  /** What the translation store holds for the locale: the format templates,
      keyed by their full key (`time.formats.short`), and the name tables. */
  datatype Translations = Translations(formats: map<string, string>, names: NameTables)

  datatype LocalizeError =
    | ArgumentError                 // the object does not respond to `strftime`
    | MissingTranslation(key: string)  // the strict lookup of a symbolic format failed

  predicate Covers(table: Option<seq<string>>, i: nat) {
    table.Some? ==> i < |table.value|
  }

  /** Every table `localize` indexes has an entry at the object's index. */
  predicate Indexable(names: NameTables, obj: Instant) {
    && obj.wday < |names.abbrDayNames| && obj.wday < |names.dayNames|
    && obj.mon < |names.abbrMonthNames| && obj.mon < |names.monthNames|
    && Covers(names.standaloneAbbrDayNames, obj.wday) && Covers(names.standaloneDayNames, obj.wday)
    && Covers(names.standaloneAbbrMonthNames, obj.mon) && Covers(names.standaloneMonthNames, obj.mon)
  }

  function Entry(table: Option<seq<string>>, i: nat): Option<string>
    requires Covers(table, i)
  {
    match table
    case Some(ns) => Some(ns[i])
    case None => None
  }

  /** The key a symbolic format is looked up under: `time.formats.<key>` for
      an object with seconds, `date.formats.<key>` otherwise. */
  function FormatKey(obj: Instant, key: string): string {
    (if obj.respondsToSec then "time" else "date") + ".formats." + key
  }

  /** Format resolution: a template string is used as given; a symbolic key
      is looked up strictly, so a missing key is an error. */
  function ResolveFormat(tr: Translations, obj: Instant, f: Format): (r: Result<string, LocalizeError>)
    ensures f.Template? ==> r == Success(f.text)
    ensures f.Key? ==> (r.Success? <==> FormatKey(obj, f.name) in tr.formats)
    ensures f.Key? && r.Success? ==> r.value == tr.formats[FormatKey(obj, f.name)]
    ensures r.Failure? ==> r.error == MissingTranslation(FormatKey(obj, f.name))
  {
    match f
    case Template(text) => Success(text)
    case Key(name) =>
      var key := FormatKey(obj, name);
      if key in tr.formats then Success(tr.formats[key]) else Failure(MissingTranslation(key))
  }

  /** A weekday directive: first the standalone name at line starts, when the
      locale has a standalone table, then the contextual name everywhere else. */
  function WeekdayStep(s: string, c: char, standalone: Option<string>, contextual: string): string {
    var anchored := match standalone
      case Some(name) => ReplaceAtLineStarts(s, c, name, true)
      case None => s;
    ReplaceAll(anchored, c, contextual)
  }

  /** A month directive: with a standalone table, the contextual name right
      after a day directive and the standalone name elsewhere; without one,
      the contextual name everywhere. */
  function MonthStep(s: string, c: char, standalone: Option<string>, contextual: string): string {
    match standalone
    case Some(name) => ReplaceMonth(s, c, contextual, name)
    case None => ReplaceAll(s, c, contextual)
  }

  function MeridiemLabel(names: NameTables, hour: nat): string {
    if hour < 12 then names.am else names.pm
  }

  /** `%p` becomes the am/pm label only when the object has an hour. */
  function MeridiemStep(s: string, names: NameTables, hour: Option<nat>): string {
    match hour
    case Some(h) => ReplaceAll(s, 'p', MeridiemLabel(names, h))
    case None => s
  }

  /** None of the directives the backend rewrites occurs in `s`. */
  predicate NoNameDirectives(s: string) {
    !HasDirective(s, 'a') && !HasDirective(s, 'A') && !HasDirective(s, 'b')
    && !HasDirective(s, 'B') && !HasDirective(s, 'p')
  }

  /** The template handed to `strftime`: the steps in their fixed order,
      each on the text the previous one produced. */
  function Rewrite(names: NameTables, obj: Instant, s: string): string
    requires Indexable(names, obj)
  {
    var abbrDays := WeekdayStep(s, 'a', Entry(names.standaloneAbbrDayNames, obj.wday), names.abbrDayNames[obj.wday]);
    var days := WeekdayStep(abbrDays, 'A', Entry(names.standaloneDayNames, obj.wday), names.dayNames[obj.wday]);
    var abbrMonths := MonthStep(days, 'b', Entry(names.standaloneAbbrMonthNames, obj.mon), names.abbrMonthNames[obj.mon]);
    var months := MonthStep(abbrMonths, 'B', Entry(names.standaloneMonthNames, obj.mon), names.monthNames[obj.mon]);
    MeridiemStep(months, names, obj.hour)
  }

  /** Literal text passes through: a template without the rewritten
      directives is unchanged. */
  lemma RewriteUnchanged(names: NameTables, obj: Instant, s: string)
    requires Indexable(names, obj) && NoNameDirectives(s)
    ensures Rewrite(names, obj, s) == s
  {
    WeekdayStepAbsent(s, 'a', Entry(names.standaloneAbbrDayNames, obj.wday), names.abbrDayNames[obj.wday]);
    WeekdayStepAbsent(s, 'A', Entry(names.standaloneDayNames, obj.wday), names.dayNames[obj.wday]);
    MonthStepAbsent(s, 'b', Entry(names.standaloneAbbrMonthNames, obj.mon), names.abbrMonthNames[obj.mon]);
    MonthStepAbsent(s, 'B', Entry(names.standaloneMonthNames, obj.mon), names.monthNames[obj.mon]);
    if obj.hour.Some? {
      ReplaceAllUnchanged(s, 'p', MeridiemLabel(names, obj.hour.value));
    }
  }

  /** The two substitutions of one weekday directive, run on the working
      copy of the template. */
  method ApplyWeekday(format: string, c: char, standalone: Option<string>, contextual: string) returns (r: string)
    ensures r == WeekdayStep(format, c, standalone, contextual)
  {
    r := format;
    if standalone.Some? {
      r := Gsub.GsubAtLineStarts(r, c, standalone.value);
    }
    r := Gsub.GsubDirective(r, c, contextual);
  }

  /** The substitution of one month directive: the block form when the
      locale has a standalone table, the plain form otherwise. */
  method ApplyMonth(format: string, c: char, standalone: Option<string>, contextual: string) returns (r: string)
    ensures r == MonthStep(format, c, standalone, contextual)
  {
    if standalone.Some? {
      r := Gsub.GsubMonth(format, c, contextual, standalone.value);
    } else {
      r := Gsub.GsubDirective(format, c, contextual);
    }
  }

  /** The `%p` substitution, run only when the object has an hour. */
  method ApplyMeridiem(format: string, names: NameTables, hour: Option<nat>) returns (r: string)
    ensures r == MeridiemStep(format, names, hour)
  {
    r := format;
    if hour.Some? {
      r := Gsub.GsubDirective(r, 'p', if hour.value < 12 then names.am else names.pm);
    }
  }

  /** `localize(locale, object, format)` up to the final `strftime` call:
      rejects an object without `strftime`, resolves the format, and rewrites
      the working copy `format` one substitution at a time. */
  method Localize(tr: Translations, obj: Instant, f: Format) returns (r: Result<string, LocalizeError>)
    requires obj.respondsToStrftime && ResolveFormat(tr, obj, f).Success? ==> Indexable(tr.names, obj)
    ensures !obj.respondsToStrftime ==> r == Failure(ArgumentError)
    ensures obj.respondsToStrftime ==> r == match ResolveFormat(tr, obj, f)
      case Success(template) => Success(Rewrite(tr.names, obj, template))
      case Failure(e) => Failure(e)
  {
    if !obj.respondsToStrftime {
      return Failure(ArgumentError);
    }
    var format: string;
    match f {
      case Key(name) =>
        var key := FormatKey(obj, name);
        if key !in tr.formats {
          return Failure(MissingTranslation(key));
        }
        format := tr.formats[key];
      case Template(text) =>
        format := text;
    }
    var names := tr.names;
    format := ApplyWeekday(format, 'a', Entry(names.standaloneAbbrDayNames, obj.wday), names.abbrDayNames[obj.wday]);
    format := ApplyWeekday(format, 'A', Entry(names.standaloneDayNames, obj.wday), names.dayNames[obj.wday]);
    format := ApplyMonth(format, 'b', Entry(names.standaloneAbbrMonthNames, obj.mon), names.abbrMonthNames[obj.mon]);
    format := ApplyMonth(format, 'B', Entry(names.standaloneMonthNames, obj.mon), names.monthNames[obj.mon]);
    format := ApplyMeridiem(format, names, obj.hour);
    r := Success(format);
  }

  // ---------------------------------------------------------------------
  // What the rewrite does with typical templates
  // ---------------------------------------------------------------------

  /** The rewrite as the chain of its five steps, each on the previous
      step's output. */
  lemma RewriteChain(names: NameTables, obj: Instant, s: string, s1: string, s2: string, s3: string, s4: string)
    requires Indexable(names, obj)
    requires s1 == WeekdayStep(s, 'a', Entry(names.standaloneAbbrDayNames, obj.wday), names.abbrDayNames[obj.wday])
    requires s2 == WeekdayStep(s1, 'A', Entry(names.standaloneDayNames, obj.wday), names.dayNames[obj.wday])
    requires s3 == MonthStep(s2, 'b', Entry(names.standaloneAbbrMonthNames, obj.mon), names.abbrMonthNames[obj.mon])
    requires s4 == MonthStep(s3, 'B', Entry(names.standaloneMonthNames, obj.mon), names.monthNames[obj.mon])
    ensures Rewrite(names, obj, s) == MeridiemStep(s4, names, obj.hour)
    ensures !HasDirective(s4, 'p') ==> Rewrite(names, obj, s) == s4
  {
    if obj.hour.Some? && !HasDirective(s4, 'p') {
      ReplaceAllUnchanged(s4, 'p', MeridiemLabel(names, obj.hour.value));
    }
  }

  lemma WeekdayStepAbsent(s: string, c: char, standalone: Option<string>, contextual: string)
    requires !HasDirective(s, c)
    ensures WeekdayStep(s, c, standalone, contextual) == s
  {
    if standalone.Some? {
      LineStartsUnchanged(s, c, standalone.value, true);
    }
    ReplaceAllUnchanged(s, c, contextual);
  }

  lemma MonthStepAbsent(s: string, c: char, standalone: Option<string>, contextual: string)
    requires !HasDirective(s, c)
    ensures MonthStep(s, c, standalone, contextual) == s
  {
    if standalone.Some? {
      ReplaceMonthUnchanged(s, c, contextual, standalone.value);
    } else {
      ReplaceAllUnchanged(s, c, contextual);
    }
  }

  /** `%p` alone: the am label for hours 0 to 11, the pm label from 12 on,
      and `%p` left for `strftime` when the object has no hour. */
  lemma MeridiemByHour(names: NameTables, obj: Instant)
    requires Indexable(names, obj)
    ensures obj.hour.Some? && obj.hour.value < 12 ==> Rewrite(names, obj, "%p") == names.am
    ensures obj.hour.Some? && obj.hour.value >= 12 ==> Rewrite(names, obj, "%p") == names.pm
    ensures obj.hour.None? ==> Rewrite(names, obj, "%p") == "%p"
  {
    var s := "%p";
    AbsentLetter(s, 'a');
    AbsentLetter(s, 'A');
    AbsentLetter(s, 'b');
    AbsentLetter(s, 'B');
    WeekdayStepAbsent(s, 'a', Entry(names.standaloneAbbrDayNames, obj.wday), names.abbrDayNames[obj.wday]);
    WeekdayStepAbsent(s, 'A', Entry(names.standaloneDayNames, obj.wday), names.dayNames[obj.wday]);
    MonthStepAbsent(s, 'b', Entry(names.standaloneAbbrMonthNames, obj.mon), names.abbrMonthNames[obj.mon]);
    MonthStepAbsent(s, 'B', Entry(names.standaloneMonthNames, obj.mon), names.monthNames[obj.mon]);
    RewriteChain(names, obj, s, s, s, s, s);
    assert DirectiveAt(s, 'p', 0) && s[2..] == [];
  }

  /** `%d %B %Y` with a standalone month table: `%B` follows the day and a
      space, so it takes the contextual (genitive) name; the day directive and
      the space stay for `strftime`. */
  lemma DayThenMonthIsContextual(names: NameTables, obj: Instant)
    requires Indexable(names, obj) && names.standaloneMonthNames.Some?
    requires '%' !in names.monthNames[obj.mon]
    ensures Rewrite(names, obj, "%d %B %Y") == "%d " + names.monthNames[obj.mon] + " %Y"
  {
    DayThenMonthChain(names, obj, "%d %B %Y");
  }

  lemma DayThenMonthChain(names: NameTables, obj: Instant, s: string)
    requires Indexable(names, obj) && names.standaloneMonthNames.Some?
    requires '%' !in names.monthNames[obj.mon] && s == "%d %B %Y"
    ensures Rewrite(names, obj, s) == "%d " + names.monthNames[obj.mon] + " %Y"
  {
    var name := names.monthNames[obj.mon];
    AbsentLetter(s, 'a');
    AbsentLetter(s, 'A');
    AbsentLetter(s, 'b');
    WeekdayStepAbsent(s, 'a', Entry(names.standaloneAbbrDayNames, obj.wday), names.abbrDayNames[obj.wday]);
    WeekdayStepAbsent(s, 'A', Entry(names.standaloneDayNames, obj.wday), names.dayNames[obj.wday]);
    MonthStepAbsent(s, 'b', Entry(names.standaloneAbbrMonthNames, obj.mon), names.abbrMonthNames[obj.mon]);
    var out := "%d " + name + " %Y";
    DayMonthYearStep(s, name, names.standaloneMonthNames.value[obj.mon]);
    RewriteChain(names, obj, s, s, s, s, out);
    DayMonthYearPlain(name, out);
  }

  lemma DayMonthYearPlain(name: string, out: string)
    requires '%' !in name && out == "%d " + name + " %Y"
    ensures !HasDirective(out, 'p')
  {
    AbsentLetter(" %Y", 'p');
    NoDirectiveAfterPlain(name, " %Y", 'p');
    AbsentLetter("%d ", 'p');
    NoDirectiveConcat("%d ", name + " %Y", 'p');
    assert out == "%d " + (name + " %Y");
  }

  lemma DayMonthYearStep(s: string, contextual: string, standalone: string)
    requires s == "%d %B %Y"
    ensures MonthStep(s, 'B', Some(standalone), contextual) == "%d " + contextual + " %Y"
  {
    var d, w, t := s[..2], s[2..3], s[5..];
    assert s == d + w + Directive('B') + t;
    AbsentLetter(t, 'B');
    MonthAfterDayPlainTail(d, w, 'B', t, contextual, standalone);
    assert d + w == "%d " && t == " %Y";
  }

  /** `%B` with nothing before it takes the standalone (nominative) name when
      the locale has one, the contextual name otherwise. */
  lemma MonthAloneIsStandalone(names: NameTables, obj: Instant)
    requires Indexable(names, obj)
    requires '%' !in names.monthNames[obj.mon]
    requires names.standaloneMonthNames.Some? ==> '%' !in names.standaloneMonthNames.value[obj.mon]
    ensures Rewrite(names, obj, "%B") == match names.standaloneMonthNames
      case Some(t) => t[obj.mon]
      case None => names.monthNames[obj.mon]
  {
    MonthAloneChain(names, obj, "%B");
  }

  lemma MonthAloneChain(names: NameTables, obj: Instant, s: string)
    requires Indexable(names, obj) && s == "%B"
    requires '%' !in names.monthNames[obj.mon]
    requires names.standaloneMonthNames.Some? ==> '%' !in names.standaloneMonthNames.value[obj.mon]
    ensures Rewrite(names, obj, s) == match names.standaloneMonthNames
      case Some(t) => t[obj.mon]
      case None => names.monthNames[obj.mon]
  {
    var name := match names.standaloneMonthNames
      case Some(t) => t[obj.mon]
      case None => names.monthNames[obj.mon];
    AbsentLetter(s, 'a');
    AbsentLetter(s, 'A');
    AbsentLetter(s, 'b');
    WeekdayStepAbsent(s, 'a', Entry(names.standaloneAbbrDayNames, obj.wday), names.abbrDayNames[obj.wday]);
    WeekdayStepAbsent(s, 'A', Entry(names.standaloneDayNames, obj.wday), names.dayNames[obj.wday]);
    MonthStepAbsent(s, 'b', Entry(names.standaloneAbbrMonthNames, obj.mon), names.abbrMonthNames[obj.mon]);
    DirectiveOnly(s, 'B', Entry(names.standaloneMonthNames, obj.mon), names.monthNames[obj.mon]);
    RewriteChain(names, obj, s, s, s, s, name);
    NoDirectiveWithoutPercent(name, 'p');
  }

  /** A month step on the bare directive yields the standalone name when
      there is one, the contextual name otherwise. */
  lemma DirectiveOnly(s: string, c: char, standalone: Option<string>, contextual: string)
    requires s == Directive(c) && IsLetter(c) && c != 'd' && c != 'e'
    ensures MonthStep(s, c, standalone, contextual) == match standalone
      case Some(name) => name
      case None => contextual
  {
    assert s == [] + Directive(c) + [];
    if standalone.Some? {
      MonthWithoutDay([], c, [], contextual, standalone.value);
    } else {
      ReplaceAllDirective(c, contextual);
    }
  }

  /** `%a, %d %b` with a standalone weekday table: the leading `%a` takes the
      standalone name, and `%b`, which follows the day, the contextual one
      whether or not the locale has standalone month names. */
  lemma StandaloneWeekdayFirst(names: NameTables, obj: Instant)
    requires Indexable(names, obj) && names.standaloneAbbrDayNames.Some?
    requires '%' !in names.standaloneAbbrDayNames.value[obj.wday]
    requires '%' !in names.abbrMonthNames[obj.mon]
    ensures Rewrite(names, obj, "%a, %d %b")
         == names.standaloneAbbrDayNames.value[obj.wday] + ", %d " + names.abbrMonthNames[obj.mon]
  {
    WeekdayDayMonthChain(names, obj, "%a, %d %b");
  }

  lemma WeekdayDayMonthChain(names: NameTables, obj: Instant, s: string)
    requires Indexable(names, obj) && names.standaloneAbbrDayNames.Some?
    requires '%' !in names.standaloneAbbrDayNames.value[obj.wday]
    requires '%' !in names.abbrMonthNames[obj.mon]
    requires s == "%a, %d %b"
    ensures Rewrite(names, obj, s)
         == names.standaloneAbbrDayNames.value[obj.wday] + ", %d " + names.abbrMonthNames[obj.mon]
  {
    var day, month := names.standaloneAbbrDayNames.value[obj.wday], names.abbrMonthNames[obj.mon];
    var s1 := day + ", %d %b";
    LeadingWeekdayStep(s, day, names.abbrDayNames[obj.wday]);
    NoWeekdayAfterName(day, s1);
    WeekdayStepAbsent(s1, 'A', Entry(names.standaloneDayNames, obj.wday), names.dayNames[obj.wday]);
    var out := day + ", %d " + month;
    AbbrMonthAfterDay(names, obj, day);
    DayMonthPlain(day, month, out);
    MonthStepAbsent(out, 'B', Entry(names.standaloneMonthNames, obj.mon), names.monthNames[obj.mon]);
    RewriteChain(names, obj, s, s1, s1, out, out);
  }

  lemma NoWeekdayAfterName(day: string, s1: string)
    requires '%' !in day && s1 == day + ", %d %b"
    ensures !HasDirective(s1, 'A')
  {
    AbsentLetter(", %d %b", 'A');
    NoDirectiveAfterPlain(day, ", %d %b", 'A');
  }

  lemma DayMonthPlain(day: string, month: string, out: string)
    requires '%' !in day && '%' !in month && out == day + ", %d " + month
    ensures !HasDirective(out, 'B') && !HasDirective(out, 'p')
  {
    NoDirectiveWithoutPercent(month, 'B');
    NoDirectiveWithoutPercent(month, 'p');
    AbsentLetter(", %d ", 'B');
    AbsentLetter(", %d ", 'p');
    NoDirectiveConcat(", %d ", month, 'B');
    NoDirectiveConcat(", %d ", month, 'p');
    NoDirectiveAfterPlain(day, ", %d " + month, 'B');
    NoDirectiveAfterPlain(day, ", %d " + month, 'p');
    assert out == day + (", %d " + month);
  }

  lemma LeadingWeekdayStep(s: string, alone: string, contextual: string)
    requires s == "%a, %d %b" && '%' !in alone
    ensures WeekdayStep(s, 'a', Some(alone), contextual) == alone + ", %d %b"
  {
    var lit := ", %d %b";
    assert DirectiveAt(s, 'a', 0) && s[2..] == lit;
    AbsentLetter(lit, 'a');
    LineStartsUnchanged(lit, 'a', alone, false);
    assert ReplaceAtLineStarts(s, 'a', alone, true) == alone + lit;
    NoDirectiveAfterPlain(alone, lit, 'a');
    ReplaceAllUnchanged(alone + lit, 'a', contextual);
  }

  lemma AbbrMonthAfterDay(names: NameTables, obj: Instant, day: string)
    requires Indexable(names, obj) && '%' !in day
    ensures MonthStep(day + ", %d %b", 'b', Entry(names.standaloneAbbrMonthNames, obj.mon), names.abbrMonthNames[obj.mon])
         == day + ", %d " + names.abbrMonthNames[obj.mon]
  {
    var month := names.abbrMonthNames[obj.mon];
    match names.standaloneAbbrMonthNames {
      case Some(t) => AbbrMonthAfterDayStandalone(day + ", %d %b", day, month, t[obj.mon]);
      case None => AbbrMonthAfterDayContextual(day + ", %d %b", day, month);
    }
  }

  lemma AbbrMonthAfterDayStandalone(s: string, day: string, month: string, standalone: string)
    requires s == day + ", %d %b" && '%' !in day
    ensures ReplaceMonth(s, 'b', month, standalone) == day + ", %d " + month
  {
    var x, d, w, m := ", ", "%d", " ", Directive('b');
    assert ", %d %b" == x + d + w + m && ", %d " == x + d + w;
    Associate(day, x, d);
    Associate(day, x + d, w);
    Associate(day, x + d + w, m);
    Associate(day, x + d + w, month);
    assert '%' !in day + x;
    PlainThenDayMonth(day + x, d, w, 'b', month, standalone);
  }

  lemma AbbrMonthAfterDayContextual(s: string, day: string, month: string)
    requires s == day + ", %d %b" && '%' !in day
    ensures ReplaceAll(s, 'b', month) == day + ", %d " + month
  {
    AbsentLetter(", %d ", 'b');
    NoDirectiveAfterPlain(day, ", %d ", 'b');
    assert s == day + ", %d " + Directive('b') + [];
    ReplaceAllAfterPiece(day + ", %d ", 'b', month, []);
  }

  /** Ruby's `^` anchors at every line start: in `%a %a\n%a` the first and
      the last `%a` start a line and take the standalone name, the middle one
      takes the contextual name. */
  lemma StandaloneWeekdayPerLine(names: NameTables, obj: Instant)
    requires Indexable(names, obj) && names.standaloneAbbrDayNames.Some?
    requires '%' !in names.standaloneAbbrDayNames.value[obj.wday]
    requires '%' !in names.abbrDayNames[obj.wday]
    ensures Rewrite(names, obj, "%a %a\n%a")
         == names.standaloneAbbrDayNames.value[obj.wday] + " " + names.abbrDayNames[obj.wday]
            + "\n" + names.standaloneAbbrDayNames.value[obj.wday]
  {
    var alone, ctx := names.standaloneAbbrDayNames.value[obj.wday], names.abbrDayNames[obj.wday];
    var s := "%a %a\n%a";
    var out := alone + " " + ctx + "\n" + alone;
    assert WeekdayStep(s, 'a', Entry(names.standaloneAbbrDayNames, obj.wday), ctx) == out by {
      AnchoredThenContextual(s, alone, ctx);
    }
    assert '%' !in out;
    NoDirectiveWithoutPercent(out, 'A');
    NoDirectiveWithoutPercent(out, 'b');
    NoDirectiveWithoutPercent(out, 'B');
    NoDirectiveWithoutPercent(out, 'p');
    WeekdayStepAbsent(out, 'A', Entry(names.standaloneDayNames, obj.wday), names.dayNames[obj.wday]);
    MonthStepAbsent(out, 'b', Entry(names.standaloneAbbrMonthNames, obj.mon), names.abbrMonthNames[obj.mon]);
    MonthStepAbsent(out, 'B', Entry(names.standaloneMonthNames, obj.mon), names.monthNames[obj.mon]);
    RewriteChain(names, obj, s, out, out, out, out);
  }

  lemma AnchoredThenContextual(s: string, alone: string, ctx: string)
    requires s == "%a %a\n%a" && '%' !in alone
    ensures WeekdayStep(s, 'a', Some(alone), ctx) == alone + " " + ctx + "\n" + alone
  {
    var ls := ["%a %a", "%a"];
    assert Join(ls, "\n") == s;
    ReplaceAtLineStartsByLine(ls, 'a', alone);
    var l0: string := "%a %a";
    assert DirectiveAt(l0, 'a', 0) && l0[2..] == " %a";
    var ms := MapLeading(ls, 'a', alone);
    assert ms[0] == alone + " %a" && ms[1] == alone + [];
    assert Join(ms, "\n") == alone + " %a" + "\n" + alone;
    NoDirectiveAfterPlain(alone, " ", 'a');
    assert alone + " %a" + "\n" + alone == (alone + " ") + Directive('a') + ("\n" + alone);
    ReplaceAllAfterPiece(alone + " ", 'a', ctx, "\n" + alone);
    assert '%' !in "\n" + alone;
    NoDirectiveWithoutPercent("\n" + alone, 'a');
    ReplaceAllUnchanged("\n" + alone, 'a', ctx);
  }

  /** The steps feed each other: a weekday name that reads `%b` is itself
      rewritten by the later month step. */
  lemma WeekdayNameRewrittenByMonthStep(names: NameTables, obj: Instant)
    requires Indexable(names, obj)
    requires names.standaloneAbbrDayNames.None? && names.abbrDayNames[obj.wday] == "%b"
    requires '%' !in names.abbrMonthNames[obj.mon]
    requires names.standaloneAbbrMonthNames.Some? ==> '%' !in names.standaloneAbbrMonthNames.value[obj.mon]
    ensures Rewrite(names, obj, "%a") == match names.standaloneAbbrMonthNames
      case Some(t) => t[obj.mon]
      case None => names.abbrMonthNames[obj.mon]
  {
    WeekdayNameChain(names, obj, "%a", "%b");
  }

  lemma WeekdayNameChain(names: NameTables, obj: Instant, s: string, b: string)
    requires Indexable(names, obj) && s == Directive('a') && b == Directive('b')
    requires names.standaloneAbbrDayNames.None? && names.abbrDayNames[obj.wday] == b
    requires '%' !in names.abbrMonthNames[obj.mon]
    requires names.standaloneAbbrMonthNames.Some? ==> '%' !in names.standaloneAbbrMonthNames.value[obj.mon]
    ensures Rewrite(names, obj, s) == match names.standaloneAbbrMonthNames
      case Some(t) => t[obj.mon]
      case None => names.abbrMonthNames[obj.mon]
  {
    var name := match names.standaloneAbbrMonthNames
      case Some(t) => t[obj.mon]
      case None => names.abbrMonthNames[obj.mon];
    ReplaceAllDirective('a', b);
    AbsentLetter(b, 'A');
    WeekdayStepAbsent(b, 'A', Entry(names.standaloneDayNames, obj.wday), names.dayNames[obj.wday]);
    DirectiveOnly(b, 'b', Entry(names.standaloneAbbrMonthNames, obj.mon), names.abbrMonthNames[obj.mon]);
    NoDirectiveWithoutPercent(name, 'B');
    NoDirectiveWithoutPercent(name, 'p');
    MonthStepAbsent(name, 'B', Entry(names.standaloneMonthNames, obj.mon), names.monthNames[obj.mon]);
    RewriteChain(names, obj, s, b, b, name, name);
  }

  /** Within one step inserted text is not scanned again: a contextual
      weekday name that reads `%a` survives its own step. */
  lemma InsertedTextNotRescanned(names: NameTables, obj: Instant)
    requires Indexable(names, obj)
    requires names.standaloneAbbrDayNames.None? && names.abbrDayNames[obj.wday] == "%a"
    ensures Rewrite(names, obj, "%a") == "%a"
  {
    InsertedTextChain(names, obj, "%a");
  }

  lemma InsertedTextChain(names: NameTables, obj: Instant, s: string)
    requires Indexable(names, obj) && s == Directive('a')
    requires names.standaloneAbbrDayNames.None? && names.abbrDayNames[obj.wday] == s
    ensures Rewrite(names, obj, s) == s
  {
    ReplaceAllDirective('a', s);
    AbsentLetter(s, 'A');
    AbsentLetter(s, 'b');
    AbsentLetter(s, 'B');
    AbsentLetter(s, 'p');
    WeekdayStepAbsent(s, 'A', Entry(names.standaloneDayNames, obj.wday), names.dayNames[obj.wday]);
    MonthStepAbsent(s, 'b', Entry(names.standaloneAbbrMonthNames, obj.mon), names.abbrMonthNames[obj.mon]);
    MonthStepAbsent(s, 'B', Entry(names.standaloneMonthNames, obj.mon), names.monthNames[obj.mon]);
    RewriteChain(names, obj, s, s, s, s, s);
  }
}

/** Whole cron expressions: five or six fields, and the dates they stand for. */
module CronExpression {
  import opened Outcomes
  import opened Texts
  import opened Cron
  import opened CronText
  import opened CronFields

  /** The schedule of the white-space separated fields of an expression. */
  function ParsedSchedule(fields: seq<string>): Option<Schedule> {
    if |fields| != 5 && |fields| != 6 then None
    else
      var hasSeconds := |fields| == 6;
      var offset := if hasSeconds then 1 else 0;
      var seconds := if hasSeconds then Parsed(fields[0], 0, 59) else Some(Exact(0));
      var minutes := Parsed(fields[offset], 0, 59);
      var hours := Parsed(fields[offset + 1], 0, 23);
      var days := Parsed(fields[offset + 2], 1, 31);
      var months := Parsed(fields[offset + 3], 1, 12);
      var weekdays := Parsed(fields[offset + 4], 0, 7);
      if seconds.None? || minutes.None? || hours.None? || days.None? || months.None? || weekdays.None? then None
      else Some(Schedule(seconds.value, minutes.value, hours.value, days.value, months.value, weekdays.value, hasSeconds))
  }

  /** The schedule of an expression. */
  function ParsedExpression(expr: string): Option<Schedule> {
    ParsedSchedule(Fields(expr))
  }

  method ParseCronExpression(expr: string) returns (schedule: Option<Schedule>)
    ensures schedule == ParsedExpression(expr)
  {
    hide Parsed;
    if expr == "" {
      return None;
    }
    var fields := Fields(expr);
    if |fields| != 5 && |fields| != 6 {
      return None;
    }
    var hasSeconds := |fields| == 6;
    var seconds, offset := Some(Exact(0)), 0;
    if hasSeconds {
      seconds := ParseField(fields[0], 0, 59);
      if seconds.None? {
        return None;
      }
      offset := 1;
    }
    var minutes := ParseField(fields[offset], 0, 59);
    if minutes.None? {
      return None;
    }
    var hours := ParseField(fields[offset + 1], 0, 23);
    if hours.None? {
      return None;
    }
    var days := ParseField(fields[offset + 2], 1, 31);
    if days.None? {
      return None;
    }
    var months := ParseField(fields[offset + 3], 1, 12);
    if months.None? {
      return None;
    }
    var weekdays := ParseField(fields[offset + 4], 0, 7);
    if weekdays.None? {
      return None;
    }
    return Some(Schedule(seconds.value, minutes.value, hours.value, days.value, months.value, weekdays.value, hasSeconds));
  }

  /** An expression as its writer means it; the seconds may be left out. */
  datatype Expression = Expression(second: Option<Field>, minute: Field, hour: Field, day: Field, month: Field,
                                   weekday: Field)

  /** The words spell the fields in their order. */
  ghost predicate SpellFields(words: seq<string>, e: Expression) {
    var offset := if e.second.Some? then 1 else 0;
    && |words| == 5 + offset
    && (e.second.Some? ==> Spells(words[0], e.second.value))
    && Spells(words[offset], e.minute) && Spells(words[offset + 1], e.hour) && Spells(words[offset + 2], e.day)
    && Spells(words[offset + 3], e.month) && Spells(words[offset + 4], e.weekday)
  }

  /** The text spells the expression: its fields are words with white space between them. */
  ghost predicate SpellsExpression(expr: string, e: Expression) {
    exists words :: SpacedOut(expr, words) && SpellFields(words, e)
  }

  predicate LegalExpression(e: Expression) {
    && (e.second.Some? ==> Legal(e.second.value, 0, 59))
    && Legal(e.minute, 0, 59) && Legal(e.hour, 0, 23) && Legal(e.day, 1, 31) && Legal(e.month, 1, 12)
    && Legal(e.weekday, 0, 7)
  }

  /** Calendar values are where they belong. */
  predicate Proper(c: Calendar, t: int) {
    && 0 <= c.second(t) <= 59 && 0 <= c.minute(t) <= 59 && 0 <= c.hour(t) <= 23
    && 1 <= c.day(t) <= 31 && 1 <= c.month(t) <= 12 && 0 <= c.weekday(t) <= 6
  }

  /** The instants an expression stands for; day and weekday are alternatives. */
  ghost predicate StandsFor(c: Calendar, e: Expression, t: int) {
    && (match e.second case Some(f) => Denotes(f, 0, 59, c.second(t)) case None => c.second(t) == 0)
    && Denotes(e.minute, 0, 59, c.minute(t))
    && Denotes(e.hour, 0, 23, c.hour(t))
    && Denotes(e.month, 1, 12, c.month(t))
    && (Denotes(e.day, 1, 31, c.day(t)) || Denotes(e.weekday, 0, 7, c.weekday(t)))
  }

  // ----- Every text is read as the expression it spells -----

  /** Words that the schedule accepts spell a legal expression. */
  lemma AcceptedSpells(words: seq<string>) returns (e: Expression)
    requires ParsedSchedule(words).Some?
    ensures SpellFields(words, e) && LegalExpression(e)
  {
    hide Parsed, Spells, Legal, Denotes, Matches;
    var seconds := None;
    var offset := 0;
    if |words| == 6 {
      var second := LegalField(words[0], 0, 59);
      seconds, offset := Some(second), 1;
    }
    var minute := LegalField(words[offset], 0, 59);
    var hour := LegalField(words[offset + 1], 0, 23);
    var day := LegalField(words[offset + 2], 1, 31);
    var month := LegalField(words[offset + 3], 1, 12);
    var weekday := LegalField(words[offset + 4], 0, 7);
    e := Expression(seconds, minute, hour, day, month, weekday);
  }

  lemma LegalField(s: string, min: int, max: int) returns (f: Field)
    requires Parsed(s, min, max).Some?
    ensures Spells(s, f) && Legal(f, min, max)
  {
    hide Parsed, Spells, Legal, Denotes, Matches;
    FieldReads(s, min, max);
    f :| Spells(s, f) && Legal(f, min, max);
  }

  /** One field of an expression: read, matched, and belonging to the spelled field. */
  lemma FieldMeets(s: string, f: Field, min: int, max: int, v: int)
    requires Spells(s, f) && Legal(f, min, max) && min <= v <= max
    ensures Parsed(s, min, max).Some?
    ensures Matches(Parsed(s, min, max).value, v) <==> Denotes(f, min, max, v)
  {
    hide Parsed, Spells, Legal, Denotes, Matches;
    FieldReads(s, min, max);
  }

  lemma SpelledMatches(c: Calendar, words: seq<string>, e: Expression, t: int)
    requires Proper(c, t) && SpellFields(words, e) && LegalExpression(e)
    ensures ParsedSchedule(words).Some?
    ensures ScheduleMatches(c, ParsedSchedule(words).value, t) <==> StandsFor(c, e, t)
  {
    hide Parsed, Spells, Legal, Denotes, Matches;
    var offset := if e.second.Some? then 1 else 0;
    if e.second.Some? {
      FieldMeets(words[0], e.second.value, 0, 59, c.second(t));
    }
    FieldMeets(words[offset], e.minute, 0, 59, c.minute(t));
    FieldMeets(words[offset + 1], e.hour, 0, 23, c.hour(t));
    FieldMeets(words[offset + 2], e.day, 1, 31, c.day(t));
    FieldMeets(words[offset + 3], e.month, 1, 12, c.month(t));
    FieldMeets(words[offset + 4], e.weekday, 0, 7, c.weekday(t));
    ExactMatches(0, c.second(t));
  }

  lemma ExactMatches(value: int, v: int)
    ensures Matches(Exact(value), v) <==> v == value
  {}

  /** For every text: it is accepted exactly when it spells an expression whose fields all fit,
      and its schedule then matches exactly the instants that expression stands for. */
  lemma ExpressionReads(c: Calendar, expr: string, t: int)
    requires Proper(c, t)
    ensures ParsedExpression(expr).Some? <==> exists e :: SpellsExpression(expr, e) && LegalExpression(e)
    ensures forall e :: SpellsExpression(expr, e) && LegalExpression(e) ==>
      (ScheduleMatches(c, ParsedExpression(expr).value, t) <==> StandsFor(c, e, t))
  {
    hide ParsedSchedule, Fields, SpacedOut, SpellFields, LegalExpression, ScheduleMatches, StandsFor, Proper;
    if ParsedExpression(expr).Some? {
      var e := AcceptedSpells(Fields(expr));
      FieldsIff(expr, Fields(expr));
      assert SpellsExpression(expr, e);
    }
    forall e | SpellsExpression(expr, e) && LegalExpression(e)
      ensures ParsedExpression(expr).Some?
      ensures ScheduleMatches(c, ParsedExpression(expr).value, t) <==> StandsFor(c, e, t)
    {
      var words :| SpacedOut(expr, words) && SpellFields(words, e);
      FieldsIff(expr, words);
      SpelledMatches(c, words, e, t);
    }
  }

  /** A text spells at most one expression. */
  lemma SpellingUnique(expr: string, e: Expression, f: Expression)
    requires SpellsExpression(expr, e) && SpellsExpression(expr, f)
    ensures e == f
  {
    hide Fields, SpacedOut, Spells, FieldOf;
    var words :| SpacedOut(expr, words) && SpellFields(words, e);
    var others :| SpacedOut(expr, others) && SpellFields(others, f);
    FieldsIff(expr, words);
    FieldsIff(expr, others);
    var offset := if e.second.Some? then 1 else 0;
    if e.second.Some? {
      SameField(words[0], e.second.value, f.second.value);
    }
    SameField(words[offset], e.minute, f.minute);
    SameField(words[offset + 1], e.hour, f.hour);
    SameField(words[offset + 2], e.day, f.day);
    SameField(words[offset + 3], e.month, f.month);
    SameField(words[offset + 4], e.weekday, f.weekday);
  }

  lemma SameField(s: string, f: Field, g: Field)
    requires Spells(s, f) && Spells(s, g)
    ensures f == g
  {
    hide Spells, FieldOf;
    SpellsIff(s, f);
    SpellsIff(s, g);
  }

  // ----- The first of the month -----

  /** `0 0 1 * *` is read, and is due at every midnight and not only on the first of the month. */
  lemma FirstOfMonthIsDaily(c: Calendar, t: int)
    requires Proper(c, t)
    ensures ParsedExpression("0 0 1 * *").Some?
    ensures ScheduleMatches(c, ParsedExpression("0 0 1 * *").value, t)
      <==> c.second(t) == 0 && c.minute(t) == 0 && c.hour(t) == 0
  {
    hide ParsedExpression, SpellsExpression, ScheduleMatches;
    var e := FirstOfMonth();
    ExpressionReads(c, "0 0 1 * *", t);
    assert StandsFor(c, e, t) <==> c.second(t) == 0 && c.minute(t) == 0 && c.hour(t) == 0;
  }

  /** `0 0 1 * 7` is read, and is due at midnight on the first of the month and on no other Sunday. */
  lemma SevenIsNoSunday(c: Calendar, t: int)
    requires Proper(c, t)
    ensures ParsedExpression("0 0 1 * 7").Some?
    ensures ScheduleMatches(c, ParsedExpression("0 0 1 * 7").value, t)
      <==> c.second(t) == 0 && c.minute(t) == 0 && c.hour(t) == 0 && c.day(t) == 1
  {
    hide ParsedExpression, SpellsExpression, ScheduleMatches;
    var e := FirstOrSeven();
    ExpressionReads(c, "0 0 1 * 7", t);
    assert StandsFor(c, e, t) <==> c.second(t) == 0 && c.minute(t) == 0 && c.hour(t) == 0 && c.day(t) == 1;
  }

  lemma FirstOrSeven() returns (e: Expression)
    ensures SpellsExpression("0 0 1 * 7", e) && LegalExpression(e)
    ensures e == Expression(None, Just(0), Just(0), Just(1), Every, Just(7))
  {
    hide SpacedOut, Decimal, Atoi;
    e := Expression(None, Just(0), Just(0), Just(1), Every, Just(7));
    var words := ["0", "0", "1", "*", "7"];
    DigitSpelled(0);
    DigitSpelled(1);
    DigitSpelled(7);
    FirstOfMonthWords();
    assert SpacedOut("0 0 1 * 7", words) && SpellFields(words, e);
  }

  lemma FirstOfMonth() returns (e: Expression)
    ensures SpellsExpression("0 0 1 * *", e) && LegalExpression(e)
    ensures e == Expression(None, Just(0), Just(0), Just(1), Every, Every)
  {
    hide SpacedOut, Decimal, Atoi;
    e := Expression(None, Just(0), Just(0), Just(1), Every, Every);
    var words := ["0", "0", "1", "*", "*"];
    DigitSpelled(0);
    DigitSpelled(1);
    FirstOfMonthWords();
    assert SpacedOut("0 0 1 * *", words) && SpellFields(words, e);
  }

  lemma DigitSpelled(d: int)
    requires 0 <= d <= 9
    ensures Spells([('0' as int + d) as char], Just(d))
  {
    DecimalPlain(d);
  }

  lemma FirstOfMonthWords()
    ensures SpacedOut("0 0 1 * *", ["0", "0", "1", "*", "*"])
    ensures SpacedOut("0 0 1 * 7", ["0", "0", "1", "*", "7"])
  {
    hide SpacedOut;
    SpacedOutOne("0");
    SpacedOutMore("0", ["0"], "0");
    assert "0 0" == "0" + " " + "0" && ["0", "0"] == ["0"] + ["0"];
    SpacedOutMore("0 0", ["0", "0"], "1");
    assert "0 0 1" == "0 0" + " " + "1" && ["0", "0", "1"] == ["0", "0"] + ["1"];
    SpacedOutMore("0 0 1", ["0", "0", "1"], "*");
    assert "0 0 1 *" == "0 0 1" + " " + "*" && ["0", "0", "1", "*"] == ["0", "0", "1"] + ["*"];
    SpacedOutMore("0 0 1 *", ["0", "0", "1", "*"], "*");
    assert "0 0 1 * *" == "0 0 1 *" + " " + "*" && ["0", "0", "1", "*", "*"] == ["0", "0", "1", "*"] + ["*"];
    SpacedOutMore("0 0 1 *", ["0", "0", "1", "*"], "7");
    assert "0 0 1 * 7" == "0 0 1 *" + " " + "7" && ["0", "0", "1", "*", "7"] == ["0", "0", "1", "*"] + ["7"];
  }

  lemma SpacedOutOne(w: string)
    requires IsWord(w)
    ensures SpacedOut(w, [w])
  {
    var gaps: seq<string> := [[], []];
    assert Separating(gaps) && Interleaved(gaps, [w]) == w;
  }

  lemma SpacedOutMore(s: string, words: seq<string>, w: string)
    requires SpacedOut(s, words) && IsWord(w)
    ensures SpacedOut(s + " " + w, words + [w])
  {
    hide IsWord, Interleaved, IsSpace;
    var n := |words|;
    var gaps :| |gaps| == n + 1 && Separating(gaps) && s == Interleaved(gaps, words);
    var longer := gaps[..n] + [gaps[n] + [' ']];
    GapLonger(gaps, words, ' ');
    WordAdded(longer, words, w);
    assert Separating(longer + [[]]) by {
      OneSpace();
    }
    assert s + " " + w == Interleaved(longer + [[]], words + [w]);
  }

  lemma OneSpace()
    ensures IsSpace(' ')
  {}
}

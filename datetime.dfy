/** The string handling of `extract_date_time` (main.py): the timezone token
    is group 1 of the first `\((.*?)\)`, the date/time text is the span
    between the interview date label and `Duration`, and the two are joined
    as `"<date/time> (<timezone>)"` for a lenient date parser, whose result
    is converted to UTC and formatted. The parser, the UTC conversion and the
    formatting are library code and stand here for one partial function
    passed in by the caller. */
module InterviewDateTime {
  import opened Wrappers
  import opened PyText
  import opened LazyRegex
  import opened FieldExtractor

  /** The label is matched literally; its own text holds a parenthesised
      `(Mention time zone)`. It is spelled here in three parts so that the
      lemmas below can name where its parentheses sit. */
  const LabelHead: string := "Data and Time of Interview "
  const LabelHint: string := "Mention time zone"
  const DateTimeLabel: string := LabelHead + "(" + LabelHint + "):"

  /** `\((.*?)\)`: unpadded, so group 1 starts right after the first `(` of
      the first match and ends at the first `)` after it on the same line. */
  const TimezonePattern: Pattern := Pattern("(", false, ")")

  /** `timezone_str`: stripped group 1 of the first parenthesised group, or `None`. */
  function TimezoneToken(text: string): Option<string>
  {
    SearchStrip(text, TimezonePattern)
  }

  /** The date pattern, `<label>\s*(.*?)\s*Duration`. */
  const DateTimePattern: Pattern := Pattern(DateTimeLabel, true, "Duration")

  /** `date_time_str`: the stripped span between the label and `Duration`, or `None`. */
  function DateTimeText(text: string): Option<string>
  {
    ExtractBetween(text, DateTimeLabel, "Duration")
  }

  /** Python truthiness of `Optional[str]`: `None` and `""` are false. */
  predicate Truthy(v: Option<string>)
  {
    v.Some? && v.value != []
  }

  /** The string handed to the parser, `f"{date_time_str} ({timezone_str})"`,
      when `date_time_str and timezone_str` holds. */
  function ParserInput(text: string): Option<string>
  {
    var dt := DateTimeText(text);
    var tz := TimezoneToken(text);
    if Truthy(dt) && Truthy(tz) then Some(dt.value + " (" + tz.value + ")") else None
  }

  /** `extract_date_time(text)`. `parseToUtc` stands for
      `date_parser.parse(..., fuzzy=True).astimezone(pytz.UTC).isoformat()`,
      with `None` for the `ValueError` the code catches; `'Z'` is appended to
      what it returns. */
  function ExtractDateTime(text: string, parseToUtc: string -> Option<string>): Option<string>
  {
    match ParserInput(text)
    case None => None
    case Some(input) =>
      match parseToUtc(input)
      case None => None
      case Some(iso) => Some(iso + "Z")
  }

  /** With both patterns matching, the parser's input is built from the
      first matches alone: group 1 of the date pattern's first match, which
      needs no stripping, and the stripped group 1 of the first `(...)`. An
      empty part is false in `date_time_str and timezone_str`, so then there
      is no input. */
  lemma ParserInputFromFirstMatches(text: string, p: nat, s: nat, e: nat, q: nat, a: nat, b: nat)
    requires IsFirstMatch(text, DateTimePattern, p, s, e)
    requires IsFirstMatch(text, TimezonePattern, q, a, b)
    ensures s <= e <= |text| && a <= b <= |text|
    ensures var dt := text[s..e];
      var tz := Strip(text[a..b]);
      ParserInput(text) == if dt != [] && tz != [] then Some(dt + " (" + tz + ")") else None
  {
    ExtractBetweenIsFirstMatch(text, DateTimeLabel, "Duration", p, s, e);
    SearchStripIsFirstMatch(text, TimezonePattern);
  }

  /** The same for the whole of `extract_date_time`: the parser sees exactly
      `dt + " (" + tz + ")"`, and its output gets a `Z` appended. */
  lemma ExtractDateTimeFromFirstMatches(text: string, parseToUtc: string -> Option<string>,
                                        p: nat, s: nat, e: nat, q: nat, a: nat, b: nat)
    requires IsFirstMatch(text, DateTimePattern, p, s, e)
    requires IsFirstMatch(text, TimezonePattern, q, a, b)
    ensures s <= e <= |text| && a <= b <= |text|
    ensures var dt := text[s..e];
      var tz := Strip(text[a..b]);
      var input := dt + " (" + tz + ")";
      ExtractDateTime(text, parseToUtc) ==
        if dt != [] && tz != [] && parseToUtc(input).Some? then Some(parseToUtc(input).value + "Z") else None
  {
    ParserInputFromFirstMatches(text, p, s, e, q, a, b);
  }

  /** When either pattern matches nowhere there is no parser input, and
      `extract_date_time` returns `None` without consulting the parser. */
  lemma ParserInputAbsent(text: string, parseToUtc: string -> Option<string>)
    ensures !Matches(text, DateTimePattern) || !Matches(text, TimezonePattern) ==>
      ParserInput(text) == None && ExtractDateTime(text, parseToUtc) == None
  {
    ExtractBetweenAbsent(text, DateTimeLabel, "Duration");
    SearchStripIsFirstMatch(text, TimezonePattern);
  }

  /** The timezone token is the first parenthesised group of the text, up to
      the first `)` after its `(`: it holds neither `)` nor a line feed, and
      no whitespace at either end. */
  lemma TimezoneTokenShape(text: string)
    requires TimezoneToken(text).Some?
    ensures var tz := TimezoneToken(text).value;
      ')' !in tz && '\n' !in tz && (tz == [] || (!IsSpace(tz[0]) && !IsSpace(tz[|tz| - 1])))
  {
    ExtractedShape(text, TimezonePattern);
    TimezoneTokenAvoidsClose(text);
  }

  /** The `)` part of that: the token lies inside group 1, where no `)` begins. */
  lemma TimezoneTokenAvoidsClose(text: string)
    requires TimezoneToken(text).Some?
    ensures ')' !in TimezoneToken(text).value
  {
    var h := Search(text, TimezonePattern).value;
    CaptureAvoidsClose(text, TimezonePattern);
    var a, b := StripOfSlice(text, h.from, h.to);
    var tz := text[a..b];
    assert TimezoneToken(text).value == tz;
    forall k | 0 <= k < |tz| ensures tz[k] != ')' {
      assert tz[k] == text[a + k];
      assert !LitAt(text, a + k, ")");
    }
  }

  /** No match of `\((.*?)\)` starts before `P` when no `(` does. */
  lemma NoOpenBefore(t: string, P: nat)
    requires P <= |t| && '(' !in t[..P]
    ensures forall p': nat, s': nat, e': nat, f': nat :: p' < P ==> !MatchWith(t, TimezonePattern, p', s', e', f')
  {
    forall p': nat, s': nat, e': nat, f': nat | p' < P
      ensures !MatchWith(t, TimezonePattern, p', s', e', f')
    {
      assert t[p'] == t[..P][p'];
    }
  }

  /** Group 1 starting at `a` ends no earlier than `b` when `t[a..b]` holds no `)`. */
  lemma NoCloseWithin(t: string, P: nat, a: nat, b: nat)
    requires a <= b <= |t| && ')' !in t[a..b]
    ensures forall e': nat, f': nat :: e' < b ==> !MatchWith(t, TimezonePattern, P, a, e', f')
  {
    forall e': nat, f': nat | e' < b
      ensures !MatchWith(t, TimezonePattern, P, a, e', f')
    {
      assert a <= e' ==> t[e'] == t[a..b][e' - a];
    }
  }

  /** Where the label's parentheses land in a text that contains it. */
  lemma LabelLayout(pre: string, rest: string)
    ensures var t := pre + DateTimeLabel + rest; var P := |pre| + |LabelHead|;
      && P + |LabelHint| + 1 < |t|
      && t[..P] == pre + LabelHead
      && t[P] == '(' && t[P + 1..P + |LabelHint| + 1] == LabelHint && t[P + |LabelHint| + 1] == ')'
  {
    var t := pre + DateTimeLabel + rest;
    var P := |pre| + |LabelHead|;
    assert |LabelHead| == 27 && |LabelHint| == 17;
    assert t == (pre + LabelHead) + ("(" + LabelHint + ")" + (":" + rest));
    assert ("(" + LabelHint + ")" + (":" + rest))[1..|LabelHint| + 1] == LabelHint;
  }

  /** A `(` at `P` with none before it, followed by the label's hint and a
      `)`, makes the hint the timezone token. */
  lemma HintIsTheToken(t: string, P: nat)
    requires P + |LabelHint| + 1 < |t| && '(' !in t[..P]
    requires t[P] == '(' && t[P + 1..P + |LabelHint| + 1] == LabelHint && t[P + |LabelHint| + 1] == ')'
    ensures TimezoneToken(t) == Some(LabelHint)
  {
    var close := P + |LabelHint| + 1;
    assert ')' !in LabelHint && '\n' !in LabelHint;
    assert MatchWith(t, TimezonePattern, P, P + 1, close, close);
    NoOpenBefore(t, P);
    NoCloseWithin(t, P, P + 1, close);
    assert IsFirstMatch(t, TimezonePattern, P, P + 1, close);
    SearchStripIsFirstMatch(t, TimezonePattern);
    StripSliceKeeps(t, P + 1, close);
  }

  /** The first `(` of a text that reaches the interview date label with no
      `(` before it is the one in the label itself, so the timezone token is
      the label's own `Mention time zone`, whatever timezone the sender
      wrote after the label. */
  lemma LabelParenthesisIsTheTimezone(pre: string, rest: string)
    requires '(' !in pre
    ensures TimezoneToken(pre + DateTimeLabel + rest) == Some(LabelHint)
  {
    LabelLayout(pre, rest);
    assert '(' !in LabelHead;
    HintIsTheToken(pre + DateTimeLabel + rest, |pre| + |LabelHead|);
  }
}

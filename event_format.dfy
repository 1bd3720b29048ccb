/**
 * Folder names built from a template: `format_with_date` (inside
 * `get_hit_keywords_events`) substitutes `{date:<strftime spec>}` or `{date}` and then
 * `{event}`; `validate_format` decides whether the format editor may save a template,
 * using `string.Formatter().parse`. Date rendering (`datetime.strftime`) is a parameter
 * of the model.
 */
module EventFormat {
  import opened Wrappers
  import opened Text

  // ---------------------------------------------------------------------------
  // format_with_date
  // ---------------------------------------------------------------------------

  /** The first index at or after `i` that holds `c`, or |s|. */
  function IndexFrom(s: string, i: nat, c: char): (j: nat)
    requires i <= |s|
    ensures i <= j <= |s|
    ensures j < |s| ==> s[j] == c
    ensures forall m :: i <= m < j ==> s[m] != c
    decreases |s| - i
  {
    if i == |s| || s[i] == c then i else IndexFrom(s, i + 1, c)
  }

  lemma IndexFromAt(s: string, i: nat, c: char, j: nat)
    requires i <= j <= |s|
    requires j < |s| ==> s[j] == c
    requires forall m :: i <= m < j ==> s[m] != c
    ensures IndexFrom(s, i, c) == j
  {
  }

  /**
   * The regular expression `\{date:([^}]+)\}` matches at `i`: "{date:" starts there and
   * the first '}' after it exists and closes a non-empty spec.
   */
  predicate DateTokenAt(fmt: string, i: nat) {
    i + 6 <= |fmt| && fmt[i..i + 6] == "{date:" &&
    i + 6 < IndexFrom(fmt, i + 6, '}') < |fmt|
  }

  /** `re.search(r"\{date:([^}]+)\}", fmt)` from `i` on: the leftmost match, as (start, index of its '}'). */
  function SearchDateToken(fmt: string, i: nat): (r: Option<(nat, nat)>)
    requires i <= |fmt|
    ensures r.Some? ==>
      (i <= r.value.0 && DateTokenAt(fmt, r.value.0) && r.value.1 == IndexFrom(fmt, r.value.0 + 6, '}'))
    ensures forall m: nat :: i <= m <= |fmt| && (r.None? || m < r.value.0) ==> !DateTokenAt(fmt, m)
    decreases |fmt| - i
  {
    if DateTokenAt(fmt, i) then Some((i, IndexFrom(fmt, i + 6, '}')))
    else if i == |fmt| then None
    else SearchDateToken(fmt, i + 1)
  }

  /** The date token that `format_with_date` substitutes, if the template has one: its text and its spec. */
  function DateToken(fmt: string): Option<(string, string)> {
    match SearchDateToken(fmt, 0)
    case Some((i, close)) => Some((fmt[i..close + 1], fmt[i + 6..close]))
    case None => None
  }

  /** Every match of the date regular expression has a ':' at its sixth character. */
  lemma DateTokenHasColon(fmt: string)
    requires DateToken(fmt).Some?
    ensures exists i :: OccursAt("{date:", fmt, i) && fmt[i + 5] == ':'
  {
    var (i, close) := SearchDateToken(fmt, 0).value;
    assert fmt[i..i + 6][5] == fmt[i + 5];
    assert OccursAt("{date:", fmt, i);
  }

  /**
   * `format_with_date(fmt, dt)` with `title` the event's title: every occurrence of the
   * first `{date:spec}` token's text becomes `strftime(when, spec)`; without such a
   * token every `{date}` becomes `strftime(when, "%Y%m%d")`; then every `{event}`
   * becomes the title.
   */
  function FormatWithDate<D>(fmt: string, title: string, when: D, strftime: (D, string) -> string): string {
    var dated :=
      match DateToken(fmt)
      case Some((token, spec)) => Replace(fmt, token, strftime(when, spec))
      case None => Replace(fmt, "{date}", strftime(when, "%Y%m%d"));
    Replace(dated, "{event}", title)
  }

  /** A template without placeholders is returned unchanged. */
  lemma FormatWithoutPlaceholders<D>(fmt: string, title: string, when: D, strftime: (D, string) -> string)
    requires !Contains("{date:", fmt) && !Contains("{date}", fmt) && !Contains("{event}", fmt)
    ensures FormatWithDate(fmt, title, when, strftime) == fmt
  {
    if DateToken(fmt).Some? {
      DateTokenHasColon(fmt);
      var i :| OccursAt("{date:", fmt, i) && fmt[i + 5] == ':';
      OccursImpliesContains("{date:", fmt, i);
    }
    ReplaceAbsent(fmt, "{date}", strftime(when, "%Y%m%d"));
    ReplaceAbsent(fmt, "{event}", title);
  }

  /** The one strftime spec whose rendering `format_with_date` uses: the token's, or "%Y%m%d" without a token. */
  function SpecUsed(fmt: string): string {
    match DateToken(fmt)
    case Some((_, spec)) => spec
    case None => "%Y%m%d"
  }

  /**
   * The date reaches the folder name only through its rendering with `SpecUsed(fmt)`:
   * two dates, or two strftime functions, that agree there give the same name. With a
   * token present the default "%Y%m%d" rendering, and so a bare `{date}`, plays no part.
   */
  lemma FormatDependsOnlyOnSpecUsed<D>(fmt: string, title: string,
                                       when1: D, strftime1: (D, string) -> string,
                                       when2: D, strftime2: (D, string) -> string)
    requires strftime1(when1, SpecUsed(fmt)) == strftime2(when2, SpecUsed(fmt))
    ensures FormatWithDate(fmt, title, when1, strftime1) == FormatWithDate(fmt, title, when2, strftime2)
  {
  }

  /**
   * With a `{date:spec}` token present, a bare `{date}` after it is not substituted
   * (for instance "{date:%d}-{date}" gives "29-{date}").
   */
  lemma FormatKeepsBareDateBesideSpec<D>(spec: string, sep: string, title: string, when: D,
                                         strftime: (D, string) -> string)
    requires |spec| > 0 && '}' !in spec
    requires '{' !in sep && '{' !in strftime(when, spec)
    ensures FormatWithDate("{date:" + spec + "}" + sep + "{date}", title, when, strftime)
         == strftime(when, spec) + sep + "{date}"
  {
    var token := "{date:" + spec + "}";
    var rendered := strftime(when, spec);
    DateSpecTokenAtStart(token + sep + "{date}", spec, sep + "{date}");
    TokenThenBareDate(token, sep, rendered, title);
  }

  lemma TokenThenBareDate(token: string, sep: string, rendered: string, title: string)
    requires |token| > 6 && token[0] == '{'
    requires '{' !in sep && '{' !in rendered
    ensures Replace(Replace(token + sep + "{date}", token, rendered), "{event}", title) == rendered + sep + "{date}"
  {
    TokenPassKeepsBareDate(token, sep, rendered);
    EventPassKeepsBareDate(rendered + sep, title);
  }

  lemma TokenPassKeepsBareDate(token: string, sep: string, rendered: string)
    requires |token| > 6 && token[0] == '{'
    requires '{' !in sep
    ensures Replace(token + sep + "{date}", token, rendered) == rendered + sep + "{date}"
  {
    assert token + sep + "{date}" == token + (sep + "{date}");
    ReplaceAtStart(sep + "{date}", token, rendered);
    ReplaceSkipsPrefix(sep, "{date}", token, rendered);
    ReplaceShortBrace("{date}", token, rendered);
    assert rendered + (sep + "{date}") == rendered + sep + "{date}";
  }

  lemma EventPassKeepsBareDate(a: string, title: string)
    requires '{' !in a
    ensures Replace(a + "{date}", "{event}", title) == a + "{date}"
  {
    ReplaceSkipsPrefix(a, "{date}", "{event}", title);
    ReplaceWithoutFirstChar([], "{event}", title);
    assert "{date}" + [] == "{date}";
    ReplaceAfterMismatch("{date}", [], "{event}", title);
  }

  /** Text shorter than the pattern, with the pattern's first character only at its start, is left as it is. */
  lemma ReplaceShortBrace(s: string, pat: string, rep: string)
    requires 0 < |s| < |pat| && pat[0] !in s[1..]
    ensures Replace(s, pat, rep) == s
  {
    assert !(pat <= s);
    ReplaceWithoutFirstChar(s[1..], pat, rep);
    assert [s[0]] + s[1..] == s;
  }

  /**
   * Without a date token, every `{date}` becomes the default rendering: text free of
   * '{' and ':' around any number of `{date}` placeholders.
   */
  lemma FormatEveryDefaultDate<D>(parts: seq<string>, title: string, when: D, strftime: (D, string) -> string)
    requires forall p <- parts :: '{' !in p && ':' !in p
    requires '{' !in strftime(when, "%Y%m%d")
    ensures FormatWithDate(Join(parts, "{date}"), title, when, strftime) == Join(parts, strftime(when, "%Y%m%d"))
  {
    var rendered := strftime(when, "%Y%m%d");
    JoinAvoids(parts, "{date}", ':');
    NoColonNoDateToken(Join(parts, "{date}"));
    ReplaceJoin(parts, "{date}", rendered);
    JoinAvoids(parts, rendered, '{');
    ReplaceWithoutFirstChar(Join(parts, rendered), "{event}", title);
  }

  /** Every `{event}` becomes the title: text free of '{' and ':' around any number of `{event}` placeholders. */
  lemma FormatEveryEvent<D>(parts: seq<string>, title: string, when: D, strftime: (D, string) -> string)
    requires forall p <- parts :: '{' !in p && ':' !in p
    ensures FormatWithDate(Join(parts, "{event}"), title, when, strftime) == Join(parts, title)
  {
    var fmt := Join(parts, "{event}");
    JoinAvoids(parts, "{event}", ':');
    NoColonNoDateToken(fmt);
    ReplaceJoinOther(parts, "{event}", "{date}", strftime(when, "%Y%m%d"));
    ReplaceJoin(parts, "{event}", title);
  }

  /**
   * With a `{date:spec}` token, every occurrence of the token's text becomes the spec's
   * rendering: '{'-free text around two or more copies of the token.
   */
  lemma FormatEveryDateToken<D>(parts: seq<string>, spec: string, title: string, when: D,
                                strftime: (D, string) -> string)
    requires |parts| >= 2 && forall p <- parts :: '{' !in p
    requires |spec| > 0 && '}' !in spec
    requires '{' !in strftime(when, spec)
    ensures FormatWithDate(Join(parts, "{date:" + spec + "}"), title, when, strftime)
         == Join(parts, strftime(when, spec))
  {
    var token := "{date:" + spec + "}";
    var rendered := strftime(when, spec);
    var fmt := Join(parts, token);
    assert parts[0] in parts;
    assert fmt == parts[0] + token + Join(parts[1..], token);
    DateSpecTokenAfter(fmt, parts[0], token, spec, Join(parts[1..], token));
    FormatWithToken(fmt, token, spec, title, when, strftime);
    ReplaceJoin(parts, token, rendered);
    JoinAvoids(parts, rendered, '{');
    ReplaceWithoutFirstChar(Join(parts, rendered), "{event}", title);
  }

  lemma FormatWithToken<D>(fmt: string, token: string, spec: string, title: string, when: D,
                           strftime: (D, string) -> string)
    requires DateToken(fmt) == Some((token, spec))
    ensures FormatWithDate(fmt, title, when, strftime)
         == Replace(Replace(fmt, token, strftime(when, spec)), "{event}", title)
  {
  }

  /** Without ':' a template has no date token. */
  lemma NoColonNoDateToken(fmt: string)
    requires ':' !in fmt
    ensures DateToken(fmt) == None
  {
    if DateToken(fmt).Some? {
      DateTokenHasColon(fmt);
    }
  }

  /** A '{'-free prefix followed by `{event}` gets the title in its place. */
  lemma ReplaceEventAfter(a: string, title: string)
    requires '{' !in a
    ensures Replace(a + "{event}", "{event}", title) == a + title
  {
    ReplaceSkipsPrefix(a, "{event}", "{event}", title);
    ReplaceAtStart([], "{event}", title);
    assert "{event}" + [] == "{event}";
    assert title + [] == title;
  }

  /** A pattern other than `{event}` that starts "{" and then a letter other than 'e' is absent from `a + "{event}"`. */
  lemma ReplaceMissesEvent(a: string, pat: string, rep: string)
    requires '{' !in a
    requires |pat| > 1 && pat[0] == '{' && pat[1] != 'e'
    ensures Replace(a + "{event}", pat, rep) == a + "{event}"
  {
    ReplaceSkipsPrefix(a, "{event}", pat, rep);
    ReplaceWithoutFirstChar([], pat, rep);
    assert "{event}" + [] == "{event}";
    ReplaceAfterMismatch("{event}", [], pat, rep);
  }

  /**
   * A leading placeholder other than `{event}`, then brace-free text, then `{event}`:
   * the two passes of `format_with_date` give the rendering, the text and the title.
   */
  lemma ReplaceLeadingThenEvent(token: string, sep: string, rendered: string, title: string)
    requires |token| > 1 && token[0] == '{' && token[1] != 'e'
    requires '{' !in sep && '{' !in rendered
    ensures Replace(Replace(token + sep + "{event}", token, rendered), "{event}", title)
         == rendered + sep + title
  {
    assert token + sep + "{event}" == token + (sep + "{event}");
    ReplaceAtStart(sep + "{event}", token, rendered);
    ReplaceMissesEvent(sep, token, rendered);
    assert rendered + (sep + "{event}") == (rendered + sep) + "{event}";
    ReplaceEventAfter(rendered + sep, title);
  }

  /** A template that starts with a `{date:<spec>}` token has that token as its date token. */
  lemma DateSpecTokenAtStart(fmt: string, spec: string, rest: string)
    requires |spec| > 0 && '}' !in spec
    requires fmt == "{date:" + spec + "}" + rest
    ensures SearchDateToken(fmt, 0) == Some((0, 6 + |spec|))
    ensures DateToken(fmt) == Some(("{date:" + spec + "}", spec))
  {
    var close := 6 + |spec|;
    assert fmt[close] == '}';
    assert forall m :: 6 <= m < close ==> fmt[m] == spec[m - 6];
    IndexFromAt(fmt, 6, '}', close);
    assert fmt[0..6] == "{date:";
    assert DateTokenAt(fmt, 0);
    assert fmt[0..close + 1] == "{date:" + spec + "}" && fmt[6..close] == spec;
  }

  /** A template whose first '{' opens a `{date:<spec>}` token has that token as its date token. */
  lemma DateSpecTokenAfter(fmt: string, pre: string, token: string, spec: string, rest: string)
    requires '{' !in pre && |spec| > 0 && '}' !in spec
    requires token == "{date:" + spec + "}" && fmt == pre + token + rest
    ensures DateToken(fmt) == Some((token, spec))
  {
    var k, close := |pre|, |pre| + 6 + |spec|;
    assert fmt[close] == '}';
    assert forall m :: k + 6 <= m < close ==> fmt[m] == spec[m - k - 6];
    IndexFromAt(fmt, k + 6, '}', close);
    assert fmt[k..k + 6] == "{date:";
    assert DateTokenAt(fmt, k);
    var r := SearchDateToken(fmt, 0);
    assert r.Some? && r.value.0 <= k;
    assert fmt[r.value.0..r.value.0 + 6][0] == fmt[r.value.0];
    assert r.value.0 == k;
    assert fmt[k..close + 1] == "{date:" + spec + "}" && fmt[k + 6..close] == spec;
  }

  /**
   * A template `{date}<sep>{event}` gives the default rendering of the date, the
   * separator and the title (for instance "20250529_Show" for "{date}_{event}").
   */
  lemma FormatDefaultDateThenTitle<D>(sep: string, title: string, when: D, strftime: (D, string) -> string)
    requires '{' !in sep && ':' !in sep
    requires '{' !in strftime(when, "%Y%m%d")
    ensures FormatWithDate("{date}" + sep + "{event}", title, when, strftime)
         == strftime(when, "%Y%m%d") + sep + title
  {
    var fmt := "{date}" + sep + "{event}";
    assert ':' !in fmt by {
      assert fmt == "{date}" + (sep + "{event}");
    }
    NoColonNoDateToken(fmt);
    ReplaceLeadingThenEvent("{date}", sep, strftime(when, "%Y%m%d"), title);
  }

  /**
   * A template `{date:<spec>}<sep>{event}` gives the date rendered with that spec, the
   * separator and the title (for instance "2025-05-29_Show" for
   * "{date:%Y-%m-%d}_{event}").
   */
  lemma FormatDateSpecThenTitle<D>(spec: string, sep: string, title: string, when: D, strftime: (D, string) -> string)
    requires |spec| > 0 && '}' !in spec
    requires '{' !in sep
    requires '{' !in strftime(when, spec)
    ensures FormatWithDate("{date:" + spec + "}" + sep + "{event}", title, when, strftime)
         == strftime(when, spec) + sep + title
  {
    var token := "{date:" + spec + "}";
    DateSpecTokenAtStart(token + sep + "{event}", spec, sep + "{event}");
    ReplaceLeadingThenEvent(token, sep, strftime(when, spec), title);
  }

  /** A calendar date, for the default rendering "%Y%m%d" of a year of four digits. */
  datatype CalendarDate = CalendarDate(year: nat, month: nat, day: nat)

  /** The last `width` decimal digits of `n`, zero-padded. */
  function Digits(n: nat, width: nat): (s: string)
    ensures |s| == width
    ensures forall c <- s :: '0' <= c <= '9'
  {
    if width == 0 then [] else Digits(n / 10, width - 1) + [('0' as int + n % 10) as char]
  }

  function Yyyymmdd(d: CalendarDate): (s: string)
    ensures |s| == 8 && forall c <- s :: '0' <= c <= '9'
  {
    Digits(d.year, 4) + Digits(d.month, 2) + Digits(d.day, 2)
  }

  /**
   * With the default "%Y%m%d" rendering, `{date}_{event}` names the folder after the
   * eight date digits and the title.
   */
  lemma DefaultFolderName(title: string, when: CalendarDate, strftime: (CalendarDate, string) -> string)
    requires strftime(when, "%Y%m%d") == Yyyymmdd(when)
    ensures FormatWithDate("{date}_{event}", title, when, strftime) == Yyyymmdd(when) + "_" + title
  {
    assert "{date}_{event}" == "{date}" + "_" + "{event}";
    DigitsHaveNoBrace(Yyyymmdd(when));
    FormatDefaultDateThenTitle("_", title, when, strftime);
  }

  lemma DigitsHaveNoBrace(s: string)
    requires forall c <- s :: '0' <= c <= '9'
    ensures '{' !in s
  {
  }

  /** The event "Show" on 29 May 2025 goes to the folder "20250529_Show". */
  lemma DefaultFolderNameExample(fmt: string, title: string, when: CalendarDate,
                                 strftime: (CalendarDate, string) -> string)
    requires fmt == "{date}_{event}" && title == "Show" && when == CalendarDate(2025, 5, 29)
    requires strftime(when, "%Y%m%d") == Yyyymmdd(when)
    ensures FormatWithDate(fmt, title, when, strftime) == "20250529_Show"
  {
    DefaultFolderName(title, when, strftime);
    YyyymmddExample();
  }

  lemma YyyymmddExample()
    ensures Yyyymmdd(CalendarDate(2025, 5, 29)) == "20250529"
  {
  }
}

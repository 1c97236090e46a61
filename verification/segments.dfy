/**
 The date, retrieval-date and title segments of an APA reference.
 */
module Segments {
  import opened Options
  import opened Text
  import opened Entries
  import opened Fragments

  /** A date's month, when it has one, has a name in the month-name lookup. */
  predicate MonthNamed(d: Date, lookups: Lookups) {
    d.month.Some? ==> lookups.monthName(d.month.value).Some?
  }

  function MonthName(d: Date, lookups: Lookups): string
    requires d.month.Some? && MonthNamed(d, lookups)
  {
    lookups.monthName(d.month.value).value
  }

  /** `get_date`: "(YYYY)", "(YYYY, Month)", "(YYYY, Month D)", or "(n. d.)" without a date. */
  function GetDate(e: Entry, lookups: Lookups): (r: string)
    requires e.date.Some? ==> MonthNamed(e.date.value, lookups)
    ensures r == "(n. d.)" <==> e.date.None?
    ensures StartsWith(r, "(") && EndsWith(r, ")")
  {
    if e.date.Some? then
      var d := e.date.value;
      var year := PadZero4(d.year);
      var r := if d.month.None? then
        "(" + year + ")"
      else if d.day.None? then
        "(" + year + ", " + MonthName(d, lookups) + ")"
      else
        "(" + year + ", " + MonthName(d, lookups) + " " + NatToString(d.day.value) + ")";
      assert r[0] == '(' && r[|r| - 1] == ')';
      assert r[1] == year[0] && IsDigit(year[0]);
      r
    else
      "(n. d.)"
  }

  /** A date with a year alone is written "(YYYY)". */
  lemma GetDateYearOnly(e: Entry, lookups: Lookups)
    requires e.date.Some? && e.date.value.month.None?
    ensures GetDate(e, lookups) == "(" + PadZero4(e.date.value.year) + ")"
  {
  }

  /** A date with a month opens with the zero-padded year and, after ", ", the month's name. */
  lemma GetDateMonth(e: Entry, lookups: Lookups)
    requires e.date.Some? && e.date.value.month.Some? && MonthNamed(e.date.value, lookups)
    ensures StartsWith(GetDate(e, lookups), "(" + PadZero4(e.date.value.year) + ", " + MonthName(e.date.value, lookups))
  {
    var d := e.date.value;
    var head := "(" + PadZero4(d.year) + ", " + MonthName(d, lookups);
    var r := GetDate(e, lookups);
    if d.day.None? {
      assert r == head + ")";
    } else {
      var day := NatToString(d.day.value);
      assert r == head + " " + day + ")";
      PrefixOfAppend(head + " " + day, ")");
      PrefixOfAppend(head + " ", day);
      PrefixOfAppend(head, " ");
    }
    PrefixOfAppend(head, ")");
  }

  /** The exact month-only and month-and-day texts: the year first, then the month name, then the day. */
  lemma GetDateForms(e: Entry, lookups: Lookups)
    requires e.date.Some? && e.date.value.month.Some? && MonthNamed(e.date.value, lookups)
    ensures var d := e.date.value;
      && (d.day.None? ==> GetDate(e, lookups) == "(" + PadZero4(d.year) + ", " + MonthName(d, lookups) + ")")
      && (d.day.Some? ==>
            (GetDate(e, lookups)
               == "(" + PadZero4(d.year) + ", " + MonthName(d, lookups) + " " + NatToString(d.day.value) + ")"))
  {
  }

  /** A date with a month and a day closes with the day's number. */
  lemma GetDateDay(e: Entry, lookups: Lookups)
    requires e.date.Some? && e.date.value.month.Some? && e.date.value.day.Some? && MonthNamed(e.date.value, lookups)
    ensures EndsWith(GetDate(e, lookups), " " + NatToString(e.date.value.day.value) + ")")
  {
    var d := e.date.value;
    var head := "(" + PadZero4(d.year) + ", " + MonthName(d, lookups);
    var tail := " " + NatToString(d.day.value) + ")";
    Framed(head, "", tail);
    AppendAssoc(head + " ", NatToString(d.day.value), ")");
    assert GetDate(e, lookups) == head + "" + tail;
  }

  /** A dated entry opens with its zero-padded year. */
  lemma GetDateYearFirst(e: Entry, lookups: Lookups)
    requires e.date.Some? && MonthNamed(e.date.value, lookups)
    ensures StartsWith(GetDate(e, lookups), "(" + PadZero4(e.date.value.year))
  {
    var d := e.date.value;
    var year := "(" + PadZero4(d.year);
    var r := GetDate(e, lookups);
    if d.month.Some? {
      GetDateMonth(e, lookups);
      var rest := ", " + MonthName(d, lookups);
      assert year + ", " + MonthName(d, lookups) == year + rest;
      assert r[..|year|] == (year + rest)[..|year|];
    } else {
      Framed(year, "", ")");
      assert r == year + "" + ")";
    }
  }

  /** The year of a dated entry reads back from the four characters after the opening parenthesis. */
  lemma GetDateYearReadsBack(e: Entry, lookups: Lookups)
    requires e.date.Some? && MonthNamed(e.date.value, lookups)
    requires e.date.value.year < 10000
    ensures AllDigits(GetDate(e, lookups)[1..5])
    ensures DecimalValue(GetDate(e, lookups)[1..5]) == e.date.value.year
  {
    var year := PadZero4(e.date.value.year);
    var r := GetDate(e, lookups);
    assert r[..1 + |year|] == "(" + year;
    assert r[1..5] == year;
  }

  /** The visit-date sentence: parenthesised exactly for a full date, and always ending with the URL. */
  function RetrievedText(d: Date, url: string, lookups: Lookups): (r: string)
    requires MonthNamed(d, lookups)
    ensures var full := d.month.Some? && d.day.Some?;
      && (StartsWith(r, "(") <==> full)
      && (full ==> StartsWith(r, "(Retrieved ") && EndsWith(r, ", from " + url + ")"))
      && (!full ==> StartsWith(r, "Retrieved ") && EndsWith(r, ", from " + url))
    ensures d.month.None? ==> r == "Retrieved " + PadZero4(d.year) + ", from " + url
  {
    var year := PadZero4(d.year);
    var tail := ", from " + url;
    if d.month.None? then
      var r := "Retrieved " + year + tail;
      Framed("Retrieved ", year, tail);
      assert r[0] == 'R';
      r
    else if d.day.None? then
      var r := "Retrieved " + (MonthName(d, lookups) + " " + year) + tail;
      Framed("Retrieved ", MonthName(d, lookups) + " " + year, tail);
      assert r[0] == 'R';
      r
    else
      var r := "(Retrieved " + (MonthName(d, lookups) + " " + NatToString(d.day.value) + ", " + year)
        + (tail + ")");
      Framed("(Retrieved ", MonthName(d, lookups) + " " + NatToString(d.day.value) + ", " + year, tail + ")");
      r
  }

  /**
   The exact retrieval texts with a month: the month name comes before the
   year here, the reverse of the author date, and the day sits between them
   in the parenthesised full form.
   */
  lemma RetrievedTextForms(d: Date, url: string, lookups: Lookups)
    requires MonthNamed(d, lookups) && d.month.Some?
    ensures d.day.None? ==>
      (RetrievedText(d, url, lookups)
         == "Retrieved " + MonthName(d, lookups) + " " + PadZero4(d.year) + ", from " + url)
    ensures d.day.Some? ==>
      (RetrievedText(d, url, lookups)
         == "(Retrieved " + MonthName(d, lookups) + " " + NatToString(d.day.value) + ", " + PadZero4(d.year)
            + ", from " + url + ")")
  {
    var m, y := MonthName(d, lookups), PadZero4(d.year);
    if d.day.None? {
      assert "Retrieved " + (m + " " + y) + (", from " + url) == "Retrieved " + m + " " + y + ", from " + url;
    } else {
      var day := NatToString(d.day.value);
      assert "(Retrieved " + (m + " " + day + ", " + y) + (", from " + url + ")")
        == "(Retrieved " + m + " " + day + ", " + y + ", from " + url + ")";
    }
  }

  /**
   `get_retreival_date`: nothing without a URL, the bare URL without a visit
   date, and the retrieval sentence otherwise.
   */
  function GetRetrievalDate(e: Entry, lookups: Lookups): (r: Option<string>)
    requires e.url.Some? && e.url.value.visitDate.Some? ==> MonthNamed(e.url.value.visitDate.value, lookups)
    ensures r.None? <==> e.url.None?
    ensures e.url.Some? && e.url.value.visitDate.None? ==> r == Some(e.url.value.value)
    ensures e.url.Some? && e.url.value.visitDate.Some? ==>
      r == Some(RetrievedText(e.url.value.visitDate.value, e.url.value.value, lookups))
  {
    if e.url.Some? then
      var url := e.url.value.value;
      if e.url.value.visitDate.Some? then
        Some(RetrievedText(e.url.value.visitDate.value, url, lookups))
      else
        Some(url)
    else
      None
  }

  /** Which of the three mutually exclusive title endings applies. */
  datatype TitleForm = Multivolume(parent: nat) | EditionVolume | Plain

  /** Book types that take the edition/volume parenthetical after their title. */
  function TitleFormOf(e: Entry, c: Checks): (f: TitleForm)
    ensures f.Multivolume? <==> c.multivolume.Some? && e.volume.Some?
    ensures f.EditionVolume? <==> !f.Multivolume? && (e.volume.Some? || e.edition.Some?) && c.book
    ensures f.Multivolume? ==> f.parent == c.multivolume.value
  {
    if c.multivolume.Some? && e.volume.Some? then
      Multivolume(c.multivolume.value)
    else if (e.volume.Some? || e.edition.Some?) && c.book then
      EditionVolume
    else
      Plain
  }

  /** What `get_title` needs to avoid its unwraps: the multivolume parent exists and has a title. */
  predicate TitleDefined(e: Entry, c: Checks) {
    && IndexFits(c.multivolume, |e.parents|)
    && (c.multivolume.Some? && e.volume.Some? ==> e.parents[c.multivolume.value].title.Some?)
  }

  /**
   `get_title`: the sentence-cased title with exactly one ending, in order of
   precedence: the multivolume form "{Parent}: {Vol} {title}.", the
   edition/volume parenthetical for book-like types, or the plain terminator.
   */
  function GetTitle(e: Entry, c: Checks, lookups: Lookups): (r: Option<string>)
    requires TitleDefined(e, c)
    ensures r.None? <==> e.title.None?
    ensures r.Some? ==> EndsSentence(r.value)
    ensures r.Some? && TitleFormOf(e, c).Multivolume? ==>
      r.value == lookups.sentenceCase(e.parents[c.multivolume.value].title.value) + ": "
        + VolumeText(e.volume.value) + " " + lookups.sentenceCase(e.title.value) + "."
    ensures r.Some? && TitleFormOf(e, c).EditionVolume? ==>
      r.value == lookups.sentenceCase(e.title.value) + EdVolStr(e, lookups)
    ensures r.Some? && TitleFormOf(e, c).Plain? ==>
      r.value == Terminate(lookups.sentenceCase(e.title.value))
  {
    if e.title.Some? then
      var title := lookups.sentenceCase(e.title.value);
      match TitleFormOf(e, c)
      case Multivolume(p) =>
        var parentTitle := lookups.sentenceCase(e.parents[p].title.value);
        Some(parentTitle + ": " + VolumeText(e.volume.value) + " " + title + ".")
      case EditionVolume =>
        EdVolStrShape(e, lookups);
        Some(title + EdVolStr(e, lookups))
      case Plain =>
        Some(Terminate(title))
    else
      None
  }

  /**
   The entry's own title survives: it opens the result unless the multivolume
   form applies, in which case it closes the result before the final period.
   */
  lemma GetTitleKeepsTitle(e: Entry, c: Checks, lookups: Lookups)
    requires TitleDefined(e, c) && e.title.Some?
    ensures var r := GetTitle(e, c, lookups).value; var title := lookups.sentenceCase(e.title.value);
      && (!TitleFormOf(e, c).Multivolume? ==> StartsWith(r, title))
      && (TitleFormOf(e, c).Multivolume? ==> EndsWith(r, " " + title + "."))
  {
    var title := lookups.sentenceCase(e.title.value);
    match TitleFormOf(e, c)
    case Multivolume(p) =>
      var head := lookups.sentenceCase(e.parents[p].title.value) + ": " + VolumeText(e.volume.value);
      var tail := " " + title + ".";
      var r := GetTitle(e, c, lookups).value;
      assert r == head + " " + title + ".";
      AppendAssoc(head, " " + title, ".");
      AppendAssoc(head, " ", title);
      assert r == head + tail;
      assert r[|r| - |tail|..] == tail;
    case EditionVolume =>
      PrefixOfAppend(title, EdVolStr(e, lookups));
    case Plain =>
      var r := Terminate(title);
      assert r[..|title|] == title;
  }

  /** A multivolume title is period-terminated even when it already ends in a question mark. */
  lemma MultivolumeAlwaysAddsPeriod(e: Entry, c: Checks, lookups: Lookups)
    requires TitleDefined(e, c) && e.title.Some?
    requires c.multivolume.Some? && e.volume.Some?
    requires EndsSentence(lookups.sentenceCase(e.title.value))
    ensures EndsWith(GetTitle(e, c, lookups).value, lookups.sentenceCase(e.title.value) + ".")
  {
    var title := lookups.sentenceCase(e.title.value);
    var head := lookups.sentenceCase(e.parents[c.multivolume.value].title.value) + ": " + VolumeText(e.volume.value) + " ";
    var r := GetTitle(e, c, lookups).value;
    assert r == head + title + ".";
    AppendAssoc(head, title, ".");
    assert r == head + (title + ".");
    assert r[|head|..] == title + ".";
  }

  /** An empty plain title becomes ".". */
  lemma EmptyPlainTitle(e: Entry, c: Checks, lookups: Lookups)
    requires TitleDefined(e, c) && e.title.Some?
    requires TitleFormOf(e, c).Plain? && lookups.sentenceCase(e.title.value) == ""
    ensures GetTitle(e, c, lookups) == Some(".")
  {
    assert "" + "." == ".";
  }
}

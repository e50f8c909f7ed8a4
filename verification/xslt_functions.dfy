/** The helper functions the report template calls through its extension object
    (class XsltFunctions, registered under the namespace urn:my-scripts). */
module XsltFunctions {
  import opened Outcomes
  import opened Strings
  import opened ImagePattern

  /** Keeps the part of an assembly-qualified name before the first comma. */
  function RemoveAssemblyName(asm: string): (r: string)
    ensures r <= asm
    ensures ',' !in r
    ensures |r| < |asm| ==> asm[|r|] == ','
  {
    var idx := IndexOf(asm, ',');
    if idx == -1 then asm else asm[..idx]
  }

  /** Keeps the part starting two characters after the first comma (skipping ", ").
      String.Substring throws when the start lies beyond the end, which happens on the
      empty string and when the first comma is the last character. */
  function RemoveNamespace(asm: string): (r: Outcome<string>)
    ensures r.Returns? <==> IndexOf(asm, ',') + 2 <= |asm|
    ensures r.Throws? ==> r.exception == ArgumentOutOfRange
    ensures r.Returns? ==> |r.value| == |asm| - IndexOf(asm, ',') - 2
    ensures r.Returns? ==> r.value == asm[|asm| - |r.value|..]
  {
    var coma := IndexOf(asm, ',');
    var start, length := coma + 2, |asm| - coma - 2;
    if start < 0 || length < 0 || start + length > |asm| then Throws(ArgumentOutOfRange)
    else Returns(asm[start..start + length])
  }

  /** Applying RemoveAssemblyName to its own result changes nothing. */
  lemma RemoveAssemblyNameIdempotent(asm: string)
    ensures RemoveAssemblyName(RemoveAssemblyName(asm)) == RemoveAssemblyName(asm)
  {
  }

  /** With no comma, RemoveNamespace drops exactly the first character. */
  lemma RemoveNamespaceWithoutComma(asm: string)
    requires ',' !in asm && asm != ""
    ensures RemoveNamespace(asm) == Returns(asm[1..])
  {
  }

  /** The two cases in which RemoveNamespace throws. */
  lemma RemoveNamespaceThrows(asm: string)
    requires asm == "" || (asm[|asm| - 1] == ',' && ',' !in asm[..|asm| - 1])
    ensures RemoveNamespace(asm) == Throws(ArgumentOutOfRange)
  {
    if asm != "" {
      assert IndexOf(asm, ',') == |asm| - 1;
    }
  }

  /** On a name of the form `type, assembly` the two helpers split it into its parts. */
  lemma SplitQualifiedName(typeName: string, separator: char, assembly: string)
    requires ',' !in typeName
    ensures RemoveAssemblyName(typeName + [',', separator] + assembly) == typeName
    ensures RemoveNamespace(typeName + [',', separator] + assembly) == Returns(assembly)
  {
    var asm := typeName + [',', separator] + assembly;
    var c := IndexOf(asm, ',');
    assert asm[|typeName|] == ',';
    assert asm[..|typeName|] == typeName;
    assert c == |typeName|;
    assert asm[c + 2..] == assembly;
  }

  /** A name RemoveNamespace accepts is the RemoveAssemblyName part, the comma, one separator
      character and the RemoveNamespace part, in that order. */
  lemma RecomposeQualifiedName(asm: string)
    requires ',' in asm && RemoveNamespace(asm).Returns?
    ensures var c := |RemoveAssemblyName(asm)|;
      c + 1 < |asm| && asm == RemoveAssemblyName(asm) + [',', asm[c + 1]] + RemoveNamespace(asm).value
  {
    var c := IndexOf(asm, ',');
    assert asm == asm[..c] + [',', asm[c + 1]] + asm[c + 2..];
  }

  /** The unit ToExtactTime renders a duration in. */
  datatype TimeUnit = Milliseconds | Seconds | Minutes | Hours

  /** A humanized duration before number formatting: an amount of a unit. */
  datatype Duration = Duration(amount: real, unit: TimeUnit)

  /** The length of one unit in milliseconds (TimeSpan.TotalSeconds, TotalMinutes, TotalHours
      divide by these). */
  function UnitLength(u: TimeUnit): real {
    match u
    case Milliseconds => 1.0
    case Seconds => 1000.0
    case Minutes => 60000.0
    case Hours => 3600000.0
  }

  /** The order of the units, smallest first. */
  function Rank(u: TimeUnit): nat {
    match u
    case Milliseconds => 0
    case Seconds => 1
    case Minutes => 2
    case Hours => 3
  }

  /** ToExtactTime (the name is spelled as in the source): the band choice and the amount shown.
      The amount is the same duration expressed in the chosen unit, and the unit is the one that
      shows it below 1000 milliseconds, or between 1 and 60 seconds or minutes, or as at least
      one hour. Those ranges do not overlap, so they fix the unit. */
  function ToExtactTime(ms: real): (d: Duration)
    ensures d.amount * UnitLength(d.unit) == ms
    ensures d.unit == Milliseconds ==> d.amount < 1000.0
    ensures d.unit != Milliseconds ==> 1.0 <= d.amount
    ensures d.unit == Seconds || d.unit == Minutes ==> d.amount < 60.0
  {
    if ms < 1000.0 then Duration(ms, Milliseconds)
    else if ms >= 1000.0 && ms < 60000.0 then Duration(ms / 1000.0, Seconds)
    else if ms >= 60000.0 && ms < 3600000.0 then Duration(ms / 60000.0, Minutes)
    else Duration(ms / 3600000.0, Hours)
  }

  /** The bands, lower bound inclusive and upper bound exclusive: every value falls in exactly
      one, negative values (an interval whose finish is before its start) in milliseconds. */
  lemma ToExtactTimeBands(ms: real)
    ensures ToExtactTime(ms).unit == Milliseconds <==> ms < 1000.0
    ensures ToExtactTime(ms).unit == Seconds <==> 1000.0 <= ms < 60000.0
    ensures ToExtactTime(ms).unit == Minutes <==> 60000.0 <= ms < 3600000.0
    ensures ToExtactTime(ms).unit == Hours <==> 3600000.0 <= ms
  {
  }

  /** A longer duration never gets a smaller unit. */
  lemma ToExtactTimeMonotonic(ms: real, ms': real)
    requires ms <= ms'
    ensures Rank(ToExtactTime(ms).unit) <= Rank(ToExtactTime(ms').unit)
  {
  }

  /** The boundary values of the bands. */
  lemma ToExtactTimeBoundaries()
    ensures ToExtactTime(0.0) == Duration(0.0, Milliseconds)
    ensures ToExtactTime(999.0) == Duration(999.0, Milliseconds)
    ensures ToExtactTime(1000.0) == Duration(1.0, Seconds)
    ensures ToExtactTime(59999.0) == Duration(59.999, Seconds)
    ensures ToExtactTime(60000.0) == Duration(1.0, Minutes)
    ensures ToExtactTime(3599999.0).unit == Minutes
    ensures ToExtactTime(3600000.0) == Duration(1.0, Hours)
    ensures ToExtactTime(-250.0) == Duration(-250.0, Milliseconds)
  {
  }

  /** The text ToExactTimeDefinition returns: the empty string, or a humanized duration. */
  datatype TimeText = EmptyText | DurationText(duration: Duration)

  /** GetShortDateTime: the empty string is returned as it is, without parsing; any other text
      goes through DateTime.Parse (`parse`, None where it throws FormatException) and is shown
      with DateTime.ToString (`show`). */
  function GetShortDateTime(time: string, parse: string -> Option<int>, show: int -> string): (r: Outcome<string>)
    ensures time == "" ==> r == Returns("")
    ensures time != "" ==> (r.Throws? <==> parse(time).None?)
    ensures r.Throws? ==> r.exception == Format
    ensures time != "" && r.Returns? ==> r.value == show(parse(time).value)
  {
    if time == "" then Returns("")
    else match parse(time)
      case None => Throws(Format)
      case Some(t) => Returns(show(t))
  }

  /** ToExactTimeDefinition(duration): the empty string is returned as it is, without parsing;
      any other text goes through TimeSpan.Parse (`parse` gives TotalMilliseconds, or the
      FormatException or OverflowException it throws) and ToExtactTime. */
  function ToExactTimeDefinition(duration: string, parse: string -> Outcome<real>): (r: Outcome<TimeText>)
    ensures duration == "" ==> r == Returns(EmptyText)
    ensures duration != "" ==> (r.Throws? <==> parse(duration).Throws?)
    ensures duration != "" && r.Throws? ==> r.exception == parse(duration).exception
    ensures duration != "" && r.Returns? ==> r.value == DurationText(ToExtactTime(parse(duration).value))
    ensures duration != "" && r.Returns? ==> r.value.duration.amount * UnitLength(r.value.duration.unit) == parse(duration).value
  {
    if duration == "" then Returns(EmptyText)
    else match parse(duration)
      case Throws(e) => Throws(e)
      case Returns(ms) => Returns(DurationText(ToExtactTime(ms)))
  }

  /** DateTime ticks are 100 nanoseconds; TimeSpan.TotalMilliseconds divides by this. */
  const TicksPerMillisecond: real := 10000.0

  /** ToExactTimeDefinition(start, finish): both texts go through DateTime.Parse (`parse` gives
      the ticks, None where it throws FormatException), with no empty-text guard; the difference
      finish - start is humanized. A finish before the start gives a negative amount of
      milliseconds. */
  function ToExactTimeDefinitionOfInterval(start: string, finish: string, parse: string -> Option<int>): (r: Outcome<Duration>)
    ensures r.Throws? <==> parse(start).None? || parse(finish).None?
    ensures r.Throws? ==> r.exception == Format
    ensures r.Returns? ==> r.value == ToExtactTime((parse(finish).value - parse(start).value) as real / TicksPerMillisecond)
    ensures r.Returns? ==> r.value.amount * UnitLength(r.value.unit) == (parse(finish).value - parse(start).value) as real / TicksPerMillisecond
    ensures r.Returns? && parse(finish).value < parse(start).value ==> r.value.unit == Milliseconds && r.value.amount < 0.0
  {
    match parse(finish)
    case None => Throws(Format)
    case Some(f) =>
      match parse(start)
      case None => Throws(Format)
      case Some(s) => Returns(ToExtactTime((f - s) as real / TicksPerMillisecond))
  }

  /** The clean-up ExtractImageUrl applies to the match: Replace("'", ""), then Replace("\"", ""),
      then Replace("\\", "\\\\"). */
  function StripQuotesEscapeBackslashes(m: string): string {
    Replace(Replace(Replace(m, '\'', ""), '"', ""), '\\', "\\\\")
  }

  /** The clean-up leaves no quote character. */
  lemma StripQuotesLeavesNoQuote(m: string)
    ensures '\'' !in StripQuotesEscapeBackslashes(m) && '"' !in StripQuotesEscapeBackslashes(m)
  {
    var noSingle := Replace(m, '\'', "");
    var unquoted := Replace(noSingle, '"', "");
    ReplaceRemoves(m, '\'', "");
    ReplaceKeepsCount(noSingle, '"', "", '\'');
    ReplaceRemoves(noSingle, '"', "");
    ReplaceKeepsCount(unquoted, '\\', "\\\\", '\'');
    ReplaceKeepsCount(unquoted, '\\', "\\\\", '"');
  }

  /** The clean-up drops the quote characters and doubles the backslashes. */
  lemma StripQuotesLength(m: string)
    ensures |StripQuotesEscapeBackslashes(m)| == |m| - Count(m, '\'') - Count(m, '"') + Count(m, '\\')
  {
    var noSingle := Replace(m, '\'', "");
    var unquoted := Replace(noSingle, '"', "");
    ReplaceLength(m, '\'', "");
    ReplaceLength(noSingle, '"', "");
    ReplaceLength(unquoted, '\\', "\\\\");
    ReplaceKeepsCount(m, '\'', "", '"');
    ReplaceKeepsCount(m, '\'', "", '\\');
    ReplaceKeepsCount(noSingle, '"', "", '\\');
    assert Count(m, '\'') * 0 == 0 && Count(noSingle, '"') * 0 == 0;
    assert Count(unquoted, '\\') * 2 == Count(unquoted, '\\') + Count(unquoted, '\\');
  }

  /** Collapsing the backslash pairs of the result gives the match without its quotes. */
  lemma StripQuotesUndo(m: string)
    ensures CollapseBackslashes(StripQuotesEscapeBackslashes(m)) == Replace(Replace(m, '\'', ""), '"', "")
  {
    CollapseDoubled(Replace(Replace(m, '\'', ""), '"', ""));
  }

  /** Every character other than a quote or a backslash occurs as often as in the match. */
  lemma StripQuotesKeepsOthers(m: string, c: char)
    requires c != '\'' && c != '"' && c != '\\'
    ensures Count(StripQuotesEscapeBackslashes(m), c) == Count(m, c)
  {
    ReplaceKeepsCount(m, '\'', "", c);
    ReplaceKeepsCount(Replace(m, '\'', ""), '"', "", c);
    ReplaceKeepsCount(Replace(Replace(m, '\'', ""), '"', ""), '\\', "\\\\", c);
  }

  /** ExtractImageUrl: the first quoted image path in the text, with every quote character of
      the match removed and every backslash doubled; the empty string when there is none. */
  function ExtractImageUrl(text: string): (r: string)
    ensures r == "" <==> NoMatch(text)
    ensures '\'' !in r && '"' !in r
    ensures Match(text).Some? ==> var m := Match(text).value;
      |r| == |m| - Count(m, '\'') - Count(m, '"') + Count(m, '\\')
    ensures Match(text).Some? ==> var m := Match(text).value;
      CollapseBackslashes(r) == Replace(Replace(m, '\'', ""), '"', "")
  {
    match Match(text)
    case None => ""
    case Some(m) =>
      var escaped := StripQuotesEscapeBackslashes(m);
      StripQuotesLeavesNoQuote(m);
      StripQuotesLength(m);
      StripQuotesUndo(m);
      StripQuotesKeepsOthers(m, '.');
      assert m[|m| - 5] in multiset(m);
      assert Count(escaped, '.') == Count(m, '.') > 0;
      escaped
  }

  lemma QuotedPathMatches()
    ensures Match("\"f/b.PNG\"") == Some("\"f/b.PNG\"")
  {
    var t := "\"f/b.PNG\"";
    assert NoWhitespace(t[1..4]);
    assert IsImageExtension(t[5..8]);
    assert ClosesAt(t, 0, 8);
    assert LastClose(t, 0, 9) == Some(8);
    assert FindMatch(t, 0) == Some((0, 8));
    assert t[0..9] == t;
  }

  /** Removing double quotes from text between double quotes leaves the text. */
  lemma DropSurroundingQuotes(u: string)
    requires '"' !in u
    ensures Replace("\"" + u + "\"", '"', "") == u
  {
    var q := "\"";
    assert q + u + q == q + (u + q);
    ReplaceAppend(q, u + q, '"', "");
    ReplaceAppend(u, q, '"', "");
    ReplaceAbsent(u, '"', "");
    assert Replace(q, '"', "") == "";
  }

  /** Text without quotes or backslashes, between double quotes, is cleaned up to itself. */
  lemma StripQuotesAroundPlainText(u: string)
    requires '"' !in u && '\'' !in u && '\\' !in u
    ensures StripQuotesEscapeBackslashes("\"" + u + "\"") == u
  {
    var t := "\"" + u + "\"";
    assert '\'' !in t;
    ReplaceAbsent(t, '\'', "");
    DropSurroundingQuotes(u);
    ReplaceAbsent(u, '\\', "\\\\");
  }

  /** A quoted image path comes back without its quotes, the case of its extension kept. */
  lemma ExtractImageUrlQuotedPath()
    ensures ExtractImageUrl("\"f/b.PNG\"") == "f/b.PNG"
  {
    var t, u := "\"f/b.PNG\"", "f/b.PNG";
    QuotedPathMatches();
    assert forall i :: 0 <= i < |u| ==> u[i] != '"' && u[i] != '\'' && u[i] != '\\';
    assert "\"" + u + "\"" == t;
    StripQuotesAroundPlainText(u);
    assert StripQuotesEscapeBackslashes(t) == u;
  }

  /** Text without any quote character gives the empty string. */
  lemma ExtractImageUrlNoQuote(text: string)
    requires forall i :: 0 <= i < |text| ==> !IsQuote(text[i])
    ensures ExtractImageUrl(text) == ""
  {
  }

  /** An example: a bare file name, not between quotes, is not extracted. */
  lemma ExtractImageUrlUnquotedName()
    ensures ExtractImageUrl("none.png") == ""
  {
    var t := "none.png";
    assert forall i :: 0 <= i < |t| ==> !IsQuote(t[i]);
    ExtractImageUrlNoQuote(t);
  }
}

/** The one regular expression ExtractImageUrl runs,
      ('|")([^\s]+(\.(?i)(jpg|png|gif|bmp)))('|")   with RegexOptions.IgnoreCase,
    written as a scanner over the text. The engine's answer is the leftmost start at which
    some match exists; at that start the greedy [^\s]+ backtracks from the right, so the
    match ends at the largest closing quote that completes the pattern. */
module ImagePattern {
  import opened Outcomes

  predicate IsQuote(c: char) {
    c == '\'' || c == '"'
  }

  /** The .NET class \s: form feed, newline, carriage return, tab, vertical tab, NEXT LINE
      and the Unicode separators (categories Zs, Zl and Zp). */
  predicate IsWhitespace(c: char) {
    || c == ' ' || c == '\t' || c == '\n' || c == '\U{B}' || c == '\U{C}' || c == '\r'
    || c == '\U{85}' || c == '\U{A0}' || c == '\U{1680}'
    || ('\U{2000}' <= c <= '\U{200A}')
    || c == '\U{2028}' || c == '\U{2029}' || c == '\U{202F}' || c == '\U{205F}' || c == '\U{3000}'
  }

  predicate NoWhitespace(s: string) {
    forall k :: 0 <= k < |s| ==> !IsWhitespace(s[k])
  }

  /** ASCII lower-casing, the case-insensitive comparison used for the extension. */
  function Lower(c: char): char {
    if 'A' <= c <= 'Z' then (c as int + 32) as char else c
  }

  /** One of jpg, png, gif, bmp in any mix of cases. */
  predicate IsImageExtension(e: string)
    requires |e| == 3
  {
    [Lower(e[0]), Lower(e[1]), Lower(e[2])] in {"jpg", "png", "gif", "bmp"}
  }

  /** With an opening quote at `i`, index `j` holds a closing quote that completes the
      pattern: at least one non-whitespace character, a dot, an image extension, a quote. */
  predicate ClosesAt(text: string, i: nat, j: nat) {
    && i + 6 <= j < |text|
    && IsQuote(text[j])
    && text[j - 4] == '.'
    && IsImageExtension(text[j - 3..j])
    && NoWhitespace(text[i + 1..j - 4])
  }

  /** A match of the pattern starts at `i`. */
  ghost predicate Opens(text: string, i: nat) {
    i < |text| && IsQuote(text[i]) && exists j :: ClosesAt(text, i, j)
  }

  /** The text holds no match anywhere. */
  ghost predicate NoMatch(text: string) {
    forall i :: 0 <= i < |text| ==> !Opens(text, i)
  }

  /** text[i..j+1] is the match the engine reports: the leftmost start, the longest end. */
  ghost predicate IsRegexMatch(text: string, i: nat, j: nat) {
    && Opens(text, i)
    && ClosesAt(text, i, j)
    && (forall k :: 0 <= k < i ==> !Opens(text, k))
    && (forall k :: j < k ==> !ClosesAt(text, i, k))
  }

  /** The largest closing index below `hi` for an opening quote at `i`. */
  function LastClose(text: string, i: nat, hi: nat): (r: Option<nat>)
    requires hi <= |text|
    ensures r.Some? ==> r.value < hi && ClosesAt(text, i, r.value)
    ensures r.Some? ==> forall k :: r.value < k < hi ==> !ClosesAt(text, i, k)
    ensures r.None? ==> forall k :: 0 <= k < hi ==> !ClosesAt(text, i, k)
    decreases hi
  {
    if hi == 0 then None
    else if ClosesAt(text, i, hi - 1) then Some(hi - 1)
    else LastClose(text, i, hi - 1)
  }

  /** The first match starting at or after `from`, as its start and closing indices. */
  function FindMatch(text: string, from: nat): (r: Option<(nat, nat)>)
    ensures r.Some? ==> from <= r.value.0 && Opens(text, r.value.0) && ClosesAt(text, r.value.0, r.value.1)
    ensures r.Some? ==> forall k :: r.value.1 < k ==> !ClosesAt(text, r.value.0, k)
    ensures r.Some? ==> forall k :: from <= k < r.value.0 ==> !Opens(text, k)
    ensures r.None? ==> forall k :: from <= k ==> !Opens(text, k)
    decreases |text| - from
  {
    if from >= |text| then None
    else if IsQuote(text[from]) then
      match LastClose(text, from, |text|)
      case Some(j) => Some((from, j))
      case None => FindMatch(text, from + 1)
    else FindMatch(text, from + 1)
  }

  /** Regex.Match: the matched text, or None when Match.Success is false. */
  function Match(text: string): (r: Option<string>)
    ensures r.None? <==> NoMatch(text)
    ensures r.Some? ==> var m := r.value; 7 <= |m| && IsQuote(m[0]) && m[|m| - 5] == '.' && IsQuote(m[|m| - 1])
    ensures r.Some? ==> exists i: nat, j: nat :: IsRegexMatch(text, i, j) && r.value == text[i..j + 1]
  {
    match FindMatch(text, 0)
    case None => None
    case Some((i, j)) =>
      assert IsRegexMatch(text, i, j);
      Some(text[i..j + 1])
  }

  /** There is at most one match the engine can report. */
  lemma RegexMatchUnique(text: string, i: nat, j: nat, i': nat, j': nat)
    requires IsRegexMatch(text, i, j) && IsRegexMatch(text, i', j')
    ensures i == i' && j == j'
  {
  }
}

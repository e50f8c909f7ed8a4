# trxer core in Dafny

This project models the logic inside TrxerConsole, the tool that turns a TRX test-result file into a single HTML report. Two parts of `Program.cs` are modelled.

1. **The template helpers** of class `XsltFunctions`. The XSLT report template calls them through an extension object.
   - `RemoveAssemblyName` and `RemoveNamespace` trim assembly-qualified names.
   - `ToExtactTime` chooses a unit for a duration, and the two `ToExactTimeDefinition` overloads feed it.
   - `GetShortDateTime` re-renders a timestamp.
   - `ExtractImageUrl` finds a quoted image path in free text.
2. **The template preprocessing** done by `PrepareXsl`.
   - `MergeCss` replaces every stylesheet `link` element with an inline `style` element, at the same position.
   - `MergeJavaScript` inlines the first `script` element's source.

Modules, one per file:

- `Outcomes` (`outcomes.dfy`): the .NET exceptions the code can raise, as values. `Outcome<T>` is a result or an exception; `Completion` is normal or abrupt termination.
- `Strings` (`strings.dfy`): the `String.IndexOf` and `String.Replace` primitives on `seq<char>`, with their laws.
- `ImagePattern` (`image_pattern.dfy`): the one regular expression of `ExtractImageUrl`, written as a scanner.
  - `Match` reports the match the .NET engine reports: the leftmost start, then the longest end (greedy `[^\s]+` with backtracking).
  - `IsRegexMatch` is a declarative statement of that match, and `Match` is proved to agree with it.
- `XsltFunctions` (`xslt_functions.dfy`): the helper functions, as pure functions with lemmas.
- `TemplatePreprocessor` (`template_preprocessor.dfy`): the template document as class `XslDocument`. Its methods change the document in place.
  - The document is abstracted as its elements in document order. Each element has a tag, attributes, text, and a flag saying whether it is a child of the first `head`. A flag on the document says whether a `head` exists. The head element itself is not one of the modelled elements, so the flag is independent of the tags; the document invariant ties it only to the child-of-head flags.
  - `MergeCss` walks a snapshot of the link positions in a `while` loop, with invariants. It is proved against the specification functions `FirstCssFault`, `InlineStyles` and `LinkFault`.
  - An exception in the middle of the loop leaves the earlier links already replaced, as in the code.

Exceptions are modelled as values, not as preconditions. Callers may pass anything the C# methods accept, and the model states which inputs throw.

### Where the description of the system and the code differ

The model follows the code in each of these cases:

- Only the first `script` element is inlined (`Program.cs:84`). Any other script keeps its `src`.
- `MergeCss` runs before `MergeJavaScript` (`Program.cs:72-73`).
- `MergeCss` collects every `link` in the whole document (`Program.cs:99`), not only those in `head`. A link outside `head` makes `ReplaceChild` throw, modelled as `NotAChild`.
- A missing resource surfaces as `ArgumentNullException`, because `new StreamReader(null)` is called on the missing stream. It does not raise a dedicated "resource not found" error.
- `RemoveNamespace` on a name without a comma is defined, not undefined. `IndexOf` gives -1, so the result is the input minus its first character. It throws only on the empty string and when the first comma is the last character.
- A negative interval (finish before start) is neither clamped nor signed specially. It lands in the millisecond band with a negative amount.
- The millisecond band shows `ms` as a double, not as an integer.

## Model

| member | source | states |
|---|---|---|
| Strings.IndexOf | TrxerConsole/Program.cs:114 | the result is -1 exactly when the character is absent, and otherwise the index of its first occurrence |
| Strings.Replace | TrxerConsole/Program.cs:178 | `String.Replace` with a one-character pattern: each occurrence of the character, scanned left to right, is replaced by the replacement text (its laws are the lemmas below) |
| Strings.ReplaceLength | TrxerConsole/Program.cs:178 | after `Replace(c, t)` the length is the old length, minus the occurrences of `c`, plus `|t|` for each occurrence |
| Strings.ReplaceRemoves | TrxerConsole/Program.cs:178 | no occurrence of the replaced character survives unless the replacement contains it |
| Strings.ReplaceKeepsCount | TrxerConsole/Program.cs:178 | every character that is neither replaced nor in the replacement occurs as often as before |
| Strings.ReplaceAppend | TrxerConsole/Program.cs:178 | `Replace` distributes over concatenation |
| Strings.ReplaceAbsent | TrxerConsole/Program.cs:178 | replacing a character the text does not hold leaves the text unchanged |
| Strings.CollapseDoubled | TrxerConsole/Program.cs:178 | doubling every backslash is undone by collapsing each backslash pair, so the escaping loses nothing |
| ImagePattern.IsWhitespace | TrxerConsole/Program.cs:173 | the .NET class `\s`: form feed, newline, carriage return, tab, vertical tab, NEXT LINE and the Unicode space, line and paragraph separators |
| ImagePattern.IsImageExtension | TrxerConsole/Program.cs:173 | `(?i)(jpg\|png\|gif\|bmp)`: three characters that spell one of the four extensions in any mix of ASCII case |
| ImagePattern.ClosesAt | TrxerConsole/Program.cs:173 | for an opening quote at `i`, index `j` completes the pattern: at least one non-whitespace character, a dot, an image extension, then a quote |
| ImagePattern.LastClose | TrxerConsole/Program.cs:173-174 | finds the largest closing quote below a bound that completes the pattern for a given opening quote, or reports that there is none |
| ImagePattern.FindMatch | TrxerConsole/Program.cs:173-174 | finds the first opening quote at or after `from` that has a completion, paired with its largest completion, or reports that no later index opens a match |
| ImagePattern.Match | TrxerConsole/Program.cs:173-176 | returns no match exactly when no quote opens a match. Otherwise it returns the leftmost-start, longest-end match: at least 7 characters, quote, dot and extension, quote |
| ImagePattern.RegexMatchUnique | TrxerConsole/Program.cs:173-174 | at most one (start, end) pair is the engine's match |
| XsltFunctions.RemoveAssemblyName | TrxerConsole/Program.cs:112-118 | the result is a prefix of the input with no comma, and stops exactly at the first comma if there is one |
| XsltFunctions.RemoveAssemblyNameIdempotent | TrxerConsole/Program.cs:112-118 | applying it twice is the same as applying it once |
| XsltFunctions.RemoveNamespace | TrxerConsole/Program.cs:120-124 | returns exactly when the first comma's index plus 2 is at most the length, and otherwise throws ArgumentOutOfRange. The result is the suffix of length `|asm| - c - 2` |
| XsltFunctions.RemoveNamespaceWithoutComma | TrxerConsole/Program.cs:120-124 | with no comma, it drops only the first character |
| XsltFunctions.RemoveNamespaceThrows | TrxerConsole/Program.cs:120-124 | it throws on the empty string and when the first comma is the last character |
| XsltFunctions.SplitQualifiedName | TrxerConsole/Program.cs:112-124 | on `type, assembly`, RemoveAssemblyName gives the type and RemoveNamespace gives the assembly |
| XsltFunctions.RecomposeQualifiedName | TrxerConsole/Program.cs:112-124 | an accepted name is the RemoveAssemblyName part, the comma, one separator and the RemoveNamespace part, in that order |
| XsltFunctions.ToExtactTime | TrxerConsole/Program.cs:136-148 | the amount times the unit's length is the input. The amount is below 1000 for ms, at least 1 for any other unit, and below 60 for seconds and minutes |
| XsltFunctions.ToExtactTimeBands | TrxerConsole/Program.cs:136-148 | each unit is chosen exactly on its band (ms below 1000, seconds in [1000, 60000), minutes in [60000, 3600000), hours from 3600000), so the bands are disjoint and cover every value |
| XsltFunctions.ToExtactTimeMonotonic | TrxerConsole/Program.cs:136-148 | a longer duration never gets a smaller unit |
| XsltFunctions.ToExtactTimeBoundaries | TrxerConsole/Program.cs:136-148 | the values at the band boundaries, and a negative value, get the expected unit and amount |
| XsltFunctions.GetShortDateTime | TrxerConsole/Program.cs:126-134 | the empty string is returned without parsing. Any other text throws Format exactly when it does not parse, and is otherwise re-rendered |
| XsltFunctions.ToExactTimeDefinition | TrxerConsole/Program.cs:150-158 | the empty string gives the empty text without parsing. Any other text throws exactly when `TimeSpan.Parse` throws, with the same exception (Format or Overflow), and is otherwise `ToExtactTime` of its milliseconds, the same duration in a unit |
| XsltFunctions.ToExactTimeDefinitionOfInterval | TrxerConsole/Program.cs:160-164 | throws Format exactly when either timestamp does not parse, with no empty-text guard. Otherwise it is `ToExtactTime` of finish minus start in milliseconds, and a negative interval gives a negative amount of milliseconds |
| XsltFunctions.StripQuotesEscapeBackslashes | TrxerConsole/Program.cs:178 | the clean-up chain: remove `'`, then remove `"`, then replace each backslash by two (its laws are the four lemmas below) |
| XsltFunctions.StripQuotesLeavesNoQuote | TrxerConsole/Program.cs:178 | the clean-up leaves no `'` and no `"` |
| XsltFunctions.StripQuotesLength | TrxerConsole/Program.cs:178 | the clean-up's length is the match length, minus the quote characters, plus the backslashes |
| XsltFunctions.StripQuotesUndo | TrxerConsole/Program.cs:178 | collapsing the backslash pairs of the clean-up gives the match with its quotes removed |
| XsltFunctions.StripQuotesKeepsOthers | TrxerConsole/Program.cs:178 | every other character occurs as often as in the match |
| XsltFunctions.ExtractImageUrl | TrxerConsole/Program.cs:171-181 | the result is empty exactly when the text has no match, and it never holds a quote character. Its length is the match's minus the quotes plus the backslashes, and collapsing its backslash pairs gives the match without quotes |
| XsltFunctions.QuotedPathMatches | TrxerConsole/Program.cs:173-174 | the match in `"f/b.PNG"` is the whole text |
| XsltFunctions.DropSurroundingQuotes | TrxerConsole/Program.cs:178 | removing double quotes from quoted text without double quotes leaves the text |
| XsltFunctions.StripQuotesAroundPlainText | TrxerConsole/Program.cs:178 | text without quotes or backslashes, between double quotes, is cleaned up to itself |
| XsltFunctions.ExtractImageUrlQuotedPath | TrxerConsole/Program.cs:171-181 | `"f/b.PNG"` gives `f/b.PNG`, with the extension's case kept |
| XsltFunctions.ExtractImageUrlNoQuote | TrxerConsole/Program.cs:171-181 | any text without a quote character gives the empty string |
| XsltFunctions.ExtractImageUrlUnquotedName | TrxerConsole/Program.cs:171-181 | the example `none.png`, a file name not between quotes, gives the empty string |
| TemplatePreprocessor.FirstWithTag | TrxerConsole/Program.cs:84 | `GetElementsByTagName(tag)[0]`: the position of the first element with the tag, or the document length when there is none |
| TemplatePreprocessor.TagPositions | TrxerConsole/Program.cs:99-100 | the snapshot of link positions holds only positions of elements with the tag, in strictly increasing document order |
| TemplatePreprocessor.TagPositionsGap | TrxerConsole/Program.cs:99-100 | the snapshot misses no element with the tag: there is none before the first entry, between two entries or after the last |
| TemplatePreprocessor.LinkFault | TrxerConsole/Program.cs:102-107 | one turn of the loop completes normally exactly when the link has an href naming an existing resource, a head exists, and the link is its child. Otherwise it gives the first failure in evaluation order: no href is NullReference, a missing resource is ArgumentNull, then no head is NullReference, then a link outside head is NotAChild |
| TemplatePreprocessor.StyleFor | TrxerConsole/Program.cs:104-106 | the new `style` element put in the link's place in head: no attributes, the stylesheet named by the href as its text |
| TemplatePreprocessor.FirstCssFault | TrxerConsole/Program.cs:102-107 | gives the first link on which a loop turn throws, with every earlier link getting through |
| TemplatePreprocessor.InlineStyles | TrxerConsole/Program.cs:102-107 | keeps the number of elements and replaces each element position by position with its inlined form |
| TemplatePreprocessor.InlineStylesAt | TrxerConsole/Program.cs:102-107 | after inlining, no link is left. A link at `k` has become a style element with no attributes, holding its stylesheet, and every other element is unchanged |
| TemplatePreprocessor.CssMergedAllLinksResolve | TrxerConsole/Program.cs:95-108 | when every link has its stylesheet and is a child of head, MergeCss completes normally and keeps the element count. Each link becomes its style element at the same position, and nothing else changes |
| TemplatePreprocessor.CssStopsAt | TrxerConsole/Program.cs:102-107 | a loop that stops at the first throwing link, or at the end, has produced exactly the state MergeCss promises |
| TemplatePreprocessor.ReplaceStep | TrxerConsole/Program.cs:104-106 | replacing a link that gets through extends the inlined prefix by one position |
| TemplatePreprocessor.PassGap | TrxerConsole/Program.cs:102 | the non-link elements between two snapshot entries change nothing in what is inlined or what got through |
| TemplatePreprocessor.ScriptFault | TrxerConsole/Program.cs:84-86 | MergeJavaScript completes normally exactly when a script element exists, its src is present, and it names an existing resource |
| TemplatePreprocessor.InlineScript | TrxerConsole/Program.cs:87-88 | the script element keeps its tag and place, loses only its src attribute and keeps the others, and gets the script as its text |
| TemplatePreprocessor.InlineStylesKeepsFirstScript | TrxerConsole/Program.cs:72-73 | inlining stylesheets leaves the first script element where it was and as it was |
| TemplatePreprocessor.ScriptFaultAfterStyles | TrxerConsole/Program.cs:72-73 | MergeJavaScript fails after MergeCss exactly as it would on the original document |
| TemplatePreprocessor.CssSucceeded | TrxerConsole/Program.cs:72-73 | after a normal MergeCss no link is left, and the first script element is unchanged |
| TemplatePreprocessor.InlineScriptKeepsTags | TrxerConsole/Program.cs:87-88 | inlining the script keeps every tag, so the first script stays first |
| TemplatePreprocessor.XslDocument.MergeCss | TrxerConsole/Program.cs:95-108 | the new document is the original with the links before the first throwing one inlined and the rest untouched. The completion is that link's fault, or Normal. The head flag and the document invariant are kept |
| TemplatePreprocessor.XslDocument.MergeJavaScript | TrxerConsole/Program.cs:81-89 | the completion is ScriptFault of the old document. On failure the document is unchanged. On success only the first script element changes, to its inlined form |
| TemplatePreprocessor.XslDocument.PrepareXsl | TrxerConsole/Program.cs:67-75 | completes normally exactly when no link throws and the script inlines. Then the document is the original with every link inlined and the first script element inlined, so no link is left and the first script has no src and holds its script. When a link throws, the document is what MergeCss left. When only the script fails, the document has every link inlined and the completion is the script's fault |

## Left out

- `Main` and `Transform` (`Program.cs:27-61`): console output, file creation and the XSLT engine with its extension-object registration are I/O and a foreign library.
- Template loading in `PrepareXsl` (`Program.cs:69-71`): XML parsing of the embedded template is not modelled. The model starts from an already loaded document.
- `ResourceReader.cs`: manifest resource streams found by reflection. The resources are an abstract map from name to text. The assembly-name prefix added to each resource name is folded into the map's keys.
- The XML tree: elements are a flat sequence with a child-of-head flag. The subtrees of the replaced nodes are not modelled, and neither are nodes other than elements.
- `CurrentDateTime` (`Program.cs:166-169`): it reads the wall clock.
- Console progress lines: the `Console.WriteLine` calls in `PrepareXsl`, `MergeJavaScript` and `MergeCss` (`Program.cs:70, 83, 97`) are output only and are not modelled.
- Character encoding: a .NET string is a sequence of UTF-16 code units, while a Dafny `char` here is a Unicode scalar value. Characters outside the Basic Multilingual Plane count as one character in the model and as two code units in .NET. Every index and length in the model counts scalars.
- RemoveNamespace: the model cuts at scalar positions, so it cannot split a surrogate pair. On `a,😀x` .NET starts the substring at the low surrogate and returns it followed by `x`, where the model returns `x`. On `😀` alone .NET returns the lone low surrogate, where the model returns the empty string.
- GetShortDateTime: `DateTime.Parse` and `DateTime.ToString()` are culture-dependent library code. They are parameters, with None standing for a FormatException.
- ToExactTimeDefinition: `TimeSpan.Parse(...).TotalMilliseconds` is a parameter for the same reason. It gives the milliseconds, or the FormatException or OverflowException that `TimeSpan.Parse` throws.
- ToExactTimeDefinitionOfInterval: `DateTime.Parse` is a parameter giving ticks. DateTime kinds and time zones are not modelled.
- ToExtactTime: the model returns the unit and the exact amount, not the rendered text. Double arithmetic, `TimeSpan.FromMilliseconds` rounding and the `{0:0.00}` and `ms + " ms"` formatting are left out. For example, the model gives 59.999 seconds for 59999 ms, where the code prints "60.00 seconds".
- ImagePattern.Match: the extension is compared with ASCII case folding. The culture-sensitive folding of the .NET engine is not modelled. `\s` is the .NET whitespace class.
- Null strings: the C# methods accept `null`, but strings are values here. The null branch of `string.IsNullOrEmpty` is not modelled.

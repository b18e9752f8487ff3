# HTML code-tag highlighter, modelled in Dafny

The highlighter turns a source file into HTML. Each token a regular-expression rule recognises is
wrapped in a `<span style="color:…">`. It has five parts, all in `colorizer.py`:

- **`html_escape`** escapes `&`, `<`, `>` and backslash. The backslash becomes the unterminated entity `&#39`.
- **`get_colors`** reads the colour table from `name: colour` lines.
- **`get_rules`** reads the ordered rule list from `name: pattern` lines.
- **`colorize_string`** is the engine. A cursor walks the escaped text. At each position the rules
  are tried in order, each as `re.search("^" + pattern, rest)`. The first rule that matches writes
  a span and moves the cursor on. When no rule matches, one character is copied as it is.
- **`parse_command_line`** scans `-f/--file`, `-r/--rules`, `-c/--colors` and `-h/--help`.

Each part is an imperative method, written with the same loop as the source. Its `ensures` ties the
result to a specification function. The lemmas beside it prove the behaviour the program promises.

| module | file | models |
|---|---|---|
| `Wrappers` | `wrappers.dfy` | `Option`, `Result` and `Collect`: a loop that stops at the first exception |
| `SeqFacts` | `seq_facts.dfy` | generic facts about slices and concatenation |
| `PyStr` | `pystr.dfy` | the Python `str` built-ins the program calls: `replace`, `split`, `split(sep, 1)`, `strip` |
| `Escaper` | `escaper.dfy` | `html_escape` |
| `ColorTable` | `color_table.dfy` | `get_colors` |
| `RuleStore` | `rule_store.dfy` | `get_rules` |
| `Colorizer` | `colorizer.dfy` | `colorize_string` |
| `CommandLine` | `command_line.dfy` | `parse_command_line` |

An exception the source raises becomes a value:

- `ValueError` from unpacking a line becomes `Failure(UnpackError(…))`.
- In the engine, `re.error`, `KeyError` and `TypeError` become `Error(PatternFault(…))`,
  `Error(MissingColor(…))` and `Error(NoneGroupFault)`.
- `IndexError` in the flag scanner becomes `IndexError`.

The engine loops forever when a match of a rule that has a colour reports an empty text: the cursor
does not move, and the same search is repeated. The model returns `Diverges` for that case instead.
A rule without a colour raises `KeyError` first, since the colour is looked up before the cursor moves.

The regular-expression engine is a parameter of the model: `search: (pattern, subject) -> SearchResult`.
A match exposes `group()`, `lastindex` and `group(1)`. Nothing is assumed about the matcher except
where a lemma says so. `Anchored` is the assumption that the match is a prefix of the subject and
group 1 is a prefix of the match. `^` alone does not guarantee it: with `a|b`, the searched pattern
is `^a|b`, which finds `b` anywhere. `Progressing` is the assumption that no match reports an empty text.

The engine is specified in two layers:

- `Tokenize` cuts the input into pieces. A piece is a copied character, or a token with its rule's
  name and text. It also says how the scan ends. It never looks at colours.
- `Paint` looks each token's colour up, in the source's order, and writes the spans. A rule whose
  name has no colour raises at its first match, not before. The colour is looked up before
  `len(group(1))` is evaluated, so a missing colour wins over the `None` group.

A pattern with a single group, such as `\[(\w+)\]` on `[x]y`, is not narrowed. Its match has
`lastindex == 1`, so the whole match `[x]` is written and the cursor moves past it
(`Colorizer.SingleGroupWritesWholeMatch`).

When a match is narrowed (`lastindex > 1`), the cursor moves by `len(group(1))` from where it
stands. For a match that starts at the cursor, the scan therefore resumes inside the match when
group 1 is shorter than the match (`Colorizer.NarrowedMatchRescansFromGroupLength`). The model keeps this behaviour as written.

`re.search` only finds matches inside `input[index:]`. `Within` states the length bound that
follows from it, and under it the cursor never passes the end of the input (`Colorizer.CursorStaysWithin`).

## Model

| member | source | states |
|---|---|---|
| PyStr.Replace | colorizer.py:27 | `replace` with a one-character target: the result keeps every other character and introduces only characters of the replacement; the target is gone unless the replacement holds it |
| PyStr.Split | colorizer.py:43 | `split(":")` gives one more part than there are colons; no part holds a colon; joining the parts with the separator gives the line back |
| PyStr.SplitOnce | colorizer.py:61 | `split(":", 1)` gives two parts exactly when the line holds a colon; the first part has none; joining gives the line back |
| PyStr.SplitJoin | colorizer.py:43 | splitting undoes joining parts that hold no separator |
| PyStr.SplitOnceAt | colorizer.py:61 | `split(sep, 1)` on `a + sep + b`, where `a` has no separator, is `[a, b]`: later separators stay in `b` |
| PyStr.Strip | colorizer.py:60-62 | `strip()` is the slice that starts after the leading whitespace and leaves only whitespace behind it; it neither starts nor ends with whitespace |
| PyStr.ReplaceConcat | colorizer.py:27-29 | `replace` acts on each part of a concatenation separately |
| Escaper.HtmlEscape | colorizer.py:25-30 | `html_escape`, written as the source's chain of `replace` calls, returns the per-character escape `Escape` of its input |
| Escaper.ChainIsCharacterMap | colorizer.py:26-29 | replacing `&` first and then `<`, `>`, backslash equals mapping each character to its entity independently |
| Escaper.StageCharStep | colorizer.py:26-29 | no entity inserted by an earlier step holds the target of a later step, so each step only touches original characters |
| Escaper.EscapeConcat | colorizer.py:25-30 | escaping distributes over concatenation |
| Escaper.EscapeRemovesSpecials | colorizer.py:25-30 | the escaped text contains no `<`, `>` or backslash |
| Escaper.EscapedAmpersandStartsEntity | colorizer.py:27 | every `&` in the escaped text begins one of the four entities |
| Escaper.EscapeRoundTrip | colorizer.py:25-30 | the escape is lossless: `Unescape(Escape(s)) == s` |
| Escaper.EscapeExample | colorizer.py:26-29 | `<&\` escapes to `&lt;&amp;&#39`, with no `;` after `&#39` |
| ColorTable.GetColors | colorizer.py:39-45 | `get_colors`, looping over the lines into a map, returns `ParseColors` of its lines |
| ColorTable.CleanColorLineDeletes | colorizer.py:42 | cleaning equals the reference `DeleteBlanks`: it removes exactly the spaces and newlines and keeps every other character in order and multiplicity, tabs and carriage returns included |
| ColorTable.ColorEntrySplitsAtTheColon | colorizer.py:42-44 | a line gives a pair exactly when it holds one colon after cleaning; the pair is the text on each side; otherwise the error records how many parts the split gave |
| ColorTable.ParseColorsSucceeds | colorizer.py:41-44 | the table is built exactly when every line gives a pair |
| ColorTable.ParseColorsConcat | colorizer.py:41-44 | reading `a + b` reads `a`, then continues into the table obtained |
| ColorTable.FirstMalformedLineFails | colorizer.py:43 | the error raised is that of the first malformed line, whatever follows |
| ColorTable.ParseColorsLastWins | colorizer.py:44 | each name maps to the colour of the last line naming it, else keeps its earlier value |
| ColorTable.ColorTableIsLastEntry | colorizer.py:39-45 | in a table read from scratch, each name maps to the colour of the last line naming it (the reference `LastColor`); names no line gives are absent |
| ColorTable.ColorEntryOf | colorizer.py:42-44 | a line that cleans to `name:colour`, with no other colon, gives exactly that pair |
| ColorTable.ColorEntryExample | colorizer.py:42-44 | `"a : 1"` gives the pair `("a", "1")` |
| RuleStore.GetRules | colorizer.py:57-63 | `get_rules`, appending one rule per line, returns `ParseRules` of its lines |
| RuleStore.RuleEntrySplitsAtFirstColon | colorizer.py:60-62 | a line gives a rule exactly when it holds a colon after cleaning; the name is the unstripped text before the first colon; the pattern is the rest, stripped, further colons kept; otherwise it is the unpacking error of that line |
| RuleStore.OneRulePerLine | colorizer.py:58-63 | parsing succeeds with `rules` exactly when there is one rule per line, in line order, each the one its line gives |
| RuleStore.FirstMalformedRuleFails | colorizer.py:61 | when line `i` is the first without a colon, parsing fails with that line's error |
| Colorizer.FindRule | colorizer.py:79-89 | the inner loop over the rules returns the first rule whose search does not report "no match", with its match, or the `re.error` of the first bad pattern reached |
| Colorizer.ColorizeString | colorizer.py:74-94 | `colorize_string`, with its cursor loop, returns `Colorize` of its arguments: the HTML, the exception raised, or `Diverges` where the source loops forever |
| Colorizer.RoundAt | colorizer.py:77-93 | every round that does not end the scan moves the cursor strictly forward |
| Colorizer.StepPlain | colorizer.py:91-93 | when no rule matches, the character under the cursor is written and the scan resumes one position on |
| Colorizer.StepToken | colorizer.py:82-87 | when a rule matches with a non-empty text and a colour, its span is written and the scan resumes after the text |
| Colorizer.StepHalts | colorizer.py:80-87 | a bad pattern raises `re.error`; a matched rule without a colour raises `KeyError`; a narrowed match whose group 1 took no part raises `TypeError`; an empty text loops forever |
| Colorizer.NoRuleIffNoMatch | colorizer.py:79-93 | a character is copied exactly when every rule's search reports no match |
| Colorizer.FirstMatchPriority | colorizer.py:79-89 | when every earlier rule reports no match, rule `j` decides: its match is chosen, its bad pattern raises, or the later rules are tried |
| Colorizer.ChosenRuleMatched | colorizer.py:80-81 | a chosen rule is one of the rules, and its search of the anchored pattern found that match |
| Colorizer.PaintColored | colorizer.py:83-86 | when every token has a colour, the output is the rendered pieces followed by how the scan ends |
| Colorizer.PaintFirstMissing | colorizer.py:83-86 | the `KeyError` names the first token whose rule has no colour |
| Colorizer.PaintHtml | colorizer.py:74-94 | the result is HTML exactly when the scan finishes and every token has a colour; the HTML is the rendered pieces |
| Colorizer.PaintReadsOnlyUsedColors | colorizer.py:83-86 | two colour tables that agree on the names the scan uses give the same result |
| Colorizer.PaintDiverges | colorizer.py:84-87 | the call loops forever exactly when the scan stalls on a coloured rule and every earlier token has a colour |
| Colorizer.UnmatchedTextIsCopied | colorizer.py:91-93 | where no rule matches anywhere from the cursor on, the rest of the input is copied as it is |
| Colorizer.NoRulesCopyInput | colorizer.py:77-93 | with no rules, the output equals the input |
| Colorizer.RoundReadsInput | colorizer.py:80-87 | with an anchored matcher, each round's piece is the input text from the cursor to the next position |
| Colorizer.Reconstruction | colorizer.py:77-93 | with an anchored matcher the cursor never passes the end of the input, and the pieces' texts are the input from the cursor on |
| Colorizer.RoundStaysWithin | colorizer.py:82-93 | every round moves the cursor by the length of the text its piece holds; with a matcher that keeps its matches within the subject, the cursor stays within the input |
| Colorizer.CursorStaysWithin | colorizer.py:77-93 | with a matcher that keeps its matches within the subject, anchored or not, the cursor never passes the end of the input |
| Colorizer.ProgressNeverStalls | colorizer.py:84-87 | a matcher that never reports an empty text never makes the scan stall |
| Colorizer.NamesAreChosenRules | colorizer.py:80-86 | every rule name the scan uses is the name of a rule chosen at some position |
| Colorizer.ColorsOfUnchosenRulesIgnored | colorizer.py:83-86 | colours of rules never chosen do not affect the result; a rule with no colour fails only once it matches |
| Colorizer.ColorizeHtml | colorizer.py:74-94 | the call returns HTML exactly when the scan finishes with every token coloured; the HTML renders the pieces, whose texts, for an anchored matcher, make up the input |
| Colorizer.ColorizeDiverges | colorizer.py:77-93 | the call loops forever exactly when the scan stalls on a coloured rule after coloured tokens; a matcher that never reports an empty text rules it out |
| Colorizer.PriorityExample | colorizer.py:79-89 | of two rules matching `if`, the first listed colours it |
| Colorizer.SingleGroupWritesWholeMatch | colorizer.py:82-87 | a match with `lastindex` 1 writes its whole match, not its group |
| Colorizer.NarrowedMatchRescansFromGroupLength | colorizer.py:82-84 | a narrowed match on `[x]` writes `x`, then moves by one character only, so `x]` is scanned again |
| CommandLine.ParseCommandLine | colorizer.py:111-131 | `parse_command_line`, with its cursor loop, returns `ParseFlags` of the argument list |
| CommandLine.ScanWords | colorizer.py:116-130 | scanning well-formed items, then anything else, scans the rest with each setting overwritten by the last value the items give it |
| CommandLine.LastFlagWins | colorizer.py:112-131 | without help flags, each file name is the value of the last flag naming it, or `""` when none does |
| CommandLine.TrailingFlagRaises | colorizer.py:118-126 | a value flag that is the last argument, reached in flag position, raises `IndexError` |
| CommandLine.HelpStopsTheScan | colorizer.py:127-128 | a help flag reached in flag position ends the scan with the usage outcome, whatever follows |
| CommandLine.HelpAsValueExample | colorizer.py:116-130 | the program name is skipped, and `-h` after `-f` is taken as a file name |

## Left out

- The `__main__` block (colorizer.py:134-141) is not modelled. It reads the files, prints, and wraps the output in `<pre><code>`. The `sys.argv` check there is not modelled either.
- `print_usage_and_exit` (colorizer.py:97-108) prints and exits the process. It appears only as the `Help` outcome of the flag scanner.
- The regular-expression engine is a parameter, not a model: `re.search`, `group()`, `group(1)` and `lastindex`. Its matching cost, catastrophic backtracking included, is not modelled.
- Colorizer.ColorizeString: does not run forever where the source does. It returns `Diverges` as soon as a chosen match of a rule that has a colour reports an empty text (a rule without a colour raises `KeyError` first). The source would then repeat the same search at the same cursor forever.
- Colorizer.ColorizeString: when group 1 is `None`, the source formats `"None"` into its buffer before `len(None)` raises. That buffer is discarded together with the exception, so the model returns only the error.
- Colorizer.ColorizeString: the inner loop over the rules is a separate method, `Colorizer.FindRule`. The `found` flag and `break` become its returned choice.
- CommandLine.ParseCommandLine: `IndexError` carries no index or message, because the source raises the bare `list index out of range`.
- Python exceptions are results, not control flow. The model does not follow one past the function that raises it.

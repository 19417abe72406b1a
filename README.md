# VibeScript playground core, in Dafny

This project models the playground in `script.js` that takes a program in the
toy keyword language VibeScript and does two things with it:

- **Transpiling.** `transpileVibeScript` turns the program into Python-looking
  text for display. It splits the source on `'\n'` and trims each line. Each line
  is classified by an ordered `startsWith` dispatch and rewritten by a fixed
  table. An indentation depth (`indentLevel`) rises after `sus check` and
  `vibe until`. It falls, floored at zero, on `end sus`/`end vibe` and around
  `plot twist`. Every emitted line is prefixed with four spaces per level.
- **Simulating a run.** `executeCode` simulates a run without evaluating
  anything. Each `spill`, `skibidi spill` or `rizzmode spill` line contributes
  the first quoted literal it holds. The literal is found with the regular
  expression `/["'](.*?)["']/`, escaped with `sanitizeHTML`, and wrapped as a
  plain, glowing or bold output record. A run without records shows one
  sentinel record. Whitespace-only input shows a placeholder and runs nothing.

It also models the example button, which loads three built-in programs in turn.
A counter advances modulo three.

Modules:

- `Wrappers`: the `Option` type.
- `JsString`: the JavaScript string built-ins the code relies on. These are
  `trim`, `split` on one character, `join`, `replace` with a string pattern
  (first occurrence only), `repeat`, and `replace(/\bword\b/g, …)`.
- `Html`: the escaping contract of `sanitizeHTML`. Text-node serialisation
  follows the HTML Living Standard, section 13.3, "escaping a string".
  - It writes `&`, `<`, `>` and U+00A0 as `&amp;`, `&lt;`, `&gt;`, `&nbsp;`.
  - It has an `Unescape` partner that reads the text back.
- `Transpiler`: line categories, the ordered dispatch, and the rewrite table.
  - The depth state machine, and the whole-program specification `Emit`/`DepthAfter`.
  - The imperative `Transpile` loop, proved against that specification.
- `Simulator`: the quote regular expression, output records, and their
  specification `Records`.
  - The imperative `Simulate` loop and the `Execute` run action.
  - The HTML each record is rendered as.
- `Examples`: the three example programs and the `Rotation` class that holds
  the counter.

## Behaviour worth knowing

The model follows the code exactly, including these points:

- **End markers.** Lines starting with `end sus`/`end vibe` produce no output
  line (script.js:292-295). The output therefore does not map input lines one
  to one. `EmitLength` states the count exactly.
- **Compound assignments.** They split on single spaces, not on whitespace
  (script.js:339). Extra tokens are ignored. A missing second token prints
  `undefined` (`CompoundTwoTokens`, `CompoundOneToken`).
- **Dispatch order.** The code tests `spill ` before `skibidi spill `, and
  `braincell ` before the print statements. `ClassifySpec` proves the order
  does not matter: no two keyword phrases can both start one trimmed line.
- **What the simulator matches.** It runs its own `startsWith` tests and
  matches the quote regular expression on the whole trimmed line, not on the
  keyword's residual. `PrintStyleAgrees` shows its tests pick out exactly the
  transpiler's print categories. No print keyword holds a quote, so searching
  the whole line finds the literal of the text after the keyword
  (`KeywordQuoted`).

## Model

| member | source | states |
|---|---|---|
| JsString.TrimSpec | script.js:284 | `trim` yields a slice of the line with only whitespace around it, and the slice neither starts nor ends with whitespace |
| JsString.TrimIndented | script.js:284 | whitespace before and after unpadded text is removed entirely, leaving exactly that text |
| JsString.TrimUnpadded | script.js:284 | text that neither starts nor ends with whitespace is its own trim |
| JsString.TrimEmptyIff | script.js:368 | `!code.trim()` holds exactly when every character of the code is whitespace |
| JsString.LeadingSpaces | script.js:284 | the count of leading whitespace: all counted characters are whitespace and the next one is not |
| JsString.TrailingSpaces | script.js:284 | the count of trailing whitespace: all counted characters are whitespace and the one before is not |
| JsString.Split | script.js:279 | `split('\n')` yields at least one piece; no piece holds the separator; there is one piece more than separators |
| JsString.JoinSplit | script.js:279 | joining the pieces of `split(sep)` with `sep` gives back the text |
| JsString.SplitJoin | script.js:339 | splitting the join of separator-free pieces gives back the pieces |
| JsString.SplitCons | script.js:339 | a separator-free prefix followed by the separator splits off as the first piece |
| JsString.SplitNone | script.js:339 | text without the separator is a single piece |
| JsString.IndexOf | script.js:301 | the result is the least position where the pattern occurs, or none when it occurs nowhere |
| JsString.ReplaceFirst | script.js:301 | `replace` with a string pattern removes the occurrence at the front when the text starts with the pattern, and leaves text without one unchanged |
| JsString.Repeat | script.js:297 | `repeat(n)` has `n` times the length and only characters of the repeated text |
| JsString.ReplaceWordAbsent | script.js:356 | `replace(/\bword\b/g, …)` leaves text in which the word never occurs unchanged |
| JsString.ReplaceWordSkip | script.js:356 | text in which no whole-word occurrence of the word starts is copied, and the scan goes on after it in the state its last character leaves |
| JsString.ReplaceWordAround | script.js:356 | the text before the first occurrence is copied, and the scan resumes there as after a non-word character |
| JsString.ReplaceWordFront | script.js:356 | a whole word at the front with no later occurrence is replaced, and the rest is kept |
| JsString.ReplaceWordOnce | script.js:356 | a single whole-word occurrence is replaced and the text around it is kept |
| JsString.ReplaceWordKept | script.js:356 | an occurrence with a word character right before or right after it is not a whole word and is kept |
| JsString.ReplaceWordInside | script.js:356 | behind a word character, the rest of a token of word characters is copied |
| JsString.ReplaceWordToken | script.js:356 | a token of word characters standing alone is replaced exactly when it is the word itself |
| JsString.ReplaceWordSplit | script.js:356 | at a non-word character the replacement splits: both sides are replaced independently, the right side as at the start of the text |
| Html.EscapeChar | script.js:3-7 | a character is serialised as itself exactly when it is not `&`, `<`, `>` or U+00A0 |
| Html.Escape | script.js:3-7 | the escaped text is at least as long and holds no raw `<`, `>` or U+00A0 |
| Html.UnescapeChar | script.js:3-7 | each serialised character reads back as itself, whatever follows it |
| Html.UnescapeEscape | script.js:3-7 | escaping loses nothing: reading the escaped text back yields the original |
| Html.EscapePlain | script.js:3-7 | text without markup-significant characters is left unchanged |
| Transpiler.ClassifySpec | script.js:286-358 | each category holds exactly when its own test does: blank or `#`, an `end sus`/`end vibe` prefix, the exact line `plot twist`, and for every keyword category its keyword phrase as a prefix |
| Transpiler.Arg | script.js:301 | removing the keyword with `replace` leaves the text after the keyword |
| Transpiler.RewriteTable | script.js:300-353 | the rewrite table: a declaration keeps its argument, and print, glow print, bold print, `if`, `else:`, `while` and compound assignments are built from the text after the keyword |
| Transpiler.RewriteCompound | script.js:338-352 | a `sum`/`sub`/`mul`/`div` line is built from the text after its keyword, with its own operator |
| Transpiler.RewriteFallbackPlain | script.js:354-357 | a fallback line without `yeah` or `nah` is copied unchanged |
| Transpiler.RewriteFallbackYeah | script.js:354-357 | a fallback line with one whole-word `yeah` and no `nah` has exactly that word turned into `True` |
| Transpiler.RewriteFallbackNah | script.js:354-357 | a fallback line with one whole-word `nah` and no `yeah` has exactly that word turned into `False` |
| Transpiler.BooleansToken | script.js:356 | a token of word characters becomes `True` if it is `yeah`, `False` if it is `nah`, and is kept otherwise (`yeahs`, `nahum`) |
| Transpiler.BooleansSplit | script.js:356 | the boolean rewrite splits at every non-word character, so every whole-word `yeah` and `nah` of a line is replaced, however many there are |
| Transpiler.CompoundTwoTokens | script.js:338-352 | `sum a b …` becomes `a += b`, ignoring whatever follows a further space |
| Transpiler.CompoundOneToken | script.js:338-352 | `sum a` without a second token becomes `a += undefined` |
| Transpiler.Indent | script.js:297 | the indentation is exactly four spaces per level |
| Transpiler.EmitDepth | script.js:326-327 | `plot twist` is emitted one level up, and at level zero when no block is open; every other line at the current depth |
| Transpiler.NextDepth | script.js:292-336 | the depth is never negative: an end marker lowers it floored at zero; `sus check`/`vibe until` raise it by one; `plot twist` leaves it unchanged inside a block and at one outside any block; every other line leaves it unchanged |
| Transpiler.LineOut | script.js:286-357 | an end marker yields no output line and every other line exactly one; a blank or comment line yields the untrimmed line |
| Transpiler.KeywordLine | script.js:284-353 | a keyword line with whitespace around it trims to the keyword and its argument, is classified by its keyword, and its argument follows the keyword |
| Transpiler.LineOutKeyword | script.js:297-353 | a keyword line's source indentation and trailing whitespace are replaced by four spaces per current level followed by the rewrite, and its depth step is that of its category |
| Transpiler.LineOutFallback | script.js:284-357 | a line no keyword claims is emitted at the current depth with its boolean words replaced, and leaves the depth unchanged |
| Transpiler.LineOutElse | script.js:324-330 | `plot twist` emits `else:` at one level up (floored at zero) and leaves the depth one level below where it emitted |
| Transpiler.DepthAfter | script.js:281-359 | `indentLevel` is never negative after any sequence of lines |
| Transpiler.EmitAppend | script.js:283-359 | the pass is compositional: the output of `a + b` is that of `a` followed by that of `b` started at the depth `a` leaves |
| Transpiler.EmitSnoc | script.js:283-359 | appending a line appends its own output and applies its own depth step |
| Transpiler.EmitPrefix | script.js:283-359 | one more line of a prefix appends its output at the depth the prefix leaves |
| Transpiler.EmitLength | script.js:283-295 | the number of output lines is the number of input lines minus the end markers |
| Transpiler.EmitAt | script.js:283-359 | line `i` contributes its own output in input order, at the depth the lines before it leave |
| Transpiler.Opener | script.js:319-336 | a `sus check`/`vibe until` line is emitted at depth `d` and what follows it one level deeper |
| Transpiler.Block | script.js:319-336 | a `sus check`/`vibe until` block whose body is balanced emits its opener at depth `d` and its body one level deeper, drops the end marker, and returns to depth `d` |
| Transpiler.IfHead | script.js:319-330 | `sus check`, a balanced body and `plot twist`: `else:` sits at the depth of the `if`, and the depth is one level deeper after it |
| Transpiler.IfElseBlock | script.js:319-330 | an if/else block emits `else:` at the depth of the `if` and both bodies one level deeper, and returns to depth `d` |
| Transpiler.Transpile | script.js:278-362 | the imperative pass returns the specified output lines joined with `'\n'`, keeping `indentLevel` non-negative and equal to the specified depth throughout |
| Simulator.QuotePairUnique | script.js:414 | an opening quote has at most one matching closing quote |
| Simulator.CloseQuoteSpec | script.js:414 | the lazy `.*?` stops at the first quote, and fails at a line terminator or at the end of the text |
| Simulator.FindQuotePairSpec | script.js:414 | the match is the leftmost opening quote that has a closing quote |
| Simulator.FirstQuoted | script.js:414 | there is no literal exactly when the regular expression has no match; a literal holds no quote and no line terminator |
| Simulator.QuotedLiteral | script.js:414 | after quote-free text, the text between two quotes is the literal extracted, whatever follows |
| Simulator.NoQuoteNoLiteral | script.js:414 | text without any quote yields no literal |
| Simulator.CloseQuoteShift | script.js:414 | behind a prefix, the closing quote found is the same one, shifted by the prefix's length |
| Simulator.FindQuotePairShift | script.js:414 | behind a prefix, the match found is the same one, shifted by the prefix's length |
| Simulator.FindQuotePairQuoteFree | script.js:414 | no match starts inside quote-free text |
| Simulator.QuoteFreePrefix | script.js:414 | quote-free text in front does not change the literal extracted |
| Simulator.KeywordQuoted | script.js:413-425 | a print line's literal is that of the text after its keyword, since no print keyword holds a quote |
| Simulator.PrintStyleAgrees | script.js:413-430 | the simulator's print tests pick out exactly the transpiler's plain, glow and bold print categories |
| Simulator.LineRecords | script.js:413-430 | a line yields at most one record: exactly when it is a print line with a quoted literal, in the style of its print statement |
| Simulator.LinePayload | script.js:416-428 | a record's payload reads back as the quoted literal and holds no raw `<` or `>` |
| Simulator.RecordsOnlyFromPrints | script.js:413-430 | only lines classified as print statements produce records |
| Simulator.Records | script.js:410-431 | there are no more records than lines, and every one is a printed literal |
| Simulator.RecordsAppend | script.js:410-431 | records follow source-line order |
| Simulator.RecordsPrefix | script.js:410-431 | one more line appends that line's records |
| Simulator.Shown | script.js:433-435 | at least one record is shown: the records, or exactly the sentinel when there are none |
| Simulator.SpillLine | script.js:413-414 | an indented `spill "lit"` trims to itself, is a plain print, and quotes `lit` |
| Simulator.SpillLiteral | script.js:413-417 | `spill "lit"` with either quote kind, indented or not, prints `lit` escaped |
| Simulator.UnquotedArgument | script.js:413-417 | a print line whose argument holds no quote prints nothing |
| Simulator.ApostropheClosesLiteral | script.js:414 | `spill "it's"` prints only `it`, because any quote closes the literal |
| Simulator.Simulate | script.js:407-435 | the simulation loop yields the specified records in order, or the sentinel alone |
| Simulator.Execute | script.js:365-435 | whitespace-only input yields the placeholder; any other input yields the records shown for its lines, at least one |
| Examples.Next | script.js:506 | the counter moves to the next example and wraps from the last to the first |
| Examples.After | script.js:506 | the counter stays within the examples after any number of loads |
| Examples.AfterLoads | script.js:506 | `k` loads move the counter `k` places modulo the number of examples |
| Examples.FullRound | script.js:506 | three loads bring the counter back where it was |
| Examples.LoadedInTurn | script.js:501-506 | from a fresh page, load number `k` shows example `k mod 3` |
| Examples.Rotation.constructor | script.js:501 | the counter starts at the first example |
| Examples.Rotation.Load | script.js:505-506 | a click loads the example at the counter and moves the counter to the next one, keeping it in range |

## Left out

- Everything outside the core is not part of this model. That covers the cursor
  follower, the particle background, `throttle`, the code-morph animation, the
  clear button, smooth scrolling, ripples and console banners. These are DOM
  events, canvas drawing, timers, randomness and floating point.
- Execute: the `anime(...)` calls, the button label swaps, the 800 ms
  `setTimeout` deferral and the `try`/`catch` error display around the run are
  not modelled. The run is one synchronous step. The race between overlapping
  runs, where the last one to finish wins, is a concurrency matter and is left
  out too.
- Execute: the transpiled text is computed as the code does, then discarded. The
  code never displays it.
- Html.Escape: the DOM round trip of `sanitizeHTML` (a detached element's
  `textContent` and `innerHTML`) is modelled by its escaping contract only.
- Simulator.Display: the markup written into the output panel is modelled as a
  function without a stated contract. The properties are stated on the records
  it renders.
- Strings are sequences of Unicode code points, while JavaScript strings are
  UTF-16 code units. Surrogate halves are never whitespace, quotes, word
  characters or separators, so `trim`, `split`, `\b` and the quote search find
  the same positions either way.
- JsString.ReplaceWordFrom: `replace(/\bword\b/g, …)` is modelled for words
  that start and end with a word character, the only kind the code uses
  (`yeah`, `nah`). For other patterns `\b` would mean something else.

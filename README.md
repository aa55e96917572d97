# Workshop scripts: Fibonacci table, polynomial evaluation, column-word extraction

This project models, in Dafny, the exact sequential logic of three short
workshop scripts, and proves what that logic computes.

- `fib.dfy`, module `Fib`: `fib(n)` from `workshop07/fib.py`. It allocates
  a table of `n + 2` cells set to NaN, sets the first two cells to 1, fills
  every later cell with the sum of the two before it, and returns the last
  cell. The model keeps the array and the loop. NaN is the `Unset` cell.
  Python's exceptions become `Err` values:
  - `n <= -3` asks for a table of negative size;
  - `n == -2` writes `f[0]` into an empty table;
  - `n == -1` writes `f[1]` into a one-cell table, after `f[0]` is set, because
    the chained assignment `f[0] = f[1] = 1` assigns from left to right.
- `interpolate.dfy`, module `Interpolate`: the evaluation loop of
  `interpolate_polynomial` in `workshop07/interpolate.py`. The docstring
  promises `p[0] + p[1]*x + p[2]*x^2 + ...` at every sample point. The loop
  writes `y =+ p_i * x**power`, which Python reads as `y = +(p_i * x**power)`.
  Every coefficient therefore replaces `y` with its own term. Both the loop as
  written and the intended running sum are modelled, over exact reals, with
  one output value per sample point.
- `get_words.dfy`, module `GetWords`: `load_file` and `get_words` from
  `workshop10/get_words.py`.
  - `load_file` concatenates the lines of a file. Each line loses its trailing
    whitespace, and nothing is put between lines. The lines are passed in as a
    sequence of strings, the way iterating over the file yields them.
  - `get_words` returns what `re.findall` returns for the pattern
    `word_freq_([a-z]*):`. That is one captured group per match, scanning left
    to right and resuming after each match. The model is a scanner for this
    one pattern. The greedy `[a-z]*` must be followed by `:`. So a match at
    position i means two things: `word_freq_` starts at i, and the longest
    run of lower-case letters after it is followed by `:`.

Where the code and its descriptions differ, the model follows the code:

- The docstring at `workshop07/fib.py:5` promises the n'th Fibonacci number,
  and the comment at `workshop07/fib.py:16` expects 55 for `fib(10)`. The
  recurrence seeded with 1, 1 would then also give 1 for `fib(1)`. The code
  returns cell `n + 1` of the table, which is the standard F(n + 2). So `fib(10)` is 144,
  `fib(1)` is 2 and `fib(0)` is 1 (`Fib.FibValues`, `Fib.FibIsFibonacciPlusTwo`).
- The evaluation loop (workshop07/interpolate.py:20-24) accepts an empty
  list of sample points and an empty list of coefficients. With no
  coefficients, `y` stays the zeros it started as. With no sample points, `y`
  is empty. `interpolate_polynomial` as a whole still fails on an empty `x`:
  the `interp1d` call that follows (line 27) rejects it. That call is not
  part of this model.

## Model

| member | source | states |
|---|---|---|
| `Fib.Fib` | workshop07/fib.py:3-14 | for n >= 0 the table has n + 2 cells, cell k holds the k-th number of the 1, 1, 2, 3, ... recurrence, and the result is the last cell, Table(n + 1); n = -1 raises at index 1 with [1] written, n = -2 raises at index 0, n <= -3 fails on the negative size |
| `Fib.TableIsShiftedFibonacci` | workshop07/fib.py:9-13 | cell i of the table is the standard Fibonacci number F(i + 1), with F(0) = 0 and F(1) = 1 |
| `Fib.FibIsFibonacciPlusTwo` | workshop07/fib.py:7-14 | fib(n), cell n + 1, is F(n + 2) |
| `Fib.FibValues` | workshop07/fib.py:7-16 | fib(0) = 1, fib(1) = 2 and fib(10) = 144, while the tenth Fibonacci number the comment expects is 55 |
| `Fib.FibIntended` | workshop07/fib.py:5-16 | with `f[n - 1]` returned instead of `f[-1]`, the result for n >= 1 is the n'th Fibonacci number F(n) that the docstring promises, and 1 for n = 0 |
| `Fib.FibIntendedValues` | workshop07/fib.py:5-16 | the corrected function gives 1, 1 and 55 for n = 0, 1 and 10 |
| `Fib.TablePositive` | workshop07/fib.py:9-13 | every cell of the table is at least 1 |
| `Fib.TableMonotone` | workshop07/fib.py:9-13 | the cells never decrease: i <= j implies 1 <= Table(i) <= Table(j), so fib is positive and non-decreasing in n |
| `Interpolate.EvaluateAsWritten` | workshop07/interpolate.py:20-24 | the output has the length of x; with no coefficients every entry is 0; otherwise entry j is p[last] * x[j]^last, the last term alone, and depends on x[j] only |
| `Interpolate.EvaluateIntended` | workshop07/interpolate.py:17-24 | with `+=` in place of `=+`, entry j is the docstring's sum p[0] + p[1]*x[j] + ... + p[last]*x[j]^last, and the output has the length of x |
| `Interpolate.AsWrittenAgreesIff` | workshop07/interpolate.py:17-24 | for non-empty p the intended value is the as-written value plus the sum of the terms before the last, so the two agree at t exactly when that sum is 0 |
| `Interpolate.SingleCoefficientAgrees` | workshop07/interpolate.py:17-24 | with a single coefficient c both the loop as written and the docstring give the constant c |
| `Interpolate.ZeroTermsSumToZero` | workshop07/interpolate.py:17 | coefficients that are all zero contribute nothing to the docstring's sum |
| `Interpolate.AsWrittenIsLeadingTermOnly` | workshop07/interpolate.py:23-24 | the loop as written computes the docstring's polynomial with every coefficient but the last set to zero |
| `Interpolate.ScriptPolynomialDisagrees` | workshop07/interpolate.py:32-39 | for the script's p = [20, 0, 2], applied to the three x values it scatter-plots, 0, 5 and 10, the loop gives 0, 50, 200, where the plotted title 20 + 2x^2 promises 20, 70, 220 |
| `GetWords.RStrip` | workshop10/get_words.py:19 | rstrip returns a prefix of the line, every removed character is whitespace, and the result does not end in whitespace |
| `GetWords.RStripIdempotent` | workshop10/get_words.py:19 | stripping a stripped line changes nothing |
| `GetWords.LoadFile` | workshop10/get_words.py:14-20 | the result is the stripped lines concatenated in order with nothing between them |
| `GetWords.JoinedAppend` | workshop10/get_words.py:14-20 | loading a + b gives the result for a followed by the result for b |
| `GetWords.JoinedCons` | workshop10/get_words.py:17-19 | the result begins with the first stripped line, followed by the result for the remaining lines |
| `GetWords.JoinedLength` | workshop10/get_words.py:19 | the length of the result is the sum of the lengths of the stripped lines |
| `GetWords.RunEnd` | workshop10/get_words.py:30 | the greedy [a-z]* from k stops at the first character that is not a lower-case letter, or at the end |
| `GetWords.FindAllFrom` | workshop10/get_words.py:30-32 | every word the scanner returns consists only of the letters a to z, and may be empty |
| `GetWords.GetWords` | workshop10/get_words.py:27-33 | get_words returns findall over the loaded string, and every word is lower-case |
| `GetWords.PrefixLetters` | workshop10/get_words.py:30 | an occurrence of word_freq_ begins with the letters w, o, r, d and an underscore |
| `GetWords.NoPrefixInsideMatch` | workshop10/get_words.py:30-32 | no occurrence of word_freq_ starts strictly inside a match |
| `GetWords.PositionsSkipMatch` | workshop10/get_words.py:32 | resuming after a match skips no match |
| `GetWords.PositionsAreMatches` | workshop10/get_words.py:30 | the match positions from i are exactly the positions j >= i where the pattern matches |
| `GetWords.PositionsDoNotOverlap` | workshop10/get_words.py:32 | each match ends at or before the start of the next one |
| `GetWords.NextMatchAfterEnd` | workshop10/get_words.py:32 | the first match after a match at i starts no earlier than where the match at i ends |
| `GetWords.FindAllFromIsWordsAtPositions` | workshop10/get_words.py:32 | the scanner returns the words captured at all match positions, in increasing order |
| `GetWords.WordsAtIndex` | workshop10/get_words.py:32 | the k-th word of a list of match positions is the word captured at the k-th position |
| `GetWords.FindAllCharacterised` | workshop10/get_words.py:30-32 | findall returns one word per match position, in left-to-right order; the k-th word is the one captured at the k-th match; every match is found; and matches do not overlap |
| `GetWords.FindAllSound` | workshop10/get_words.py:30-32 | each returned word w is lower-case and `word_freq_` + w + `:` occurs in the string |
| `GetWords.MatchOccurs` | workshop10/get_words.py:30 | at a match, `word_freq_`, the captured word and `:` stand in the string one after the other |
| `GetWords.FindAllComplete` | workshop10/get_words.py:28-32 | at each `word_freq_` whose longest lower-case run ends in `:`, findall returns that run; where the run is followed by anything else, that position is not a match |
| `GetWords.NoPrefixNoWords` | workshop10/get_words.py:30-32 | a string with no `word_freq_` yields no words |
| `GetWords.NoWNoWords` | workshop10/get_words.py:30-32 | a stretch of the string without the letter w yields no words |
| `GetWords.StripNewline` | workshop10/get_words.py:18-19 | a line whose text ends in a non-blank character loses exactly its newline |
| `GetWords.JoinedExample` | workshop10/get_words.py:14-20 | the lines "word_fr\n" and "eq_make:\n" load as "word_freq_make:" |
| `GetWords.MatchAcrossLines` | workshop10/get_words.py:19-32 | because lines are joined without a separator, a match can span a line break: those two lines yield ["make"] |
| `GetWords.DigitNameNotFound` | workshop10/get_words.py:28-30 | a column name with a digit, word_freq_3d:, yields no word |

## Findings

| source | as written | input that shows it | evidently intended | confidence | as-written member | corrected member |
|---|---|---|---|---|---|---|
| workshop07/fib.py:5-16 | `return f[-1]` returns cell n + 1, which is F(n + 2) | n = 10 gives 144 where the comment at line 16 expects 55; n = 1 gives 2 | `return f[n - 1]`, the n'th Fibonacci number F(n) the docstring promises, 55 for n = 10 | medium; not executed | `Fib.Fib`, with `Fib.FibValues` | `Fib.FibIntended`, with `Fib.FibIntendedValues` |
| workshop07/interpolate.py:24 | `y =+ p_i * x**power` assigns each term to y, so only the last term survives | p = [20, 0, 2], x = [0, 5, 10]: y = [0, 50, 200] | `y += p_i * x**power`, giving the docstring's sum [20, 70, 220] | high; not executed | `Interpolate.EvaluateAsWritten`, with `Interpolate.ScriptPolynomialDisagrees` | `Interpolate.EvaluateIntended` |

## Left out

- The `scipy.interpolate.interp1d` call and the callable it returns (workshop07/interpolate.py:27-29). This is a foreign library doing floating-point interpolation, so the model stops at the evaluated curve `y`.
- Plotting, the `linspace` sample points and the `__main__` block (workshop07/interpolate.py:31-42). The same goes for the version print (workshop07/interpolate.py:5) and the print at workshop07/fib.py:16. These are display and I/O only. The script's polynomial, and the three x values it scatter-plots, appear as constants in `Interpolate.ScriptPolynomialDisagrees`. The script itself runs the loop on 100 points from `linspace`. The plotted points come from `interp1d`, which is not modelled.
- Opening and reading `spambase.names`, and `os.path.join` (workshop10/get_words.py:8,16-17). These are I/O. The lines are passed in instead, as the file iterator yields them, after text mode has turned line endings into `\n`.
- Floating point:
  - The Fibonacci table is modelled with unbounded integers. Two float effects are not modelled: precision lost above 2^53, and overflow. From about n = 1475 the float cells overflow to `inf`, while `Fib.Fib` still returns F(n + 2).
  - Sample points and coefficients are exact reals. Rounding is not modelled.
  - The NaN sentinel is modelled as a distinct `Unset` cell.
- `fib` called with something other than an integer.
- Python's general regular-expression engine. Only the one fixed pattern is modelled.
- `GetWords.IsSpace` is the set of characters `str.isspace()` accepts, written out by code point for the current Unicode database. Other Unicode versions may differ.


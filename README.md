# HTML report template engine of assess_gtfs

assess_gtfs builds its HTML report by filling a template. A
`TemplateHTML` object holds the template text in one field, `template`. A call
to `_insert(placeholder, value, replace_multiple)` looks for the placeholder
written in square brackets, `[placeholder]`. It counts the occurrences as
`len(template.split(token)) - 1`. If there is more than one occurrence and
`replace_multiple` is false, it raises `ValueError` and changes nothing.
Otherwise it replaces every occurrence with `value`, using `str.replace`.
`_get_template` returns the current text.

The project has two modules:

- `Strings` (`strings.dfy`) gives Python's string operations for a non-empty
  separator as recursive functions:
  - `Find` is the leftmost match, as `str.find` returns it;
  - `Split` and `Join` are `str.split` and `str.join`;
  - `ReplaceAll` is `str.replace`;
  - `CountOcc` is an independent greedy count of non-overlapping matches.

  The lemmas relate these functions to each other: the split round trip, the
  count as split pieces minus one, replace as split-then-join, the length
  change, and the zero-match and single-match cases.
- `ReportUtils` (`report_utils.dfy`) holds the class `TemplateHTML`, which
  has a `template: string` field. `Insert` is a method that `modifies this`
  and returns an `InsertOutcome` (`Inserted`, or `ValueError` with the
  message of report_utils.py:91-94, the constant `MultipleMatchesMessage`).
  Its `replaceMultiple` parameter defaults to `false`, as `replace_multiple`
  does in Python (report_utils.py:56). `GetTemplate` is a function that reads
  the field.

`Insert` counts the way the Python implementation does
(`|Split(template, tok)| - 1`). Its contract is stated in terms of `CountOcc`
and `ReplaceAll`, and the lemmas of `Strings` tie the two together.

## Model

| member | source | states |
|---|---|---|
| `Strings.Find` | src/assess_gtfs/report/report_utils.py:89-96 | the result is a position where the token occurs and no earlier position holds a match; `None` means no position holds a match |
| `Strings.CountOcc` | src/assess_gtfs/report/report_utils.py:89 | the number of non-overlapping, leftmost-first matches, found by a greedy scan; its contract bounds it by \|s\|; `CountBound`, `CountAtFirst`, `CountZeroIffNoMatch` and `CountIsSplitMinusOne` prove what it means |
| `Strings.CountBound` | src/assess_gtfs/report/report_utils.py:89 | the matches counted do not overlap: count × \|token\| ≤ \|s\| |
| `Strings.Split` | src/assess_gtfs/report/report_utils.py:89 | `split` returns at least one piece, and no piece contains the separator |
| `Strings.SplitAtLeftmost` | src/assess_gtfs/report/report_utils.py:89 | a split has one piece exactly when there is no match; otherwise the first piece ends at the leftmost match |
| `Strings.Join` | src/assess_gtfs/report/report_utils.py:89-96 | `join` starts with the first piece; `JoinSplit` proves it undoes `Split`, and `ReplaceIsJoinOfSplit` proves `replace` is split-then-join with the value |
| `Strings.JoinSplit` | src/assess_gtfs/report/report_utils.py:89 | joining the pieces of a split with the separator rebuilds the original string |
| `Strings.CountIsSplitMinusOne` | src/assess_gtfs/report/report_utils.py:89 | `len(split) - 1` equals the number of non-overlapping, leftmost-first occurrences |
| `Strings.CountZeroIffNoMatch` | src/assess_gtfs/report/report_utils.py:89 | the count is zero exactly when the token occurs nowhere |
| `Strings.CountAtFirst` | src/assess_gtfs/report/report_utils.py:89 | at the leftmost match, the count is one plus the count of the text after that match |
| `Strings.ReplaceAll` | src/assess_gtfs/report/report_utils.py:96 | `replace` replaces every leftmost, non-overlapping match; replacing the token by itself leaves the text unchanged; `ReplaceIsJoinOfSplit`, `ReplaceAtFirstMatch`, `ReplaceLength` and `NoMatchUnchanged` prove the rest of its behaviour |
| `Strings.ReplaceIsJoinOfSplit` | src/assess_gtfs/report/report_utils.py:96 | `replace` equals splitting at the token and joining with the value, so the text between matches is kept in order |
| `Strings.ReplaceLength` | src/assess_gtfs/report/report_utils.py:89-96 | the new length is the old length plus count × (\|value\| − \|token\|) |
| `Strings.NoMatchUnchanged` | src/assess_gtfs/report/report_utils.py:89-96 | with zero occurrences, replacing leaves the text unchanged |
| `Strings.ReplaceAtFirstMatch` | src/assess_gtfs/report/report_utils.py:96 | for `prefix + token + suffix` with no match starting inside `prefix`, the result is `prefix + value` followed by the replacement of `suffix`, and the count is one more than the count in `suffix` |
| `Strings.SingleMatch` | src/assess_gtfs/report/report_utils.py:90-96 | if the count is 1 and no match starts inside `prefix`, replacing `prefix + token + suffix` gives `prefix + value + suffix` |
| `Strings.SingleMatchSplits` | src/assess_gtfs/report/report_utils.py:89-90 | a text with exactly one occurrence is split at its leftmost match into a match-free prefix, the token, and a suffix with no occurrence |
| `ReportUtils.Token` | src/assess_gtfs/report/report_utils.py:62-64 | the searched token is the placeholder between `[` and `]`, two characters longer than the placeholder |
| `ReportUtils.RefusesInsert` | src/assess_gtfs/report/report_utils.py:89-90 | the error guard is "count above 1 and `replace_multiple` false", and it gives the same answer as the count `len(split) - 1` |
| `ReportUtils.UnbracketedTextKept` | src/assess_gtfs/report/report_utils.py:89-96 | text with no `[` that comes before a placeholder is kept, even when it spells the bare placeholder name, and the bracketed placeholder after it is replaced |
| `ReportUtils.NoBracketUnchanged` | src/assess_gtfs/report/report_utils.py:89-96 | a template with no `[` at all is left unchanged by an insertion, even where it spells the bare placeholder name; with `UnbracketedTextKept` this covers bare-name text before, between and after placeholders |
| `ReportUtils.TemplateHTML.constructor` | src/assess_gtfs/report/report_utils.py:32-53 | the new object's `template` is the given text |
| `ReportUtils.TemplateHTML.Insert` | src/assess_gtfs/report/report_utils.py:55-96 | it refuses with `ValueError`, carrying the message `MultipleMatchesMessage`, exactly when the count exceeds 1 and `replace_multiple` is false; a refusal leaves `template` unchanged; otherwise `template` becomes the old text with every match replaced; the length changes by count × (\|value\| − \|placeholder\| − 2); with count 0 it succeeds and nothing changes; with count 1 it succeeds whatever the flag, and the result is the text before the match, then `value`, then the text after it |
| `ReportUtils.TemplateHTML.GetTemplate` | src/assess_gtfs/report/report_utils.py:98-110 | returns the current `template` field; being a function, it changes nothing |

## Left out

- `TemplateHTML.__init__` reads the template from a file and checks the path's type (report_utils.py:50-53). The model's constructor takes the text directly.
- The runtime type checks in `_insert` (report_utils.py:86-88) raise `TypeError` for non-string or non-boolean arguments. Dafny's static types rule those inputs out.
- `_set_up_report_dir` (report_utils.py:113-166) creates a directory, checks whether it exists, and copies a CSS file. All of this is filesystem I/O.
- `src/assess_gtfs/routes.py` is left out. It fetches over HTTP, scrapes HTML and loads pickles, all through libraries that are not part of this model.
- `src/transport_performance/population/vectorpop.py` only raises `NotImplementedError`. `src/assess_gtfs/utils/constants.py` only resolves a package path. Neither has behaviour to model.
- The validators, cleaners, calendar expansion and multi-feed summaries that the tests exercise live in modules that are not part of this model.
- `Strings.Split`, `Strings.CountOcc` and `Strings.ReplaceAll` require a non-empty separator. Python treats the empty separator specially, but the token always contains at least the two brackets, so that case never arises here.
- Strings are Dafny sequences of characters. Python's code-point strings and the template file's UTF-8 decoding are not modelled.

# eprompt in Dafny

A model of `eprompt.py`, a set of console prompts. Each prompt reads lines from
standard input until one passes its acceptance test. Most prompts strip the
line first. Many let an empty answer select a default. Some give up after a
budget of attempts.

Standard input is a finite `seq<string>` of lines. Every prompt is a `method`.
Each one keeps the source's `while` loop, except `get_bool`, whose loop body
always returns on its first pass (see "Left out"). Every prompt except
`get_lines` returns an `Answer`:

- `Answered(value, consumed)`: the value returned and the number of lines read;
- `RanOut`: the lines ended while the prompt was still waiting. This stands for
  a prompt that would block for ever on a terminal.

`get_lines` returns the list of lines it collected up to end of input.

The prompts `get_yn`, `get_int`, `get_str`, `get_pwd`, `get_line`, `get_alpha`,
`get_alphanumeric`, `get_email`, `get_values` and `get_selection` are proved
against the ghost predicate `IsFirstStop`.
It says the prompt stops at the first line its per-line decision (`YnDecision`,
`IntDecision`, …) does not reject, returns what that decision gives, and reads
nothing after it. The decisions are plain functions. Lemmas state what they
accept. `get_bool` and `get_lines` have no such decision: their contracts
state their results directly.

The attempt-budget prompts (`match_value`, `match_pwd`, `match_values`) are
proved equal to a closed form, `BudgetOutcome`. It is computed from the index
of the first matching line, the number of lines and the budget. Its contract
states how the budget behaves:

- a negative budget never runs out;
- a budget `N` reads at most `N` lines;
- the result is true exactly when the match came before the `N`-th read.

Modules:

- `StrMethods` (`str_methods.dfy`): `strip`, `lower`, `isalpha`, `isalnum`,
  `find` and `split` on ASCII strings.
- `IntCast` (`int_cast.dfy`): the strings `int()` accepts, and their values.
- `EmailPattern` (`email_pattern.dfy`): the e-mail pattern of `get_email`.
- `Sorting` (`sorting.dfy`): `sorted` on string lists, and the fact that two
  lists sort equal exactly when they are permutations of each other.
- `EPrompt` (`eprompt.dfy`): the prompts.

The model follows the code where it departs from the evident intent. With a
budget of 2, `match_value` returns false when the second line is the target,
although a match within the budget is meant to succeed; see "Findings".

## Model

| member | source | states |
|---|---|---|
| EPrompt.EffectiveDefault | eprompt.py:10-11 | The default is the caller's when one is given. It is the empty string when there is none and empty input is allowed. Otherwise there is none. |
| EPrompt.FirstStopUnique | eprompt.py:14-18 | A read-validate loop has one outcome per input: two answers that both stop at the first accepted line are equal. |
| EPrompt.FirstStopIgnoresRest | eprompt.py:14-18 | A prompt that returned after `k` lines returns the same whatever follows them. It reads only a prefix of the input. |
| EPrompt.GetYn | eprompt.py:9-20 | Returns at the first line whose stripped, lower-cased form is `y` or `n`, or is empty while a default is set (the default is returned). Reads nothing after it. |
| EPrompt.YnAccepts | eprompt.py:14-15 | A line stops `get_yn` exactly when it strips to `y`, `Y`, `n` or `N`, or to nothing while a default is set. Such an answer is returned as `y` or `n`. |
| EPrompt.GetBool | eprompt.py:75-87 | Exactly one line is read whenever there is one. An empty stripped line gives the default when one is set. Otherwise the result is false for an empty line and true for any other. |
| EPrompt.GetInt | eprompt.py:106-118 | Returns at the first line whose stripped form is an integer literal (its value is returned), or is empty while a default is set. |
| EPrompt.IntAcceptsShow | eprompt.py:111-116 | The text of every integer `n` stops `get_int` with the value `n`. |
| IntCast.ShowRoundTrip | eprompt.py:115 | `int(str(n)) == n` for every integer: the text of `n` is a literal `int` accepts, and it reads back as `n`. |
| EPrompt.GetStr | eprompt.py:148-157 | Returns the first non-empty line as read, without stripping. An empty line gives the default when one is set. |
| EPrompt.GetPwd | eprompt.py:244-253 | The same outcome as `get_str`, on the password stream. |
| EPrompt.GetLine | eprompt.py:184-193 | Returns the first line whose stripped form is non-empty, stripped. An empty stripped line gives the default when one is set. |
| EPrompt.GetAlpha | eprompt.py:160-169 | Returns the first stripped line that is non-empty and all letters. An empty one gives the default when one is set. |
| EPrompt.GetAlphanumeric | eprompt.py:172-181 | Returns the first stripped line that is non-empty and all letters and digits. An empty one gives the default when one is set. |
| EPrompt.GetEmail | eprompt.py:231-241 | Returns the first stripped line that matches the e-mail pattern (the whole match is the whole line). An empty one gives the default when one is set. |
| EPrompt.EmailAccepted | eprompt.py:240-241 | An address that `get_email` accepts on its own merit is returned stripped. It has exactly one `@`, a non-empty local part, and a `.` after the `@` with text on both sides. |
| EmailPattern.EmailShape | eprompt.py:240 | A line matches `^[^@]+@[^@]+\.[^@]+$` exactly when it is `local@left.right`, with three non-empty parts free of `@`. |
| EmailPattern.OneAt | eprompt.py:240 | A matching line has exactly one `@`. |
| EmailPattern.ShapeOfMatch | eprompt.py:240 | A matching line splits into `local`, `left` and `right`. |
| EmailPattern.MatchOfShape | eprompt.py:240 | Every `local@left.right` with non-empty `@`-free parts matches. |
| StrMethods.StripSpec | eprompt.py:15 | `strip` returns a slice of the line. Only whitespace lies outside it. It is empty exactly when the line is all whitespace, and otherwise starts and ends with a non-space. |
| StrMethods.StripKeeps | eprompt.py:15 | A string that starts and ends with a non-space is left unchanged by `strip`. |
| StrMethods.StripIdempotent | eprompt.py:49 | Stripping a stripped string changes nothing. |
| StrMethods.TrimStartSpec | eprompt.py:15 | Removing leading whitespace leaves a suffix that does not start with whitespace, and everything removed is whitespace. |
| StrMethods.TrimEndSpec | eprompt.py:15 | Removing trailing whitespace leaves a prefix that does not end with whitespace, and everything removed is whitespace. |
| StrMethods.LowerIsLetter | eprompt.py:15 | The strings whose lower-case form is one given letter are that letter and its upper-case form. |
| StrMethods.FindSpec | eprompt.py:69 | `Find` gives the first index at or after `from` where the separator occurs, or the length when there is none. |
| StrMethods.JoinSplit | eprompt.py:69 | Joining the pieces of a split with the separator gives back the line. |
| StrMethods.SplitPiecesAreFree | eprompt.py:69 | No piece of a split contains the separator. |
| EPrompt.NonBlankCounts | eprompt.py:206 | `filter(None, …)` keeps no empty string. It keeps every non-empty string as often as it occurs. |
| EPrompt.NonBlankAppend | eprompt.py:206 | Filtering a list extended by one string extends the filtered list by that string, when the string is not empty. Together with the empty case, this fixes the order. |
| EPrompt.NonBlankKeeps | eprompt.py:206 | A list without empty strings passes the filter unchanged. |
| EPrompt.NonBlankCons | eprompt.py:206 | Filtering a list with one string in front puts that string in front of the filtered rest, when it is not empty. |
| EPrompt.GetLines | eprompt.py:196-207 | With empty lines allowed, returns every line up to end of input, stripped, in order. Otherwise returns exactly the non-empty stripped lines, in order. |
| EPrompt.TokensAreClean | eprompt.py:49 | Every token of `get_values` is non-empty and has no surrounding whitespace. |
| EPrompt.GetValues | eprompt.py:39-51 | Returns the token list of the first stripped line that has at least one token. An empty line gives the default when one is set. |
| EPrompt.PiecesAndTokens | eprompt.py:69-70 | The pieces of `match_values`, once their empty strings are dropped, are the tokens of `get_values`. |
| EPrompt.FilterStripFilter | eprompt.py:70 | Filtering, stripping, then filtering again gives the same list as stripping, then filtering. |
| EPrompt.BlankPieceSurvives | eprompt.py:69-70 | `""` is among the pieces of `match_values` exactly when the split line has a non-empty piece made only of whitespace. `get_values` never yields an empty token. |
| EPrompt.GetSelection | eprompt.py:210-228 | Returns at the first stripped line that is a menu key, or is empty while a default is set. A returned label is always the menu's label of the returned key. A missing label means the default was returned and is not a key. |
| EPrompt.SelectionExample | eprompt.py:221-228 | With the menu `{"1": "Yes", "2": "No"}`, the line `1` gives `("1", "Yes")`. An empty line with the default `"2"` gives `("2", "No")`. |
| EPrompt.DefaultShortCircuit | eprompt.py:16-18 | An empty stripped line with a default set ends every prompt with the default, before any validation. |
| EPrompt.FirstWhere | eprompt.py:58 | Gives the index of the first line satisfying the test, or the number of lines. |
| EPrompt.BudgetOutcome | eprompt.py:58-61 | A negative budget never gives up, and returns true at the first match. A budget `N >= 0` reads at most `N` lines, runs out only when fewer lines exist and none matches, and returns true exactly when the match came before read `N`. A budget of 0 returns false without reading. |
| EPrompt.BudgetAtExit | eprompt.py:58-61 | A budget loop that leaves after its last read matched, or after using up its budget, with no match before, ends as `BudgetOutcome` says. |
| EPrompt.BudgetRanOut | eprompt.py:58-60 | A budget loop that reads every line without a match, and without using up its budget, runs out. |
| EPrompt.MatchValue | eprompt.py:54-61 | Its outcome is `BudgetOutcome` of the first line equal to the target, compared unstripped. |
| EPrompt.MatchPwd | eprompt.py:256-263 | The same outcome as `match_value`, on the password stream. |
| EPrompt.MatchValues | eprompt.py:64-72 | With no targets it returns at once: true unless the budget is 0. Otherwise its outcome is `BudgetOutcome` of the first line whose pieces are the targets up to order. |
| EPrompt.SortedPiecesMatch | eprompt.py:68-70 | The loop test `sorted(pieces) != sorted(targets)` fails exactly when the pieces of the line are the targets up to order. |
| Sorting.SortedEqual | eprompt.py:68 | `sorted(a) == sorted(b)` exactly when `a` and `b` hold the same strings, each as often. |
| Sorting.SortSpec | eprompt.py:68 | `sorted` returns a sorted permutation of its argument. |
| Sorting.InsertSpec | eprompt.py:68 | Inserting into a sorted list keeps it sorted and adds the element once. |
| Sorting.SortedUnique | eprompt.py:68 | Two sorted lists holding the same strings, each as often, are equal. |
| EPrompt.IntendedOutcome | eprompt.py:61 | The corrected result: true exactly when a match came within the budget. |
| EPrompt.MatchValueWithinBudget | eprompt.py:54-61 | `match_value` with the corrected result equals `IntendedOutcome`. |
| EPrompt.LastAttemptIsTheOnlyDifference | eprompt.py:61 | The result as written and the intended one differ exactly when the first match is on the last permitted read. Then the code says false where true is intended. |
| EPrompt.LastAttemptCounterexample | eprompt.py:54-61 | With a budget of 2 and the lines `guess`, `secret`, `match_value(…, "secret", 2)` reads both lines and returns false. |

## Left out

- `get_value`, `get_char` and the casting step of `get_values`. They depend on `interpret_type`, `ischar` and `auto_cast` from `utils`, which is not part of this model.
- EPrompt.GetValues: returns the stripped tokens as strings. The cast by `auto_cast` (eprompt.py:50) is not modelled.
- EPrompt.GetValues, EPrompt.MatchValues: require a non-empty string delimiter. With an empty one, `str.split` raises `ValueError`, and exceptions are not modelled. With `delimeter=None`, `str.split` splits on runs of whitespace and drops empty pieces; the model's `delimiter: string` cannot express that tokenisation, so it is not modelled.
- `get_number` and `get_float`: they parse floating point.
- `get_regex`: it needs a general regular-expression engine with flags.
- `wait_for_key_press`, `wait_for_some_key_press`, `wait_for_enter` and `wait_for_any_key_press`. These are blocking waits; the last one runs shell commands that depend on the platform.
- Prompt texts, `print` output, the menu display of `get_selection`, and the echo suppression of `getpass`. None of these affects the value returned.
- End of input: outside `get_lines`, Python raises `EOFError` there. The model returns `RanOut` instead, the case where the terminal never sends an acceptable line.
- EPrompt.GetBool: the source's `while True` is not kept. `bool` never raises, so the body always runs once and returns.
- EPrompt.MatchValue, EPrompt.MatchValues: the targets are taken as strings. The `str(…)` conversion of other values (eprompt.py:55, eprompt.py:65) is not modelled.
- EPrompt.GetSelection: menu keys are strings. A default matches a key only when it is a string, whereas Python compares any hashable value. A list default (`PyList`) makes `default in menu_options.keys()` (eprompt.py:224) raise `TypeError`, because a list cannot be hashed; `DefaultSelection` returns `(default, None)` for it instead, as exceptions are not modelled.
- EPrompt.GetInt: does not model the digit limit of `int()`. Since CPython 3.11 (and the 3.10.7, 3.9.14, 3.8.14 and 3.7.14 releases), `int()` raises `ValueError` on a decimal string of more than 4300 digits (`sys.get_int_max_str_digits`), so `get_int` reads again on such a line where the model returns its value.
- IntCast.ShowRoundTrip, EPrompt.IntAcceptsShow: hold for Python only for integers of at most 4300 digits. Past that limit `str(n)` and `int()` both raise `ValueError`; the model has no digit limit.
- Character classes are ASCII: `strip`, `lower`, `isalpha`, `isalnum` and the digits of `int()` ignore the rest of Unicode. `int()` accepts an optional sign and decimal digits with single underscores between them.

## Findings

The same return rule appears in `match_values` (eprompt.py:72) and in `match_pwd` (eprompt.py:263). The model of both follows the code.

| source | as written | input that shows it | evidently intended | confidence | as-written member | corrected member |
|---|---|---|---|---|---|---|
| eprompt.py:61 | `return attempts != max_attempts`: a match on the last permitted read leaves `attempts == max_attempts` and reports false | `match_value(p, "secret", 2)` with the lines `guess`, `secret` | true whenever a line matched within the budget | high; not executed | EPrompt.LastAttemptCounterexample | EPrompt.MatchValueWithinBudget |

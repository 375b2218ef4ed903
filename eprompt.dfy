/** The prompts of `eprompt.py`. Standard input is a finite sequence of lines
    (without their line breaks); a prompt reads a prefix of it and either
    returns a value together with the number of lines it read, or reaches the
    end of the sequence still waiting for an acceptable line. */
module EPrompt {
  import opened StrMethods
  import opened IntCast
  import opened EmailPattern
  import opened Sorting

  datatype Option<T> = None | Some(value: T)

  /** The Python values a prompt hands back. A default is returned as the
      caller passed it, so it may be any of these. */
  datatype PyValue = PyStr(s: string) | PyInt(i: int) | PyBool(b: bool) | PyList(items: seq<string>)

  /** The outcome of a prompt: it returns `value` after reading `consumed`
      lines, or the lines run out while it still waits for one it accepts. */
  datatype Answer<T> = Answered(value: T, consumed: nat) | RanOut

  /** What a prompt does with one line it has read. */
  datatype Step<T> = Retry | Stop(value: T)

  /** The default a prompt works with: the caller's, or the empty string when
      there is none and empty input is allowed. */
  function EffectiveDefault(default: Option<PyValue>, allowEmpty: bool): (d: Option<PyValue>)
    ensures d.Some? <==> default.Some? || allowEmpty
    ensures default.Some? ==> d == default
    ensures default.None? && allowEmpty ==> d == Some(PyStr(""))
  {
    if default.None? && allowEmpty then Some(PyStr("")) else default
  }

  /** `r` is what a read-validate loop deciding each line by `step` returns on
      `input`: it stops at the first line `step` does not reject, with the
      value `step` gives, having read nothing after that line; it runs out
      when `step` rejects every line. */
  ghost predicate IsFirstStop<T>(input: seq<string>, step: string -> Step<T>, r: Answer<T>)
  {
    match r
    case RanOut => forall j | 0 <= j < |input| :: step(input[j]).Retry?
    case Answered(v, k) =>
      1 <= k <= |input| && step(input[k - 1]) == Stop(v)
      && forall j | 0 <= j < k - 1 :: step(input[j]).Retry?
  }

  /** The outcome of a read-validate loop is determined by its input. */
  lemma FirstStopUnique<T>(input: seq<string>, step: string -> Step<T>, r1: Answer<T>, r2: Answer<T>)
    requires IsFirstStop(input, step, r1) && IsFirstStop(input, step, r2)
    ensures r1 == r2
  {
  }

  /** A loop that returned after `k` lines returns the same whatever follows
      those lines: it reads a prefix of the input and nothing more. */
  lemma FirstStopIgnoresRest<T>(input: seq<string>, step: string -> Step<T>, v: T, k: nat, rest: seq<string>)
    requires IsFirstStop(input, step, Answered(v, k))
    ensures IsFirstStop(input[..k] + rest, step, Answered(v, k))
  {
    var longer := input[..k] + rest;
    assert forall j | 0 <= j < k :: longer[j] == input[j];
  }

  // ---------------------------------------------------------------- get_yn

  /** What the loop does with one line read. */
  function YnDecision(d: Option<PyValue>, line: string): Step<PyValue>
  {
    var inp := Lower(Strip(line));
    if inp == "" && d.Some? then Stop(d.value)
    else if inp == "y" || inp == "n" then Stop(PyStr(inp))
    else Retry
  }

  function YnStep(d: Option<PyValue>): string -> Step<PyValue>
  {
    line => YnDecision(d, line)
  }

  /** `get_yn`: reads until the stripped, lower-cased line is `y` or `n`, or
      is empty while a default is set. */
  method GetYn(input: seq<string>, default: Option<PyValue>, allowEmpty: bool) returns (r: Answer<PyValue>)
    ensures IsFirstStop(input, YnStep(EffectiveDefault(default, allowEmpty)), r)
  {
    var d := EffectiveDefault(default, allowEmpty);
    var i := 0;
    var inp: Option<string> := None;
    while inp != Some("y") && inp != Some("n")
      invariant 0 <= i <= |input|
      invariant forall j | 0 <= j < i - 1 :: YnStep(d)(input[j]).Retry?
      invariant inp.None? <==> i == 0
      invariant inp.Some? ==> inp.value == Lower(Strip(input[i - 1])) && !(inp.value == "" && d.Some?)
      decreases |input| - i
    {
      assert forall j | 0 <= j < i :: YnStep(d)(input[j]).Retry?;
      if i == |input| {
        return RanOut;
      }
      var line := Lower(Strip(input[i]));
      i := i + 1;
      if line == "" && d.Some? {
        return Answered(d.value, i);
      }
      inp := Some(line);
    }
    return Answered(PyStr(inp.value), i);
  }

  /** The lines `get_yn` accepts on their own merit are `y`, `Y`, `n` and `N`,
      surrounded by any whitespace. */
  lemma YnAccepts(d: Option<PyValue>, line: string)
    ensures YnStep(d)(line).Stop? <==> (Strip(line) == "" && d.Some?) || Strip(line) in ["y", "Y", "n", "N"]
    ensures YnStep(d)(line).Stop? && Strip(line) != "" ==>
              YnStep(d)(line).value == PyStr(Lower(Strip(line))) && Lower(Strip(line)) in ["y", "n"]
  {
    LowerIsLetter(Strip(line), 'y');
    LowerIsLetter(Strip(line), 'n');
  }

  // ---------------------------------------------------------------- get_bool

  /** `get_bool`: a single read. An empty stripped line gives the default when
      one is set; otherwise the line gives `bool(line)`, which never fails, so
      the loop never goes round a second time. */
  method GetBool(input: seq<string>, default: Option<PyValue>, allowEmpty: bool) returns (r: Answer<PyValue>)
    ensures |input| == 0 <==> r == RanOut
    ensures r.Answered? ==> r.consumed == 1
    ensures var d := EffectiveDefault(default, allowEmpty);
            |input| > 0 && Strip(input[0]) == "" && d.Some? ==> r.value == d.value
    ensures var d := EffectiveDefault(default, allowEmpty);
            |input| > 0 && !(Strip(input[0]) == "" && d.Some?) ==> r.value == PyBool(Strip(input[0]) != "")
  {
    // The source wraps this in `while True`, but `bool` never raises, so the
    // retry branch is never taken and the loop body runs once.
    var d := EffectiveDefault(default, allowEmpty);
    if |input| == 0 {
      return RanOut;
    }
    var inp := Strip(input[0]);
    if inp == "" && d.Some? {
      return Answered(d.value, 1);
    }
    return Answered(PyBool(inp != ""), 1);
  }

  // ---------------------------------------------------------------- get_int

  /** What the loop does with one line read. */
  function IntDecision(d: Option<PyValue>, line: string): Step<PyValue>
  {
    var inp := Strip(line);
    if inp == "" && d.Some? then Stop(d.value)
    else if IsIntLiteral(inp) then Stop(PyInt(IntValue(inp)))
    else Retry
  }

  function IntStep(d: Option<PyValue>): string -> Step<PyValue>
  {
    line => IntDecision(d, line)
  }

  /** `get_int`: reads until the stripped line is an integer literal (its
      value is returned) or is empty while a default is set. */
  method GetInt(input: seq<string>, default: Option<PyValue>, allowEmpty: bool) returns (r: Answer<PyValue>)
    ensures IsFirstStop(input, IntStep(EffectiveDefault(default, allowEmpty)), r)
  {
    var d := EffectiveDefault(default, allowEmpty);
    var i := 0;
    while true
      invariant 0 <= i <= |input|
      invariant forall j | 0 <= j < i :: IntStep(d)(input[j]).Retry?
      decreases |input| - i
    {
      if i == |input| {
        return RanOut;
      }
      var inp := Strip(input[i]);
      i := i + 1;
      if inp == "" && d.Some? {
        return Answered(d.value, i);
      }
      if IsIntLiteral(inp) {
        return Answered(PyInt(IntValue(inp)), i);
      }
    }
  }

  /** `get_int` accepts the text of every integer, and returns that integer. */
  lemma IntAcceptsShow(d: Option<PyValue>, n: int)
    ensures IntStep(d)(Show(n)) == Stop(PyInt(n))
  {
    ShowRoundTrip(n);
    StripKeeps(Show(n));
  }

  // ---------------------------------------------------------------- get_str, get_pwd

  /** What the loop does with one line read. */
  function StrDecision(d: Option<PyValue>, line: string): Step<PyValue>
  {
    if line == "" && d.Some? then Stop(d.value)
    else if line != "" then Stop(PyStr(line))
    else Retry
  }

  function StrStep(d: Option<PyValue>): string -> Step<PyValue>
  {
    line => StrDecision(d, line)
  }

  /** `get_str`: reads until a line is non-empty (returned as read, not
      stripped) or is empty while a default is set. */
  method GetStr(input: seq<string>, default: Option<PyValue>, allowEmpty: bool) returns (r: Answer<PyValue>)
    ensures IsFirstStop(input, StrStep(EffectiveDefault(default, allowEmpty)), r)
  {
    var d := EffectiveDefault(default, allowEmpty);
    var i := 0;
    var inp := "";
    while inp == ""
      invariant 0 <= i <= |input|
      invariant forall j | 0 <= j < i - 1 :: StrStep(d)(input[j]).Retry?
      invariant i == 0 ==> inp == ""
      invariant i > 0 ==> inp == input[i - 1] && !(inp == "" && d.Some?)
      decreases |input| - i
    {
      assert forall j | 0 <= j < i :: StrStep(d)(input[j]).Retry?;
      if i == |input| {
        return RanOut;
      }
      inp := input[i];
      i := i + 1;
      if inp == "" && d.Some? {
        return Answered(d.value, i);
      }
    }
    return Answered(PyStr(inp), i);
  }

  /** `get_pwd`: the same loop as `get_str` over the no-echo password stream. */
  method GetPwd(input: seq<string>, default: Option<PyValue>, allowEmpty: bool) returns (r: Answer<PyValue>)
    ensures IsFirstStop(input, StrStep(EffectiveDefault(default, allowEmpty)), r)
  {
    r := GetStr(input, default, allowEmpty);
  }

  // ---------------------------------------------------------------- get_line

  /** What the loop does with one line read. */
  function LineDecision(d: Option<PyValue>, line: string): Step<PyValue>
  {
    var inp := Strip(line);
    if inp == "" && d.Some? then Stop(d.value)
    else if inp != "" then Stop(PyStr(inp))
    else Retry
  }

  function LineStep(d: Option<PyValue>): string -> Step<PyValue>
  {
    line => LineDecision(d, line)
  }

  /** `get_line`: reads until the stripped line is non-empty (the stripped
      line is returned) or is empty while a default is set. */
  method GetLine(input: seq<string>, default: Option<PyValue>, allowEmpty: bool) returns (r: Answer<PyValue>)
    ensures IsFirstStop(input, LineStep(EffectiveDefault(default, allowEmpty)), r)
  {
    var d := EffectiveDefault(default, allowEmpty);
    var i := 0;
    var inp := "";  // None in the source; both are false as conditions
    while inp == ""
      invariant 0 <= i <= |input|
      invariant forall j | 0 <= j < i - 1 :: LineStep(d)(input[j]).Retry?
      invariant i == 0 ==> inp == ""
      invariant i > 0 ==> inp == Strip(input[i - 1]) && !(inp == "" && d.Some?)
      decreases |input| - i
    {
      assert forall j | 0 <= j < i :: LineStep(d)(input[j]).Retry?;
      if i == |input| {
        return RanOut;
      }
      inp := Strip(input[i]);
      i := i + 1;
      if inp == "" && d.Some? {
        return Answered(d.value, i);
      }
    }
    return Answered(PyStr(inp), i);
  }

  // ---------------------------------------------------------------- get_alpha, get_alphanumeric

  /** What the loop does with one line read. */
  function AlphaDecision(d: Option<PyValue>, line: string): Step<PyValue>
  {
    var inp := Strip(line);
    if inp == "" && d.Some? then Stop(d.value)
    else if IsAlpha(inp) then Stop(PyStr(inp))
    else Retry
  }

  function AlphaStep(d: Option<PyValue>): string -> Step<PyValue>
  {
    line => AlphaDecision(d, line)
  }

  /** `get_alpha`: reads until the stripped line is all letters (and
      non-empty) or is empty while a default is set. */
  method GetAlpha(input: seq<string>, default: Option<PyValue>, allowEmpty: bool) returns (r: Answer<PyValue>)
    ensures IsFirstStop(input, AlphaStep(EffectiveDefault(default, allowEmpty)), r)
  {
    var d := EffectiveDefault(default, allowEmpty);
    var i := 0;
    var inp := "";
    while !IsAlpha(inp)
      invariant 0 <= i <= |input|
      invariant forall j | 0 <= j < i - 1 :: AlphaStep(d)(input[j]).Retry?
      invariant i == 0 ==> inp == ""
      invariant i > 0 ==> inp == Strip(input[i - 1]) && !(inp == "" && d.Some?)
      decreases |input| - i
    {
      assert forall j | 0 <= j < i :: AlphaStep(d)(input[j]).Retry?;
      if i == |input| {
        return RanOut;
      }
      inp := Strip(input[i]);
      i := i + 1;
      if inp == "" && d.Some? {
        return Answered(d.value, i);
      }
    }
    return Answered(PyStr(inp), i);
  }

  /** What the loop does with one line read. */
  function AlnumDecision(d: Option<PyValue>, line: string): Step<PyValue>
  {
    var inp := Strip(line);
    if inp == "" && d.Some? then Stop(d.value)
    else if IsAlnum(inp) then Stop(PyStr(inp))
    else Retry
  }

  function AlnumStep(d: Option<PyValue>): string -> Step<PyValue>
  {
    line => AlnumDecision(d, line)
  }

  /** `get_alphanumeric`: reads until the stripped line is all letters and
      digits (and non-empty) or is empty while a default is set. */
  method GetAlphanumeric(input: seq<string>, default: Option<PyValue>, allowEmpty: bool) returns (r: Answer<PyValue>)
    ensures IsFirstStop(input, AlnumStep(EffectiveDefault(default, allowEmpty)), r)
  {
    var d := EffectiveDefault(default, allowEmpty);
    var i := 0;
    var inp := "";
    while !IsAlnum(inp)
      invariant 0 <= i <= |input|
      invariant forall j | 0 <= j < i - 1 :: AlnumStep(d)(input[j]).Retry?
      invariant i == 0 ==> inp == ""
      invariant i > 0 ==> inp == Strip(input[i - 1]) && !(inp == "" && d.Some?)
      decreases |input| - i
    {
      assert forall j | 0 <= j < i :: AlnumStep(d)(input[j]).Retry?;
      if i == |input| {
        return RanOut;
      }
      inp := Strip(input[i]);
      i := i + 1;
      if inp == "" && d.Some? {
        return Answered(d.value, i);
      }
    }
    return Answered(PyStr(inp), i);
  }

  // ---------------------------------------------------------------- get_email

  /** What the loop does with one line read. */
  function EmailDecision(d: Option<PyValue>, line: string): Step<PyValue>
  {
    var inp := Strip(line);
    if inp == "" && d.Some? then Stop(d.value)
    else if IsEmail(inp) then Stop(PyStr(inp))
    else Retry
  }

  function EmailStep(d: Option<PyValue>): string -> Step<PyValue>
  {
    line => EmailDecision(d, line)
  }

  /** `get_email`: reads until the stripped line matches the e-mail pattern
      (the whole match, which is the whole line, is returned) or is empty
      while a default is set. */
  method GetEmail(input: seq<string>, default: Option<PyValue>, allowEmpty: bool) returns (r: Answer<PyValue>)
    ensures IsFirstStop(input, EmailStep(EffectiveDefault(default, allowEmpty)), r)
  {
    var d := EffectiveDefault(default, allowEmpty);
    var i := 0;
    var email: Option<string> := None;
    while email.None?
      invariant 0 <= i <= |input|
      invariant forall j | 0 <= j < i - 1 :: EmailStep(d)(input[j]).Retry?
      invariant i == 0 ==> email.None?
      invariant i > 0 && email.None? ==> EmailStep(d)(input[i - 1]).Retry?
      invariant email.Some? ==> i > 0 && EmailStep(d)(input[i - 1]) == Stop(PyStr(email.value))
      decreases |input| - i
    {
      assert forall j | 0 <= j < i :: EmailStep(d)(input[j]).Retry?;
      if i == |input| {
        return RanOut;
      }
      var inp := Strip(input[i]);
      i := i + 1;
      if inp == "" && d.Some? {
        return Answered(d.value, i);
      }
      email := if IsEmail(inp) then Some(inp) else None;
    }
    return Answered(PyStr(email.value), i);
  }

  /** What `get_email` returns on its own merit has exactly one `@`, a
      non-empty part before it, and a `.` after it with text on both sides. */
  lemma EmailAccepted(d: Option<PyValue>, line: string)
    requires EmailStep(d)(line).Stop? && Strip(line) != ""
    ensures EmailStep(d)(line) == Stop(PyStr(Strip(line)))
    ensures exists local, left, right :: Decomposes(Strip(line), local, left, right)
    ensures exists at | 0 <= at < |Strip(line)| :: Strip(line)[at] == '@'
              && forall k | 0 <= k < |Strip(line)| && k != at :: Strip(line)[k] != '@'
  {
    EmailShape(Strip(line));
    OneAt(Strip(line));
  }

  // ---------------------------------------------------------------- list helpers

  /** `[s.strip() for s in xs]`. */
  function StripAll(xs: seq<string>): (r: seq<string>)
    ensures |r| == |xs| && forall k | 0 <= k < |xs| :: r[k] == Strip(xs[k])
  {
    seq(|xs|, k requires 0 <= k < |xs| => Strip(xs[k]))
  }

  /** `list(filter(None, xs))`: the non-empty strings of `xs`, in order. */
  function NonBlank(xs: seq<string>): seq<string>
  {
    if xs == [] then [] else (if xs[0] == "" then [] else [xs[0]]) + NonBlank(xs[1..])
  }

  /** The filtered list holds no empty string, and every non-empty string of
      `xs` as often as `xs` does. */
  lemma {:induction false} NonBlankCounts(xs: seq<string>)
    ensures forall k | 0 <= k < |NonBlank(xs)| :: NonBlank(xs)[k] != ""
    ensures multiset(NonBlank(xs)) == multiset(xs)["" := 0]
  {
    if xs != [] {
      assert xs == [xs[0]] + xs[1..];
      NonBlankCounts(xs[1..]);
    }
  }

  /** A list without empty strings passes the filter unchanged. */
  lemma {:induction false} NonBlankKeeps(xs: seq<string>)
    requires forall k | 0 <= k < |xs| :: xs[k] != ""
    ensures NonBlank(xs) == xs
  {
    if xs != [] {
      NonBlankKeeps(xs[1..]);
      assert xs == [xs[0]] + xs[1..];
    }
  }

  /** Filtering a list extended by one string extends the filtered list by
      that string when it is not empty; with `NonBlank([]) == []` this fixes
      the order of the result. */
  lemma {:induction false} NonBlankAppend(xs: seq<string>, x: string)
    ensures NonBlank(xs + [x]) == NonBlank(xs) + (if x == "" then [] else [x])
  {
    if xs != [] {
      assert (xs + [x])[1..] == xs[1..] + [x];
      NonBlankAppend(xs[1..], x);
    } else {
      assert [x][1..] == [];
    }
  }

  /** `[item.strip() for item in s.split(delimiter) if item.strip()]`: the
      tokens of `get_values`. */
  function Tokens(s: string, delimiter: string): seq<string>
    requires delimiter != ""
  {
    NonBlank(StripAll(Split(s, delimiter)))
  }

  /** Every token is non-empty and has no surrounding whitespace. */
  lemma TokensAreClean(s: string, delimiter: string)
    requires delimiter != ""
    ensures forall t | t in Tokens(s, delimiter) :: t != "" && Strip(t) == t
  {
    var parts := Split(s, delimiter);
    NonBlankCounts(StripAll(parts));
    forall t | t in Tokens(s, delimiter) ensures t != "" && Strip(t) == t {
      assert t in multiset(Tokens(s, delimiter));
      assert t in multiset(StripAll(parts));
      var k :| 0 <= k < |parts| && StripAll(parts)[k] == t;
      StripIdempotent(parts[k]);
    }
  }

  /** `[v.strip() for v in line.split(delimiter) if v]`: the pieces of
      `match_values`. The emptiness test comes before stripping, so a piece
      made of whitespace survives as an empty string. */
  function Pieces(line: string, delimiter: string): seq<string>
    requires delimiter != ""
  {
    StripAll(NonBlank(Split(line, delimiter)))
  }

  /** Dropping the empty pieces of `match_values` gives the tokens of
      `get_values`: the two differ only in the pieces made of whitespace,
      which `match_values` keeps as empty strings. */
  lemma PiecesAndTokens(line: string, delimiter: string)
    requires delimiter != ""
    ensures NonBlank(Pieces(line, delimiter)) == Tokens(line, delimiter)
  {
    FilterStripFilter(Split(line, delimiter));
  }

  lemma {:induction false} FilterStripFilter(xs: seq<string>)
    ensures NonBlank(StripAll(NonBlank(xs))) == NonBlank(StripAll(xs))
  {
    if xs != [] {
      var x, rest := xs[0], xs[1..];
      assert xs == [x] + rest;
      FilterStripFilter(rest);
      StripAllCons(x, rest);
      NonBlankCons(Strip(x), StripAll(rest));
      NonBlankCons(x, rest);
      var head := if Strip(x) == "" then [] else [Strip(x)];
      assert NonBlank(StripAll(xs)) == head + NonBlank(StripAll(rest));
      if x != "" {
        assert NonBlank(xs) == [x] + NonBlank(rest);
        StripAllCons(x, NonBlank(rest));
        NonBlankCons(Strip(x), StripAll(NonBlank(rest)));
        assert NonBlank(StripAll(NonBlank(xs))) == head + NonBlank(StripAll(NonBlank(rest)));
      } else {
        assert Strip(x) == "";
        assert NonBlank(xs) == NonBlank(rest);
      }
    }
  }

  lemma StripAllCons(x: string, ys: seq<string>)
    ensures StripAll([x] + ys) == [Strip(x)] + StripAll(ys)
  {
  }

  lemma NonBlankCons(x: string, ys: seq<string>)
    ensures NonBlank([x] + ys) == (if x == "" then [] else [x]) + NonBlank(ys)
  {
    assert ([x] + ys)[1..] == ys;
  }

  /** A piece of the split line that is not empty but all whitespace is kept
      by `match_values` as `""`, and only such a piece gives `""` there;
      `get_values` never yields an empty token. */
  lemma BlankPieceSurvives(line: string, delimiter: string)
    requires delimiter != ""
    ensures "" in Pieces(line, delimiter)
            <==> exists p | p in Split(line, delimiter) :: p != "" && Strip(p) == ""
    ensures "" !in Tokens(line, delimiter)
  {
    var parts := Split(line, delimiter);
    var kept := NonBlank(parts);
    NonBlankCounts(parts);
    if "" in Pieces(line, delimiter) {
      var k :| 0 <= k < |kept| && Pieces(line, delimiter)[k] == "";
      assert kept[k] in multiset(kept);
      assert kept[k] in parts && kept[k] != "" && Strip(kept[k]) == "";
    }
    if p :| p in parts && p != "" && Strip(p) == "" {
      assert p in multiset(kept);
      var k :| 0 <= k < |kept| && kept[k] == p;
      assert Pieces(line, delimiter)[k] == "";
    }
    TokensAreClean(line, delimiter);
  }

  // ---------------------------------------------------------------- get_values

  /** What the loop does with one line read. */
  function ValuesDecision(d: Option<PyValue>, delimiter: string, line: string): Step<PyValue>
    requires delimiter != ""
  {
    var inp := Strip(line);
    if inp == "" && d.Some? then Stop(d.value)
    else
      var items := Tokens(inp, delimiter);
      if inp != "" && items != [] then Stop(PyList(items)) else Retry
  }

  function ValuesStep(d: Option<PyValue>, delimiter: string): string -> Step<PyValue>
    requires delimiter != ""
  {
    line => ValuesDecision(d, delimiter, line)
  }

  /** `get_values`, up to the casting of the tokens: reads until the stripped
      line has at least one token, or is empty while a default is set. */
  method GetValues(input: seq<string>, delimiter: string, default: Option<PyValue>, allowEmpty: bool)
    returns (r: Answer<PyValue>)
    requires delimiter != ""
    ensures IsFirstStop(input, ValuesStep(EffectiveDefault(default, allowEmpty), delimiter), r)
  {
    var d := EffectiveDefault(default, allowEmpty);
    var i := 0;
    var inp := "";
    var items: seq<string> := [];
    while !(inp != "" && items != [])
      invariant 0 <= i <= |input|
      invariant forall j | 0 <= j < i - 1 :: ValuesStep(d, delimiter)(input[j]).Retry?
      invariant i == 0 ==> items == []
      invariant i > 0 ==> inp == Strip(input[i - 1]) && !(inp == "" && d.Some?) && items == Tokens(inp, delimiter)
      decreases |input| - i
    {
      assert forall j | 0 <= j < i :: ValuesStep(d, delimiter)(input[j]).Retry?;
      if i == |input| {
        return RanOut;
      }
      var line := input[i];
      inp := Strip(line);
      i := i + 1;
      assert input[i - 1] == line;
      if inp == "" && d.Some? {
        return Answered(d.value, i);
      }
      items := Tokens(inp, delimiter);
    }
    return Answered(PyList(items), i);
  }

  // ---------------------------------------------------------------- get_lines

  /** `get_lines`: reads every line up to the end of input, stripping each;
      without `allowEmpty` the empty ones are then dropped. */
  method GetLines(input: seq<string>, allowEmpty: bool) returns (lines: seq<string>)
    ensures allowEmpty ==> |lines| == |input| && forall k | 0 <= k < |input| :: lines[k] == Strip(input[k])
    ensures !allowEmpty ==> lines == NonBlank(StripAll(input))
  {
    lines := [];
    var i := 0;
    while i < |input|
      invariant 0 <= i <= |input|
      invariant lines == StripAll(input[..i])
    {
      lines := lines + [Strip(input[i])];
      i := i + 1;
    }
    assert input[..i] == input;
    if !allowEmpty {
      lines := NonBlank(lines);
    }
  }

  // ---------------------------------------------------------------- get_selection

  /** A key with the label the menu gives it, if any. */
  datatype Selection<V> = Selection(key: PyValue, entry: Option<V>)

  /** What an empty line selects: the default with its label when it is a
      key of the menu, and with no label otherwise. */
  function DefaultSelection<V>(menu: map<string, V>, default: PyValue): Selection<V>
  {
    if default.PyStr? && default.s in menu then Selection(default, Some(menu[default.s]))
    else Selection(default, None)
  }

  /** What the loop does with one line read. */
  function SelectionDecision<V>(menu: map<string, V>, d: Option<PyValue>, line: string): Step<Selection<V>>
  {
    var key := Strip(line);
    if key == "" && d.Some? then Stop(DefaultSelection(menu, d.value))
    else if key in menu then Stop(Selection(PyStr(key), Some(menu[key])))
    else Retry
  }

  function SelectionStep<V>(menu: map<string, V>, d: Option<PyValue>): string -> Step<Selection<V>>
  {
    line => SelectionDecision(menu, d, line)
  }

  /** `get_selection`, without the menu display: reads until the stripped
      line is a key of the menu, or is empty while a default is set. A label
      returned is always the menu's label of the key returned. */
  method GetSelection<V>(input: seq<string>, menu: map<string, V>, default: Option<PyValue>, allowEmpty: bool)
    returns (r: Answer<Selection<V>>)
    ensures IsFirstStop(input, SelectionStep(menu, EffectiveDefault(default, allowEmpty)), r)
    ensures r.Answered? && r.value.entry.Some? ==>
              r.value.key.PyStr? && r.value.key.s in menu && r.value.entry.value == menu[r.value.key.s]
    ensures r.Answered? && r.value.entry.None? ==>
              Some(r.value.key) == EffectiveDefault(default, allowEmpty) && !(r.value.key.PyStr? && r.value.key.s in menu)
  {
    var d := EffectiveDefault(default, allowEmpty);
    var i := 0;
    var key: Option<string> := None;
    while !(key.Some? && key.value in menu)
      invariant 0 <= i <= |input|
      invariant forall j | 0 <= j < i - 1 :: SelectionStep(menu, d)(input[j]).Retry?
      invariant key.None? <==> i == 0
      invariant key.Some? ==> key.value == Strip(input[i - 1]) && !(key.value == "" && d.Some?)
      decreases |input| - i
    {
      assert forall j | 0 <= j < i :: SelectionStep(menu, d)(input[j]).Retry?;
      if i == |input| {
        return RanOut;
      }
      var line := Strip(input[i]);
      i := i + 1;
      if line == "" && d.Some? {
        return Answered(DefaultSelection(menu, d.value), i);
      }
      key := Some(line);
    }
    return Answered(Selection(PyStr(key.value), Some(menu[key.value])), i);
  }

  /** With the menu `{"1": "Yes", "2": "No"}`, the line `1` selects `("1",
      "Yes")`, and an empty line with the default `"2"` selects `("2", "No")`. */
  lemma SelectionExample()
    ensures SelectionStep(map["1" := "Yes", "2" := "No"], None)("1") == Stop(Selection(PyStr("1"), Some("Yes")))
    ensures SelectionStep(map["1" := "Yes", "2" := "No"], Some(PyStr("2")))("") == Stop(Selection(PyStr("2"), Some("No")))
  {
    assert Strip("1") == "1" by {
      assert TrimStart("1") == "1";
      assert TrimEnd("1") == "1";
    }
  }

  // ---------------------------------------------------------------- the default short-circuit

  /** An empty stripped line, with a default set, ends every prompt with the
      default, before any validation: even a default that the prompt would
      reject as input (the empty string for `get_int`) is returned. */
  lemma DefaultShortCircuit<V>(d: Option<PyValue>, line: string, delimiter: string, menu: map<string, V>)
    requires d.Some? && Strip(line) == "" && delimiter != ""
    ensures YnStep(d)(line) == Stop(d.value)
    ensures IntStep(d)(line) == Stop(d.value)
    ensures LineStep(d)(line) == Stop(d.value)
    ensures AlphaStep(d)(line) == Stop(d.value)
    ensures AlnumStep(d)(line) == Stop(d.value)
    ensures EmailStep(d)(line) == Stop(d.value)
    ensures ValuesStep(d, delimiter)(line) == Stop(d.value)
    ensures SelectionStep(menu, d)(line) == Stop(DefaultSelection(menu, d.value))
    ensures line == "" ==> StrStep(d)(line) == Stop(d.value)
  {
  }

  // ---------------------------------------------------------------- match_value, match_values, match_pwd

  /** The index of the first element of `xs` that satisfies `p`, or `|xs|`. */
  function FirstWhere(xs: seq<string>, p: string -> bool): (i: nat)
    ensures i <= |xs|
    ensures forall j | 0 <= j < i :: !p(xs[j])
    ensures i < |xs| ==> p(xs[i])
  {
    if xs == [] then 0 else if p(xs[0]) then 0 else 1 + FirstWhere(xs[1..], p)
  }

  function Equals(target: string): string -> bool
  {
    line => line == target
  }

  /** The pieces of `line` are the targets, each as often. */
  function SameTokens(targets: seq<string>, delimiter: string): string -> bool
    requires delimiter != ""
  {
    line => HasTargets(targets, delimiter, line)
  }

  predicate HasTargets(targets: seq<string>, delimiter: string, line: string)
    requires delimiter != ""
  {
    multiset(Pieces(line, delimiter)) == multiset(targets)
  }

  /** What an attempt-budget loop returns when the first matching line is at
      index `hit` of `n` lines (`hit == n` when none matches). A negative
      budget is never reached, so the loop waits for a match; a budget `N`
      allows `N` reads, but the result is `attempts != N`, so a match on the
      last permitted read reports false. */
  function BudgetOutcome(hit: nat, n: nat, maxAttempts: int): (r: Answer<bool>)
    requires hit <= n
    ensures r.Answered? ==> r.consumed <= n
    ensures 0 <= maxAttempts && r.Answered? ==> r.consumed <= maxAttempts
    ensures maxAttempts < 0 ==> r == if hit < n then Answered(true, hit + 1) else RanOut
    ensures 0 <= maxAttempts ==> (r.RanOut? <==> hit == n && n < maxAttempts)
    ensures 0 <= maxAttempts && r.Answered? ==> (r.value <==> hit < n && hit + 1 < maxAttempts)
    ensures maxAttempts == 0 ==> r == Answered(false, 0)
  {
    if 0 <= maxAttempts <= hit then Answered(false, maxAttempts)
    else if hit < n then Answered(hit + 1 != maxAttempts, hit + 1)
    else RanOut
  }

  /** An attempt-budget loop that left after `attempts` reads, because the
      last line read matched or the budget was used up, having seen no match
      before, ends as `BudgetOutcome` says. */
  lemma BudgetAtExit(xs: seq<string>, p: string -> bool, attempts: nat, maxAttempts: int)
    requires attempts <= |xs| && (0 <= maxAttempts ==> attempts <= maxAttempts)
    requires forall j | 0 <= j < attempts - 1 :: !p(xs[j])
    requires (attempts > 0 && p(xs[attempts - 1])) || attempts == maxAttempts
    ensures BudgetOutcome(FirstWhere(xs, p), |xs|, maxAttempts) == Answered(attempts != maxAttempts, attempts)
  {
    var hit := FirstWhere(xs, p);
    if attempts > 0 && p(xs[attempts - 1]) {
      assert hit == attempts - 1;
    } else {
      assert attempts - 1 <= hit;
    }
  }

  /** An attempt-budget loop that read every line without a match and
      without using up its budget runs out. */
  lemma BudgetRanOut(xs: seq<string>, p: string -> bool, maxAttempts: int)
    requires forall j | 0 <= j < |xs| - 1 :: !p(xs[j])
    requires |xs| > 0 ==> !p(xs[|xs| - 1])
    requires 0 <= maxAttempts ==> |xs| < maxAttempts
    ensures BudgetOutcome(FirstWhere(xs, p), |xs|, maxAttempts) == RanOut
  {
    assert FirstWhere(xs, p) == |xs|;
  }

  /** `match_value`: reads, unstripped, until a line equals the target or
      `maxAttempts` lines have been read. */
  method MatchValue(input: seq<string>, target: string, maxAttempts: int) returns (r: Answer<bool>)
    ensures r == BudgetOutcome(FirstWhere(input, Equals(target)), |input|, maxAttempts)
  {
    var attempts := 0;
    var inp: Option<string> := None;
    while inp != Some(target) && attempts != maxAttempts
      invariant 0 <= attempts <= |input|
      invariant inp.None? <==> attempts == 0
      invariant inp.Some? ==> inp.value == input[attempts - 1]
      invariant forall j | 0 <= j < attempts - 1 :: !Equals(target)(input[j])
      invariant 0 <= maxAttempts ==> attempts <= maxAttempts
      decreases |input| - attempts
    {
      if attempts == |input| {
        return RanOut;
      }
      inp := Some(input[attempts]);
      attempts := attempts + 1;
    }
    return Answered(attempts != maxAttempts, attempts);
  }

  /** `match_pwd`: the loop of `match_value` over the no-echo password stream. */
  method MatchPwd(input: seq<string>, target: string, maxAttempts: int) returns (r: Answer<bool>)
    ensures r == BudgetOutcome(FirstWhere(input, Equals(target)), |input|, maxAttempts)
  {
    r := MatchValue(input, target, maxAttempts);
  }

  /** `match_values`: reads until the pieces of a line are the targets up to
      order (`sorted(pieces) == sorted(targets)`) or `maxAttempts` lines have
      been read. The comparison is made once before any read, so no targets
      at all succeed at once, unless the budget is 0. */
  method MatchValues(input: seq<string>, targets: seq<string>, maxAttempts: int, delimiter: string)
    returns (r: Answer<bool>)
    requires delimiter != ""
    ensures targets == [] ==> r == Answered(maxAttempts != 0, 0)
    ensures targets != [] ==> r == BudgetOutcome(FirstWhere(input, SameTokens(targets, delimiter)), |input|, maxAttempts)
  {
    var attempts := 0;
    var inps: seq<string> := [];
    assert Sort(targets) == [] <==> targets == [] by { SortSpec(targets); }
    while Sort(inps) != Sort(targets) && attempts != maxAttempts
      invariant 0 <= attempts <= |input|
      invariant attempts == 0 ==> inps == []
      invariant targets == [] ==> attempts == 0
      invariant attempts > 0 ==> (Sort(inps) == Sort(targets) <==> HasTargets(targets, delimiter, input[attempts - 1]))
      invariant forall j | 0 <= j < attempts - 1 :: !HasTargets(targets, delimiter, input[j])
      invariant 0 <= maxAttempts ==> attempts <= maxAttempts
      decreases |input| - attempts
    {
      assert forall j | 0 <= j < attempts :: !HasTargets(targets, delimiter, input[j]);
      if attempts == |input| {
        if targets != [] {
          BudgetRanOut(input, SameTokens(targets, delimiter), maxAttempts);
        }
        return RanOut;
      }
      var line := input[attempts];
      inps := Pieces(line, delimiter);
      SortedPiecesMatch(targets, delimiter, line);
      attempts := attempts + 1;
      assert input[attempts - 1] == line;
    }
    if targets != [] {
      BudgetAtExit(input, SameTokens(targets, delimiter), attempts, maxAttempts);
    }
    return Answered(attempts != maxAttempts, attempts);
  }

  /** The test of `match_values`, `sorted(pieces) == sorted(targets)`, holds
      exactly when the pieces are the targets up to order. */
  lemma SortedPiecesMatch(targets: seq<string>, delimiter: string, line: string)
    requires delimiter != ""
    ensures Sort(Pieces(line, delimiter)) == Sort(targets) <==> HasTargets(targets, delimiter, line)
  {
    SortedEqual(Pieces(line, delimiter), targets);
  }

  // ---------------------------------------------------------------- the last-attempt finding

  /** The outcome the attempt-budget loops evidently intend: true exactly
      when a match came within the budget. */
  function IntendedOutcome(hit: nat, n: nat, maxAttempts: int): (r: Answer<bool>)
    requires hit <= n
    ensures r.Answered? ==> r.consumed <= n
    ensures 0 <= maxAttempts && r.Answered? ==> r.consumed <= maxAttempts
    ensures maxAttempts < 0 ==> r == if hit < n then Answered(true, hit + 1) else RanOut
    ensures 0 <= maxAttempts ==> (r.RanOut? <==> hit == n && n < maxAttempts)
    ensures 0 <= maxAttempts && r.Answered? ==> (r.value <==> hit < n && hit < maxAttempts)
  {
    if 0 <= maxAttempts <= hit then Answered(false, maxAttempts)
    else if hit < n then Answered(true, hit + 1)
    else RanOut
  }

  /** `match_value` with the result taken from the comparison rather than
      from the attempt count. */
  method MatchValueWithinBudget(input: seq<string>, target: string, maxAttempts: int) returns (r: Answer<bool>)
    ensures r == IntendedOutcome(FirstWhere(input, Equals(target)), |input|, maxAttempts)
  {
    var attempts := 0;
    var inp: Option<string> := None;
    while inp != Some(target) && attempts != maxAttempts
      invariant 0 <= attempts <= |input|
      invariant inp.None? <==> attempts == 0
      invariant inp.Some? ==> inp.value == input[attempts - 1]
      invariant forall j | 0 <= j < attempts - 1 :: !Equals(target)(input[j])
      invariant 0 <= maxAttempts ==> attempts <= maxAttempts
      decreases |input| - attempts
    {
      if attempts == |input| {
        return RanOut;
      }
      inp := Some(input[attempts]);
      attempts := attempts + 1;
    }
    return Answered(inp == Some(target), attempts);
  }

  /** The loop as written and as intended disagree exactly when the first
      match is on the last permitted read. */
  lemma LastAttemptIsTheOnlyDifference(hit: nat, n: nat, maxAttempts: int)
    requires hit <= n
    ensures (BudgetOutcome(hit, n, maxAttempts) != IntendedOutcome(hit, n, maxAttempts))
              <==> (hit < n && hit + 1 == maxAttempts)
    ensures hit < n && hit + 1 == maxAttempts ==>
              BudgetOutcome(hit, n, maxAttempts) == Answered(false, maxAttempts)
              && IntendedOutcome(hit, n, maxAttempts) == Answered(true, maxAttempts)
  {
  }

  /** With a budget of two reads, a wrong guess followed by the target is
      reported as a failure. */
  method LastAttemptCounterexample() returns (r: Answer<bool>)
    ensures r == Answered(false, 2)
  {
    var input := ["guess", "secret"];
    assert FirstWhere(input, Equals("secret")) == 1 by {
      assert !Equals("secret")(input[0]) && Equals("secret")(input[1]);
    }
    r := MatchValue(input, "secret", 2);
  }
}

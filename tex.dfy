/** The text side of formula rendering: substituting variable values into a
    TeX template through the five `\XVAR{v}` macros, formatting a proper
    fraction as TeX, and turning a solution's numbers into the strings the
    templates receive. Rendering the TeX to an image is not modelled. */
module TexImageGenerator {
  import opened Wrappers
  import opened Numeric
  import opened Strings

  /** The exceptions substitution can raise: a macro opening with nothing
      after it, and a variable the mapping lacks. */
  datatype TexError = IndexError | KeyError(name: string)

  datatype Macro = Var | BVar | SVar | CVar | CSVar

  /** The macros in the order the substitution applies them. */
  const MacroOrder: seq<Macro> := [Var, BVar, SVar, CVar, CSVar]

  function MacroName(m: Macro): string {
    match m
    case Var => "VAR"
    case BVar => "BVAR"
    case SVar => "SVAR"
    case CVar => "CVAR"
    case CSVar => "CSVAR"
  }

  /** The text that opens a macro call, `\NAME{`. */
  function Opening(m: Macro): (s: string)
    ensures |s| > 0 && s[0] == '\\' && s[|s| - 1] == '{'
  {
    "\\" + MacroName(m) + "{"
  }

  /** The value with an explicit sign: `+` is prefixed unless the value
      already starts with `-`. */
  function Signed(value: string): (r: string)
    ensures |r| > 0 && (r[0] == '+' || r[0] == '-')
    ensures r == "+" + value <==> !StartsWith(value, "-")
    ensures StartsWith(value, "-") ==> r == value
  {
    if StartsWith(value, "-") then value
    else
      assert ("+" + value)[0] == '+';
      "+" + value
  }

  /** What a macro makes of a variable's value: `VAR` the value itself,
      `BVAR` the value in parentheses when negative, `SVAR` the value with
      an explicit sign, `CVAR` a coefficient that hides the digit of `1` and
      `-1`, `CSVAR` a signed coefficient that does the same. */
  function Expand(m: Macro, value: string): (r: string)
    ensures m == Var ==> r == value
    ensures m == BVar ==> !StartsWith(r, "-")
    ensures m == BVar ==> (r == "(" + value + ")" <==> StartsWith(value, "-"))
    ensures m == BVar && !StartsWith(value, "-") ==> r == value
    ensures (m == SVar || m == CSVar) ==> |r| > 0 && (r[0] == '+' || r[0] == '-')
    ensures m == SVar ==> r == Signed(value)
    ensures m == CVar ==> (r == "" <==> value == "1" || value == "")
    ensures m == CVar && value == "-1" ==> r == "-"
    ensures m == CVar && value != "1" && value != "-1" ==> r == value
    ensures m == CSVar && value == "1" ==> r == "+"
    ensures m == CSVar && value == "-1" ==> r == "-"
    ensures m == CSVar && value != "1" && value != "-1" ==> r == Signed(value)
  {
    match m
    case Var => value
    case BVar =>
      if StartsWith(value, "-") then
        assert ("(" + value + ")")[0] == '(';
        assert |"(" + value + ")"| != |value|;
        "(" + value + ")"
      else value
    case SVar => Signed(value)
    case CVar => if value == "-1" then "-" else if value == "1" then "" else value
    case CSVar =>
      if value == "-1" then "-"
      else if value == "1" then "+"
      else Signed(value)
  }

  /** `part[2:]`: what follows the argument and the character after it. */
  function AfterArgument(part: string): string {
    if |part| >= 2 then part[2..] else ""
  }

  /** One piece after a macro opening: its first character names the
      variable, the second is dropped, and the rest follows the value. */
  function ExpandPart(m: Macro, part: string, variables: map<string, string>): (r: Result<seq<string>, TexError>)
    ensures r.Failure? <==> |part| == 0 || part[..1] !in variables
    ensures |part| == 0 ==> r == Failure(IndexError)
    ensures r.Success? ==>
      |part| > 0 && [part[0]] in variables && r.value == [Expand(m, variables[[part[0]]]), AfterArgument(part)]
  {
    if |part| == 0 then Failure(IndexError)
    else
      var name := part[..1];
      if name !in variables then Failure(KeyError(name))
      else
        assert name == [part[0]];
        Success([Expand(m, variables[name]), AfterArgument(part)])
  }

  /** The expansions of the first `n` pieces, stopping at the first error. */
  function ExpandedPrefix(m: Macro, parts: seq<string>, n: nat, variables: map<string, string>): (r: Result<seq<string>, TexError>)
    requires n <= |parts|
    ensures r.Success? ==> |r.value| == 2 * n
  {
    if n == 0 then Success([])
    else
      var front :- ExpandedPrefix(m, parts, n - 1, variables);
      var last :- ExpandPart(m, parts[n - 1], variables);
      Success(front + last)
  }

  lemma {:induction false} ExpandedPrefixFailureIsFinal(m: Macro, parts: seq<string>, j: nat, n: nat, variables: map<string, string>)
    requires j <= n <= |parts|
    requires ExpandedPrefix(m, parts, j, variables).Failure?
    ensures ExpandedPrefix(m, parts, n, variables) == ExpandedPrefix(m, parts, j, variables)
    decreases n - j
  {
    if j < n {
      ExpandedPrefixFailureIsFinal(m, parts, j + 1, n, variables);
    }
  }

  /** One macro over the whole formula: split at every opening, keep the
      first piece, expand the others and concatenate. */
  function ApplyMacro(m: Macro, formula: string, variables: map<string, string>): Result<string, TexError> {
    JoinExpanded(m, Split(formula, Opening(m)), variables)
  }

  /** The first piece followed by the expansions of the others. */
  function JoinExpanded(m: Macro, parts: seq<string>, variables: map<string, string>): Result<string, TexError>
    requires |parts| >= 1
  {
    var expanded :- ExpandedPrefix(m, parts[1..], |parts| - 1, variables);
    Success(Join([parts[0]] + expanded, ""))
  }

  /** The macros from position `i` of `MacroOrder` on, applied in order
      to `text`; the first error ends the substitution. */
  function ReplaceFrom(text: string, variables: map<string, string>, i: nat): Result<string, TexError>
    requires i <= |MacroOrder|
    decreases |MacroOrder| - i
  {
    if i == |MacroOrder| then Success(text)
    else
      var applied :- ApplyMacro(MacroOrder[i], text, variables);
      ReplaceFrom(applied, variables, i + 1)
  }

  /** `replace_vars_in_formula(tex_formula, variables)`. */
  method ReplaceVarsInFormula(formula: string, variables: map<string, string>) returns (r: Result<string, TexError>)
    ensures r == ReplaceFrom(formula, variables, 0)
  {
    var output := formula;
    for i := 0 to |MacroOrder|
      invariant ReplaceFrom(formula, variables, 0) == ReplaceFrom(output, variables, i)
    {
      var applied := ApplyMacroOnce(MacroOrder[i], output, variables);
      if applied.Failure? {
        return applied;
      }
      output := applied.value;
    }
    return Success(output);
  }

  /** The body of the loop over the macros: split, expand the pieces one
      by one into `result`, join. */
  method ApplyMacroOnce(m: Macro, formula: string, variables: map<string, string>) returns (r: Result<string, TexError>)
    ensures r == ApplyMacro(m, formula, variables)
  {
    var parts := Split(formula, Opening(m));
    r := ExpandPieces(m, parts, variables);
  }

  method ExpandPieces(m: Macro, parts: seq<string>, variables: map<string, string>) returns (r: Result<string, TexError>)
    requires |parts| >= 1
    ensures r == JoinExpanded(m, parts, variables)
  {
    var pieces := parts[1..];
    var expanded := [];
    for j := 0 to |pieces|
      invariant ExpandedPrefix(m, pieces, j, variables) == Success(expanded)
    {
      var expansion := ExpandPart(m, pieces[j], variables);
      if expansion.Failure? {
        ExpansionFailure(m, pieces, j, variables, expanded);
        JoinExpandedFailure(m, parts, variables);
        return Failure(expansion.error);
      }
      ExpandedPrefixStep(m, pieces, j, variables, expanded);
      expanded := expanded + expansion.value;
    }
    var result := [parts[0]] + expanded;
    assert JoinExpanded(m, parts, variables) == Success(Join(result, ""));
    return Success(Join(result, ""));
  }

  /** When a piece fails, so does the whole macro, with that error. */
  lemma JoinExpandedFailure(m: Macro, parts: seq<string>, variables: map<string, string>)
    requires |parts| >= 1 && ExpandedPrefix(m, parts[1..], |parts| - 1, variables).Failure?
    ensures JoinExpanded(m, parts, variables) == Failure(ExpandedPrefix(m, parts[1..], |parts| - 1, variables).error)
  {
  }

  /** A piece that fails to expand decides the result of all pieces. */
  lemma ExpansionFailure(m: Macro, pieces: seq<string>, j: nat, variables: map<string, string>, front: seq<string>)
    requires j < |pieces| && ExpandedPrefix(m, pieces, j, variables) == Success(front)
    requires ExpandPart(m, pieces[j], variables).Failure?
    ensures ExpandedPrefix(m, pieces, |pieces|, variables) == Failure(ExpandPart(m, pieces[j], variables).error)
  {
    ExpandedPrefixStep(m, pieces, j, variables, front);
    ExpandedPrefixFailureIsFinal(m, pieces, j + 1, |pieces|, variables);
  }

  lemma ExpandedPrefixStep(m: Macro, pieces: seq<string>, j: nat, variables: map<string, string>, front: seq<string>)
    requires j < |pieces| && ExpandedPrefix(m, pieces, j, variables) == Success(front)
    ensures ExpandedPrefix(m, pieces, j + 1, variables) ==
      match ExpandPart(m, pieces[j], variables)
      case Failure(e) => Failure(e)
      case Success(last) => Success(front + last)
  {
  }

  /** A macro whose opening does not occur leaves the formula as it is. */
  lemma AbsentMacroChangesNothing(m: Macro, formula: string, variables: map<string, string>)
    requires !Contains(formula, Opening(m))
    ensures ApplyMacro(m, formula, variables) == Success(formula)
  {
    assert Split(formula, Opening(m)) == [formula];
  }

  /** A formula without any macro call comes back unchanged, whatever the
      variables. */
  lemma NoMacroNoChange(formula: string, variables: map<string, string>)
    requires forall m :: !Contains(formula, Opening(m))
    ensures ReplaceFrom(formula, variables, 0) == Success(formula)
  {
    NoMacroFrom(formula, variables, 0);
  }

  lemma {:induction false} NoMacroFrom(formula: string, variables: map<string, string>, i: nat)
    requires i <= |MacroOrder|
    requires forall m :: !Contains(formula, Opening(m))
    ensures ReplaceFrom(formula, variables, i) == Success(formula)
    decreases |MacroOrder| - i
  {
    if i < |MacroOrder| {
      AbsentMacroChangesNothing(MacroOrder[i], formula, variables);
      NoMacroFrom(formula, variables, i + 1);
    }
  }

  /** A single call `\NAME{xc` followed by macro-free text: the argument is
      the one character `x`, the character `c` after it is dropped whatever
      it is, and the call is replaced by the macro's expansion of `x`'s
      value; an unknown `x` raises `KeyError`. */
  lemma MacroTakesOneCharacter(m: Macro, pre: string, x: char, c: char, post: string, variables: map<string, string>)
    requires !Contains(pre + Opening(m)[..|Opening(m)| - 1], Opening(m))
    requires !Contains([x, c] + post, Opening(m))
    ensures [x] in variables ==> ApplyMacro(m, pre + Opening(m) + [x, c] + post, variables) == Success(pre + Expand(m, variables[[x]]) + post)
    ensures [x] !in variables ==> ApplyMacro(m, pre + Opening(m) + [x, c] + post, variables) == Failure(KeyError([x]))
  {
    var sep := Opening(m);
    var tail := [x, c] + post;
    assert pre + sep + [x, c] + post == pre + sep + tail;
    SplitOnce(sep, pre, tail);
    TwoPieces(m, pre, tail, variables);
    assert tail[..1] == [x] && tail[0] == x;
    assert AfterArgument(tail) == post;
  }

  /** The only opening in `pre + sep + tail` is the one between them. */
  lemma SplitOnce(sep: string, pre: string, tail: string)
    requires |sep| > 0 && !Contains(pre + sep[..|sep| - 1], sep) && !Contains(tail, sep)
    ensures Split(pre + sep + tail, sep) == [pre, tail]
  {
    SplitAtFirst(pre, sep, tail);
    assert Split(tail, sep) == [tail];
  }

  /** Two pieces: the first kept, the second expanded. */
  lemma TwoPieces(m: Macro, pre: string, tail: string, variables: map<string, string>)
    ensures JoinExpanded(m, [pre, tail], variables) ==
      match ExpandPart(m, tail, variables)
      case Failure(e) => Failure(e)
      case Success(last) => Success(pre + last[0] + last[1])
  {
    assert [pre, tail][1..] == [tail];
    ExpandedPrefixStep(m, [tail], 0, variables, []);
    match ExpandPart(m, tail, variables)
    case Failure(e) =>
    case Success(last) =>
      assert [] + last == last;
      assert ExpandedPrefix(m, [tail], 1, variables) == Success(last);
      assert [pre] + last == [pre, last[0], last[1]];
      JoinThree(pre, last[0], last[1]);
  }

  lemma JoinThree(a: string, b: string, c: string)
    ensures Join([a, b, c], "") == a + b + c
  {
    assert [a, b, c][1..] == [b, c];
    assert [b, c][1..] == [c];
    assert Join([b, c], "") == b + "" + c;
    assert b + "" + c == b + c;
    assert a + "" + (b + c) == a + b + c;
  }

  /** An opening at the very end of the formula has no argument and raises
      `IndexError`. */
  lemma OpeningAtEndRaises(m: Macro, pre: string, variables: map<string, string>)
    requires !Contains(pre + Opening(m)[..|Opening(m)| - 1], Opening(m))
    ensures ApplyMacro(m, pre + Opening(m), variables) == Failure(IndexError)
  {
    var sep := Opening(m);
    assert pre + sep + "" == pre + sep;
    assert !Contains("", sep);
    SplitOnce(sep, pre, "");
    TwoPieces(m, pre, "", variables);
  }

  /** `float_to_tex_proper_fraction(number)`, given the fraction
      `Fraction(number).limit_denominator(100)`: a whole number is written
      as an integer, anything else as an optionally negated `\frac{p}{q}`. */
  function FloatToTexProperFraction(number: real, fraction: Fraction): string
    requires fraction.denominator > 0
  {
    if fraction.denominator == 1 then IntToString(Trunc(number))
    else (if fraction.numerator < 0 then "-" else "") + FracText(Abs(fraction.numerator), fraction.denominator)
  }

  /** `\frac{n}{d}`. */
  function FracText(n: nat, d: nat): string {
    FracOpen + NatToString(n) + FracMiddle + NatToString(d) + "}"
  }

  const FracOpen: string := "\\frac{"
  const FracMiddle: string := "}{"

  /** The number a TeX string produced above stands for: an integer, or an
      optionally negated `\frac{p}{q}` with decimal `p` and `q > 0`. */
  function ParseTexNumber(s: string): Option<real> {
    match ParseInt(s)
    case Some(n) => Some(n as real)
    case None =>
      var negative := |s| > 0 && s[0] == '-';
      var v :- ParseFraction(if negative then s[1..] else s);
      Some(if negative then -v else v)
  }

  /** `\frac{p}{q}` with decimal `p` and `q > 0`, read as `p / q`. */
  function ParseFraction(body: string): Option<real> {
    if StartsWith(body, FracOpen) && |body| > |FracOpen| && body[|body| - 1] == '}' then
      ParseQuotient(body[|FracOpen|..|body| - 1])
    else None
  }

  /** `p}{q`, split at the first `}{`, read as `p / q`. */
  function ParseQuotient(inner: string): Option<real> {
    match FindFrom(inner, FracMiddle, 0)
    case None => None
    case Some(i) =>
      var p, q := inner[..i], inner[i + |FracMiddle|..];
      if !IsDigits(p) || !IsDigits(q) || DigitsValue(q) == 0 then None
      else Some(DigitsValue(p) as real / DigitsValue(q) as real)
  }

  /** Reading the TeX back gives the number, whenever the fraction is the
      number itself (`limit_denominator` changed nothing). */
  lemma ProperFractionRoundTrip(number: real, fraction: Fraction)
    requires fraction.denominator > 0 && fraction.Value() == number
    ensures ParseTexNumber(FloatToTexProperFraction(number, fraction)) == Some(number)
  {
    if fraction.denominator == 1 {
      WholeFractionRoundTrip(number, fraction.numerator);
    } else {
      FracRoundTrip(fraction.numerator, fraction.denominator);
    }
  }

  /** A whole number is written as `str(int(number))` and reads back. */
  lemma WholeFractionRoundTrip(number: real, n: int)
    requires number == n as real
    ensures ParseTexNumber(IntToString(Trunc(number))) == Some(number)
  {
    assert Trunc(number) == n;
    IntToStringRoundTrip(n);
  }

  /** An optionally negated `\frac{|n|}{d}` reads back as `n / d`. */
  lemma FracRoundTrip(n: int, d: int)
    requires d > 1
    ensures ParseTexNumber((if n < 0 then "-" else "") + FracText(Abs(n), d)) == Some(n as real / d as real)
  {
    var body := FracText(Abs(n), d);
    assert body[0] == '\\';
    FractionTextParses(Abs(n), d);
    SignedQuotientParses(n, d, body);
  }

  /** Restoring the sign of `|n| / d` gives `n / d`. */
  lemma SignedQuotientParses(n: int, d: int, body: string)
    requires d > 0 && |body| > 0 && body[0] == '\\'
    requires ParseFraction(body) == Some(Abs(n) as real / d as real)
    ensures ParseTexNumber((if n < 0 then "-" else "") + body) == Some(n as real / d as real)
  {
    var v := Abs(n) as real / d as real;
    SignedFractionParses(n < 0, body, v);
    SignedQuotient(n, d);
  }

  lemma SignedQuotient(n: int, d: int)
    requires d > 0
    ensures (if n < 0 then -(Abs(n) as real / d as real) else Abs(n) as real / d as real) == n as real / d as real
  {
  }

  /** A fraction's text, with or without a leading minus, reads back with
      that sign. */
  lemma SignedFractionParses(negative: bool, body: string, v: real)
    requires ParseFraction(body) == Some(v) && |body| > 0 && body[0] == '\\'
    ensures ParseTexNumber((if negative then "-" else "") + body) == Some(if negative then -v else v)
  {
    var s := (if negative then "-" else "") + body;
    NotAnInteger(negative, body);
    if negative {
      assert s[0] == '-' && s[1..] == body;
    } else {
      assert s == body && s[0] != '-';
    }
  }

  lemma FractionTextParses(n: nat, d: nat)
    requires d > 0
    ensures ParseFraction(FracText(n, d)) == Some(n as real / d as real)
  {
    var p, q := NatToString(n), NatToString(d);
    assert p[0] in p && q[0] in q;
    NatToStringValue(n);
    NatToStringValue(d);
    FractionOfDigits(p, q);
  }

  /** `\frac{p}{q}` over decimal strings reads as their quotient. */
  lemma FractionOfDigits(p: string, q: string)
    requires IsDigits(p) && IsDigits(q) && DigitsValue(q) != 0
    ensures ParseFraction(FracOpen + p + FracMiddle + q + "}") == Some(DigitsValue(p) as real / DigitsValue(q) as real)
  {
    BracedFraction(p, q);
    QuotientOfDigits(p, q);
  }

  lemma BracedFraction(p: string, q: string)
    ensures ParseFraction(FracOpen + p + FracMiddle + q + "}") == ParseQuotient(p + FracMiddle + q)
  {
    var body := FracOpen + p + FracMiddle + q + "}";
    assert body[..|FracOpen|] == FracOpen;
    assert body[|FracOpen|..|body| - 1] == p + FracMiddle + q;
  }

  lemma QuotientOfDigits(p: string, q: string)
    requires IsDigits(p) && IsDigits(q) && DigitsValue(q) != 0
    ensures ParseQuotient(p + FracMiddle + q) == Some(DigitsValue(p) as real / DigitsValue(q) as real)
  {
    var inner := p + FracMiddle + q;
    FractionBodySplits(p, q);
    assert inner[..|p|] == p;
    assert inner[|p| + |FracMiddle|..] == q;
  }

  /** Text that starts with a backslash, possibly after a minus sign, is not
      an integer. */
  lemma NotAnInteger(negative: bool, body: string)
    requires |body| > 0 && body[0] == '\\'
    ensures ParseInt((if negative then "-" else "") + body).None?
  {
    var s := (if negative then "-" else "") + body;
    assert s[0] in s;
    if negative {
      assert s[1..] == body && body[0] in body;
    }
  }

  /** In `p}{q` with a decimal `p`, the first `}{` follows `p`. */
  lemma FractionBodySplits(p: string, q: string)
    requires forall c :: c in p ==> '0' <= c <= '9'
    ensures FindFrom(p + FracMiddle + q, FracMiddle, 0) == Some(|p|)
  {
    var inner := p + FracMiddle + q;
    assert OccursAt(inner, FracMiddle, |p|) by {
      assert inner[|p|..|p| + 2] == FracMiddle;
    }
    forall j | 0 <= j < |p|
      ensures !OccursAt(inner, FracMiddle, j)
    {
      assert inner[j] == p[j] && p[j] in p;
    }
  }

  /** A solution value: a float, or the `-inf` a failed evaluation leaves. */
  datatype FloatValue = Finite(x: real) | MinusInfinity

  /** The string one value becomes: `NaN` for `-inf`, TeX for a variable
      shown as a proper fraction, `str(int(v))` for a whole number and
      `str(v)` (given as `show`) otherwise. */
  function StringVariable(value: FloatValue, proper: bool, fraction: real -> Fraction, show: real -> string): (s: string)
    requires forall x :: fraction(x).denominator > 0
    ensures value.MinusInfinity? ==> s == "NaN"
    ensures value.Finite? && proper ==> s == FloatToTexProperFraction(value.x, fraction(value.x))
    ensures value.Finite? && !proper && IsInteger(value.x) ==> ParseInt(s) == Some(value.x.Floor)
    ensures value.Finite? && !proper && !IsInteger(value.x) ==> s == show(value.x)
  {
    match value
    case MinusInfinity => "NaN"
    case Finite(x) =>
      if proper then FloatToTexProperFraction(x, fraction(x))
      else if IsInteger(x) then
        WholeNumberText(x);
        IntToString(Trunc(x))
      else show(x)
  }

  /** A whole number's `str(int(v))` reads back as that number. */
  lemma WholeNumberText(x: real)
    requires IsInteger(x)
    ensures ParseInt(IntToString(Trunc(x))) == Some(x.Floor)
  {
    assert Trunc(x) == x.Floor;
    IntToStringRoundTrip(Trunc(x));
  }

  /** `solution_to_string_variables(solution, proper)`: the same keys, each
      value rendered by `StringVariable`; a finite value whose variable is
      missing from `proper` raises `KeyError`. */
  method SolutionToStringVariables(solution: map<string, FloatValue>, proper: map<string, bool>, fraction: real -> Fraction, show: real -> string)
    returns (r: Result<map<string, string>, TexError>)
    requires forall x :: fraction(x).denominator > 0
    ensures r.Success? <==> forall k :: k in solution && solution[k].Finite? ==> k in proper
    ensures r.Failure? ==> r.error.KeyError? && r.error.name in solution && solution[r.error.name].Finite? && r.error.name !in proper
    ensures r.Success? ==> r.value.Keys == solution.Keys
    ensures r.Success? ==> forall k :: k in solution ==>
      r.value[k] == StringVariable(solution[k], k in proper && proper[k], fraction, show)
  {
    var variables: map<string, string> := map[];
    var remaining := solution.Keys;
    while remaining != {}
      invariant remaining <= solution.Keys
      invariant variables.Keys == solution.Keys - remaining
      invariant forall k :: k in variables ==> solution[k].Finite? ==> k in proper
      invariant forall k :: k in variables ==>
        variables[k] == StringVariable(solution[k], k in proper && proper[k], fraction, show)
      decreases |remaining|
    {
      var name :| name in remaining;
      if solution[name].Finite? && name !in proper {
        return Failure(KeyError(name));
      }
      variables := variables[name := StringVariable(solution[name], name in proper && proper[name], fraction, show)];
      remaining := remaining - {name};
    }
    return Success(variables);
  }
}

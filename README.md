# mathema_plus generator core in Dafny

mathema_plus is a web application that generates exercises. These include integer arithmetic, linear equations and quadratic equations. Each page describes its exercise by:

- variables, each drawn from an interval;
- conditions, written as Python expressions over those variables;
- a TeX template for showing each generated exercise and its answer.

This project models the parts of the application that compute something:

- **Value sampler** (`sampler.dfy`, `_generate_value`). It draws one value for a variable in one of three modes: an integer, a proper fraction `n/d` with `d` in 2..5, or a number with two decimals. It rejects an empty interval, a fraction that reduces to a whole number, a two-decimal value that is whole, and a value outside the interval.
- **Condition evaluator** (`evaluator.dfy`, `evaluate`, `_is_solution`). The conditions are a syntax tree over the operators the pages use:
  - `+ - * / % **` and unary minus;
  - comparisons;
  - short-circuit `and`/`or`, and `not`;
  - `.is_integer()` and `is_square`.

  Every error of the interpreter becomes the `-inf` stand-in. A power with a complex result counts as an error where it arises (see "## Left out").
- **Builtins** (`builtins.dfy`). `is_square` and the integer square root it relies on.
- **Attempt loop** (`generator.dfy`, `generate_solutions`). It draws values until enough distinct solutions pass the conditions. It stops early on cancellation, on the one-minute limit or when the attempt budget is spent.
- **Data model** (`types.dfy`):
  - `Interval`;
  - `VariableProperties`;
  - the immutable `Solution`, with its merge constructor and order-independent hash;
  - the cancel flag of `GenerationTask`.
- **Formula text** (`tex.dfy`):
  - substitution of the five `\VAR{x}`-style macros into a TeX template;
  - TeX for a proper fraction;
  - the strings a solution's values become.
- **Answer line** (`quadratic.dfy`). It lists the roots of a quadratic equation as a TeX set.
- **Coefficient controls** (`coefficients.dfy`):
  - clean-up of the interval text inputs;
  - the pair of fraction checkboxes of a variable, which exclude each other;
  - the `-`/`+` buttons of the equation-count slider.
- **Page register** (`registrar.py` → `registrar.dfy`):
  - section and page registration;
  - the sidebar menu built from the register;
  - the reverse lookup from an href to the page's names.

Python's builtins have their own models:

- `numeric.dfy`: `ceil`, `int()`, `round`, floored `%`, `Fraction`.
- `strings.dfy`: `split`, `join`, `strip`, `count`, `sorted` on strings, `str(int)`, `int(str)`.
- `wrappers.dfy`: `Option` and `Result`.

Randomness, the clock, cancellation polling, `float()` parsing and `str(float)` are parameters:

- `Draws`: the numbers the random calls returned.
- `Environment`: draws per attempt and variable, elapsed seconds, cancellation per attempt, and the power of a positive base to a fractional exponent.
- `parse`: `float()` on text, `None` where it raises.
- `show`: `str(float)`.
- `fraction`: `Fraction(x).limit_denominator(100)`.

Floats are modelled as `real`, and Python exceptions as explicit `None`/`Failure` results.

Where the code and its documentation differ, the model follows the code:

- `evaluate` is documented to return `False` on an exception, but it returns `-inf`. The model returns `NegInf`, which is truthy, so an erroring condition does not reject a sample (`Evaluator.FailingConditionDoesNotReject`).
- `is_square` takes the absolute value, so `is_square(-4.0)` is true (`GeneratorBuiltins.IsSquareIgnoresSign`).
- Solutions are compared with exact `Mapping` equality; only the hash rounds to ten places (`GeneratorTypes.EqualityFinerThanHash`).

## Model

| member | source | states |
|---|---|---|
| GeneratorBuiltins.Isqrt | src/generator/_generator_builtins.py:9 | `k*k <= n < (k+1)*(k+1)`: the integer square root |
| GeneratorBuiltins.PerfectSquareByIsqrt | src/generator/_generator_builtins.py:9-10 | `n` is the square of a natural number iff `isqrt(n)*isqrt(n) == n` |
| GeneratorBuiltins.IsSquare | src/generator/_generator_builtins.py:4-10 | true iff the value is integer-valued and its absolute value is a perfect square; false for every non-integer |
| GeneratorBuiltins.IsSquareIgnoresSign | src/generator/_generator_builtins.py:8 | `is_square(n) == is_square(-n)` for every `n` |
| GeneratorBuiltins.IsSquareExamples | src/generator/_generator_builtins.py:4-10 | 16, -4 and 0 are squares; 15 and 2.5 are not |
| Numeric.Ceil | src/generator/types.py:26 | `ceil(x) - 1 < x <= ceil(x)` |
| Numeric.Trunc | src/generator/generator.py:24-27 | `int(x)` truncates toward zero: within one of `x`, on the side of zero |
| Numeric.RoundTo | src/generator/generator.py:38 | the rounded value is within half a unit of the last place of `x` and has at most `places` decimals |
| Numeric.RoundToExact | src/generator/generator.py:38 | rounding a value that already has `places` decimals returns it unchanged |
| Numeric.FlooredMod | src/routes/quadratic_equations.py:58 | Python `%`: the remainder lies between 0 and the divisor, on the divisor's side, and `(a - r) / b` is an integer |
| Numeric.GcdDivides | src/generator/generator.py:29 | the gcd of two naturals, not both 0, is positive and divides both |
| Numeric.Reduce | src/generator/generator.py:29-31 | `Fraction(n, d)` has a positive denominator and the value `n/d`, and its denominator is 1 iff `d` divides `n` |
| GeneratorTypes.IntTupleIsCeiling | src/generator/types.py:20-29 | each `int_tuple` bound is the least integer at or above the matching `float_tuple` bound; for a non-empty interval, both ends are contained and the integer bounds are ordered |
| GeneratorTypes.Merge | src/generator/types.py:42-43 | the merged keys are the union of all keys; a key's value comes from the last mapping holding it |
| GeneratorTypes.MergedPairValue | src/generator/types.py:43 | merging two mappings, the second's value wins on a shared key |
| GeneratorTypes.MergeOrderIndependent | src/generator/types.py:42-43 | mappings that agree on shared keys merge to the same solution in either order |
| GeneratorTypes.RoundedPairs | src/generator/types.py:55 | one `(key, round(value, 10))` pair per key, in the keys' order |
| GeneratorTypes.HashKeySorted | src/generator/types.py:54-55 | the hashed pairs are in strictly increasing key order |
| GeneratorTypes.HashKeyContents | src/generator/types.py:54-55 | the hashed pairs name exactly the solution's keys, each with its value rounded to ten places |
| GeneratorTypes.HashKeyOnlySeesRoundedValues | src/generator/types.py:54-55 | solutions with the same keys and equal rounded values hash alike |
| GeneratorTypes.HashIndependentOfInsertionOrder | src/generator/types.py:42-55 | merging key-disjoint mappings in either order gives the same hash |
| GeneratorTypes.EqualityFinerThanHash | src/generator/types.py:39-55 | two distinct solutions can share a hash: equality is exact, the hash is rounded |
| GeneratorTypes.GenerationTask.constructor | src/generator/types.py:62 | a new task is not cancelled |
| GeneratorTypes.GenerationTask.Run | src/generator/types.py:75-77 | running clears the cancel flag |
| GeneratorTypes.GenerationTask.Cancel | src/generator/types.py:68-69 | cancelling sets the flag |
| GeneratorTypes.GenerationTask.Clear | src/generator/types.py:71-73 | clearing sets the flag |
| Sampler.DrawRangesNonEmpty | src/generator/generator.py:22-43 | for a non-empty interval, the numerator and integer `randint` ranges are non-empty, so some draws fit |
| Sampler.ProperFraction | src/generator/generator.py:29-34 | `n/d` is returned iff `d` does not divide `n`; the result is then `n/d`, not an integer, and a whole number of `d`ths |
| Sampler.NotIntegerQuotient | src/generator/generator.py:31-32 | `n/d` with a non-zero remainder is not an integer |
| Sampler.TwoDecimals | src/generator/generator.py:36-41 | returns `round(u, 2)` iff that is not an integer; the result has two decimals |
| Sampler.GenerateValue | src/generator/generator.py:11-47 | `None` for an empty interval; any result lies in `[start, stop]`, is admissible for its mode, and equals `n/d`, `round(u, 2)` or the integer draw |
| Sampler.EveryAdmissibleValueIsReachable | src/generator/generator.py:11-47 | every admissible value is produced by some draws within the random calls' ranges |
| Sampler.ProperFractionReachable | src/generator/generator.py:21-34 | an admissible proper fraction is produced by a denominator in 2..5 and a numerator in range |
| Sampler.NumeratorInRange | src/generator/generator.py:24-27 | a value's numerator over `d` lies between `int(start*d)` and `int(stop*d)` |
| Sampler.DecimalReachable | src/generator/generator.py:35-41 | an admissible two-decimal value is produced by drawing it from `uniform` |
| Sampler.IntegerReachable | src/generator/generator.py:42-43 | an admissible integer is produced by drawing it from `randint(ceil(start), ceil(stop))` |
| Sampler.RoundedUpDrawIsRejected | src/generator/generator.py:43-47 | the top integer draw on `[0.5, 1.5]` is 2, and it is rejected by the bounds check |
| Sampler.IntegerFractionIsRejected | src/generator/generator.py:29-32 | drawing 4/2 yields nothing |
| Evaluator.Power | src/generator/generator.py:58-60 | `a ** b` fails exactly for a zero base with a negative exponent, or a negative base with a non-integer exponent (complex result) |
| Evaluator.ApplyArith | src/generator/generator.py:58-64 | `/` and `%` fail iff the divisor is 0; otherwise `/` gives `a / b` and `%` gives the floored remainder (`FlooredMod`), which takes the divisor's sign; `+ - *` never fail and give the sum, difference and product; `**` is `Power` |
| Evaluator.Evaluate | src/generator/generator.py:50-64 | the result is `-inf` iff the interpreter fails, and otherwise the expression's value; `-inf` only comes from an unbound name or a `/`, `%` or `**` in the condition |
| Evaluator.IsSolution | src/generator/generator.py:67-73 | true iff every condition evaluates truthy; true for no conditions |
| Evaluator.FailingConditionDoesNotReject | src/generator/generator.py:62-73 | a failing condition is `-inf`, which is truthy, so it is as good as absent |
| Evaluator.EvalDependsOnlyOnFreeVars | src/generator/generator.py:58 | bindings that agree on the names a condition mentions give it the same value |
| Evaluator.BoundAndTotalNeverFails | src/generator/generator.py:57-64 | with every mentioned name bound and no `/`, `%` or `**`, evaluation never fails |
| Evaluator.ShortCircuit | src/generator/generator.py:58 | a falsy left operand decides `and`, and a truthy one decides `or`, whatever the right operand |
| Evaluator.IntegerRootOfIncompleteCMeaning | src/routes/quadratic_equations.py:58 | the condition never yields `-inf`; it holds iff `a` is a non-zero integer with `b % a == 0` |
| Evaluator.IntegerRootsOfIncompleteBMeaning | src/routes/quadratic_equations.py:102 | the condition never yields `-inf`; it holds iff `a != 0`, `c / a <= 0`, `c % a == 0` and both `a` and `c` are squares |
| Evaluator.DiscriminantValue | src/routes/quadratic_equations.py:141 | `b*b - 4*a*c` evaluates to the discriminant |
| Evaluator.RealRootsGuardValue | src/routes/quadratic_equations.py:147 | the guard evaluates to `a != 0 and (2a).is_integer() and D >= 0` |
| Evaluator.RootIsMultipleDefined | src/routes/quadratic_equations.py:148-149 | with `a != 0` and `D >= 0`, the root remainders are defined, whatever the square root's value |
| Evaluator.IntegerRootsOfCompleteIsGuarded | src/routes/quadratic_equations.py:147-149 | the condition never yields `-inf`; when it holds, `a != 0`, `2a` is an integer and `D >= 0` |
| Evaluator.DivisionByZeroExample | src/generator/generator.py:57-64 | `1/0` evaluates to `-inf` |
| Evaluator.ShortCircuitExample | src/generator/generator.py:58 | `a and b` with `a = 0` is 0 even though `b` is unbound |
| Evaluator.NegativeBasePowerExample | src/generator/generator.py:59-60 | `(-1) ** 0.5` evaluates to `-inf` |
| Evaluator.UnboundNameExample | src/generator/generator.py:62-64 | an unbound name evaluates to `-inf` |
| Evaluator.IsSquareCallExample | src/generator/generator.py:58 | `is_square(16)` in a condition is true |
| Generator.Request.Budget | src/generator/generator.py:93 | the number of attempts is `max_attempts_per_solution * num_of_solutions` when that is positive, and 0 otherwise |
| Generator.SamplePrefixDefined | src/generator/generator.py:101-106 | an attempt's binding is built iff every variable draws a value |
| Generator.SamplePrefixKeys | src/generator/generator.py:99-106 | a built binding binds exactly the variables' names |
| Generator.SamplePrefixValues | src/generator/generator.py:101-106 | a built binding maps each name to the value drawn for it |
| Generator.SampleAttempt | src/generator/generator.py:99-106 | the inner loop completes iff every variable draws, and then returns that binding |
| Generator.SampleFailureIsFinal | src/generator/generator.py:103-104 | once a variable fails to draw, the attempt yields no binding |
| Generator.GenerateSolutions | src/generator/generator.py:76-115 | the loop returns what the attempt-by-attempt run `Run` specifies |
| Generator.SampleIsValid | src/generator/generator.py:101-109 | a complete sample that passes the conditions binds exactly the variables, with admissible values |
| Generator.RunIsSound | src/generator/generator.py:93-115 | a result is either the empty set after a cancellation, or exactly `num_of_solutions` valid solutions |
| Generator.GenerateSolutionsIsSound | src/generator/generator.py:89-115 | a non-empty result holds exactly `num_of_solutions` valid solutions |
| Generator.NoAttemptsGiveNone | src/generator/generator.py:93-113 | with `num_of_solutions == 0` or no attempts allowed, the result is `None` |
| Generator.FirstPollDecides | src/generator/generator.py:94-97 | a cancellation seen first returns the empty set; a time-out seen first returns `None` |
| Generator.EmptyIntervalExhaustsBudget | src/generator/generator.py:93-113 | a variable with an empty interval makes every uncancelled run return `None` |
| Generator.FailedAttemptAddsNothing | src/generator/generator.py:101-106 | an attempt in which a draw fails changes nothing |
| TexImageGenerator.Opening | src/components/tex_image_generator.py:128 | a macro opening starts with `\` and ends with `{` |
| TexImageGenerator.Signed | src/components/tex_image_generator.py:94-99 | the result starts with a sign; `+` is prefixed iff the value does not start with `-` |
| TexImageGenerator.Expand | src/components/tex_image_generator.py:80-123 | `VAR` gives the value; `BVAR` parenthesises negatives; `SVAR` adds a sign; `CVAR` maps `-1` to `-` and `1` to empty; `CSVAR` maps `-1` to `-`, `1` to `+`, and otherwise signs the value |
| TexImageGenerator.ExpandPart | src/components/tex_image_generator.py:131-133 | a piece fails iff it is empty (`IndexError`) or its first character is not a variable (`KeyError`); otherwise it gives the expansion and the text after the dropped character |
| TexImageGenerator.ExpandedPrefix | src/components/tex_image_generator.py:131-133 | expanding `n` pieces gives `2n` strings |
| TexImageGenerator.ExpandedPrefixFailureIsFinal | src/components/tex_image_generator.py:131-133 | the first failing piece decides the result |
| TexImageGenerator.ReplaceVarsInFormula | src/components/tex_image_generator.py:76-137 | the loop over the macros computes `ReplaceFrom`, applying the macros in order and stopping at the first error |
| TexImageGenerator.ApplyMacroOnce | src/components/tex_image_generator.py:128-135 | one pass splits at the opening, keeps the first piece, expands the others and joins |
| TexImageGenerator.ExpandPieces | src/components/tex_image_generator.py:129-135 | the inner loop computes the joined expansion, or the first piece's error |
| TexImageGenerator.AbsentMacroChangesNothing | src/components/tex_image_generator.py:127-135 | a macro whose opening does not occur leaves the formula as it is |
| TexImageGenerator.NoMacroNoChange | src/components/tex_image_generator.py:125-137 | a formula with no macro opening is returned unchanged |
| TexImageGenerator.MacroTakesOneCharacter | src/components/tex_image_generator.py:132-133 | in `\NAME{xc…`, the argument is the single character `x`, the next character is dropped whatever it is, and an unknown `x` raises `KeyError` |
| TexImageGenerator.OpeningAtEndRaises | src/components/tex_image_generator.py:132 | an opening at the very end raises `IndexError` |
| TexImageGenerator.ProperFractionRoundTrip | src/components/tex_image_generator.py:62-73 | the TeX of a fraction reads back as the number: an integer string for denominator 1, otherwise an optionally negated `\frac{\|p\|}{q}` |
| TexImageGenerator.WholeFractionRoundTrip | src/components/tex_image_generator.py:65-66 | a whole number is written as `str(int(number))`, which reads back as the number |
| TexImageGenerator.FracRoundTrip | src/components/tex_image_generator.py:68-73 | `-` (for a negative numerator) plus `\frac{\|n\|}{d}` reads back as `n/d` |
| TexImageGenerator.FractionTextParses | src/components/tex_image_generator.py:70-72 | `\frac{n}{d}` reads back as `n/d` |
| TexImageGenerator.FractionOfDigits | src/components/tex_image_generator.py:70-72 | `\frac{p}{q}` over decimal digit strings reads as their quotient |
| TexImageGenerator.StringVariable | src/components/tex_image_generator.py:172-180 | `-inf` becomes `NaN`; a proper-fraction variable gets the fraction's TeX; a whole number becomes text that reads back as it; anything else becomes `str(v)` |
| TexImageGenerator.WholeNumberText | src/components/tex_image_generator.py:177-178 | `str(int(v))` of a whole number reads back as `v` |
| TexImageGenerator.SolutionToStringVariables | src/components/tex_image_generator.py:166-182 | the result has the solution's keys, each rendered by `StringVariable`; it raises `KeyError` iff a finite value's variable is missing from `proper` |
| QuadraticEquations.ShownRoot | src/routes/quadratic_equations.py:26 | a value containing `.` is prefixed with `\approx `; any other value is shown as it is |
| QuadraticEquations.ShownRootInjective | src/routes/quadratic_equations.py:26 | different values are shown differently |
| QuadraticEquations.Answer | src/routes/quadratic_equations.py:28-34 | no roots give `x \notin \mathbb{R}`; one root `r` gives `x = r`; two or more give text that opens with `x = \{` (its contents are stated by `AnswerListsSortedRoots`) |
| QuadraticEquations.CollectRoots | src/routes/quadratic_equations.py:22-26 | the loop collects exactly the shown values of the `x…` variables that are not `NaN` |
| QuadraticEquations.AnswerTexFormula | src/routes/quadratic_equations.py:21-34 | the answer is `Answer` of the roots of the variables |
| QuadraticEquations.AnswerListsSortedRoots | src/routes/quadratic_equations.py:33-34 | with two or more roots free of `; `, splitting the text between the braces at `; ` gives the roots in sorted order |
| QuadraticEquations.NonRootChangesNothing | src/routes/quadratic_equations.py:24-25 | a variable that is not a root does not change the answer |
| QuadraticEquations.AnswerExamples | src/routes/quadratic_equations.py:22-32 | `x1 = x2 = 2` collapses to `x = 2`; only a `NaN` root gives `x \notin \mathbb{R}` |
| CoefficientsSetup.KeepNumberChars | src/components/coefficients_setup.py:56-59 | the result holds exactly the digits and dots of the input, and text made only of them is kept as it is |
| CoefficientsSetup.KeepNumberCharsOne | src/components/coefficients_setup.py:56-59 | a single character is kept iff it is a digit or a dot |
| CoefficientsSetup.KeepNumberCharsAppend | src/components/coefficients_setup.py:56-59 | the filter of a concatenation is the concatenation of the filters, so characters keep their order and multiplicity |
| CoefficientsSetup.RemoveChar | src/components/coefficients_setup.py:64 | `replace(c, "")` keeps exactly the characters other than `c` |
| CoefficientsSetup.FirstIndex | src/components/coefficients_setup.py:63 | the position of the first `.`, with none before it |
| CoefficientsSetup.DropLaterDotsKeepsTheRest | src/components/coefficients_setup.py:62-65 | exactly one dot is left, in its first place, and every other character is kept in order |
| CoefficientsSetup.DropLaterDotsShape | src/components/coefficients_setup.py:62-65 | on text that is non-empty, comma-free and holds only digits and dots after a sign, deleting the later dots leaves at most one dot and keeps those properties |
| CoefficientsSetup.SanitizedShape | src/components/coefficients_setup.py:51-65 | the parsed text is non-empty, has no comma and at most one dot, and after a sign holds only digits and dots |
| CoefficientsSetup.UnsignedTextIsOnlyDeDotted | src/components/coefficients_setup.py:54-65 | without a sign only later dots are deleted, and text with at most one dot is kept |
| CoefficientsSetup.TextInput.constructor | src/components/coefficients_setup.py:71 | an input starts at the text `reset()` restores |
| CoefficientsSetup.TextInput.Reset | src/components/coefficients_setup.py:71 | `reset()` restores the initial text |
| CoefficientsSetup.ReadNumber | src/components/coefficients_setup.py:50-76 | one input gives `0.0` for blank or sign-only text, the parsed clean text, or the parsed initial text after a reset; the input then shows the clean text, the initial text or its old text |
| CoefficientsSetup.GetInterval | src/components/coefficients_setup.py:40-78 | for distinct inputs, the pair in input order, or `None` if either input fails; each input is updated as `ReadNumber` says, and `stop` is not read when `start` fails |
| CoefficientsSetup.ExclusionRule | src/components/coefficients_setup.py:159-167 | the two boxes are never both checked; a checked proper box wins; each box is disabled iff the other is checked |
| CoefficientsSetup.ExclusionPassIsStable | src/components/coefficients_setup.py:159-167 | a second pass changes nothing |
| CoefficientsSetup.Exclude | src/components/coefficients_setup.py:163-167 | one step: the box is disabled iff the other is checked, and a disabled box is unchecked |
| CoefficientsSetup.ExcludePair | src/components/coefficients_setup.py:159-167 | both steps for one variable, decimal against proper first |
| CoefficientsSetup.LastIndexOf | src/components/coefficients_setup.py:148-157 | the last position of a name, or -1 iff the name is absent (the entry a dictionary keeps) |
| CoefficientsSetup.BoxesByName | src/components/coefficients_setup.py:145-157 | the dictionaries map each name to the checkboxes of its last occurrence |
| CoefficientsSetup.ApplyExclusion | src/components/coefficients_setup.py:148-167 | every variable's pair of boxes gets the exclusion pass |
| CoefficientsSetup.CheckedByName | src/components/coefficients_setup.py:169-176 | the flags have the same keys as the boxes and are their `checked` values |
| CoefficientsSetup.GetFractions | src/components/coefficients_setup.py:135-178 | every pair gets the exclusion pass; both results have exactly the names as keys and report each name's last pair; no name is both proper and decimal |
| CoefficientsSetup.SliderStaysInBounds | src/components/coefficients_setup.py:117-128 | a click moves the value by exactly one, only if it stays within `[1, 50]`; `-` takes precedence |
| CoefficientsSetup.Slider.constructor | src/components/coefficients_setup.py:118-121 | the slider starts at 6 |
| CoefficientsSetup.NumOfEquations | src/components/coefficients_setup.py:97-132 | the slider takes the next value and it is returned |
| Registrar.GetNames | src/registrar.py:71-84 | a found lookup names the registered section and page that the text after the first character spells as `section/page`, neither holding `/` |
| Registrar.UnknownPageIsNotFound | src/registrar.py:77-79 | `get_names("/s/p")` for an unregistered section or page, without slashes, gives `None` |
| Registrar.GetNamesRoundTrip | src/registrar.py:75-84 | `get_names("/s/p")` of a registered page without slashes gives its section and page names |
| Registrar.NoSlashIsNotFound | src/registrar.py:72-73 | no `/` after the first character gives `None` |
| Registrar.ThreeSegmentsRaise | src/registrar.py:75 | three or more segments raise at the unpacking |
| Registrar.AddPagesSound | src/registrar.py:65-66 | every entry added for a section links to one of its pages |
| Registrar.AddPagesComplete | src/registrar.py:65-66 | every page of a section gets an entry, and no earlier entry is lost |
| Registrar.MenuComplete | src/registrar.py:58-68 | every registered page appears under its section's name and its own name |
| Registrar.MenuSound | src/registrar.py:58-68 | every menu entry comes from a registered page with those names and links to its href |
| Registrar.MenuLinksRoundTrip | src/registrar.py:58-84 | following any menu link with `get_names` gives back the names it is listed under |
| Registrar.Registry.constructor | src/registrar.py:28 | the register starts empty |
| Registrar.Registry.AddSection | src/registrar.py:43-45 | a section is created, with no pages, only when its href is new; an existing one is kept |
| Registrar.Registry.Register | src/registrar.py:48-52 | records page href to page name in its section, overwriting; a new page href is appended to the section's page order, and a known one keeps its place; nothing else changes; the page's href then leads back to its names |
| Registrar.Registry.GetSidebarMenu | src/registrar.py:58-68 | the loop builds `Menu` of the register |
| Registrar.AddSectionPages | src/registrar.py:61-66 | the inner loop adds the section's pages to the entry of its name, creating it if missing |
| Strings.FindFrom | src/components/tex_image_generator.py:128 | the leftmost occurrence at or after `from`, or none |
| Strings.Split | src/components/tex_image_generator.py:128 | `split(sep)`: at least one piece; the pieces joined by `sep` give `s` back; no piece contains `sep` |
| Strings.SplitAtFirst | src/registrar.py:75 | text with a first piece free of `sep` splits into that piece and the pieces of the rest |
| Strings.StrLessTotal | src/routes/quadratic_equations.py:34 | string order is total on distinct strings |
| Strings.StrLessTransitive | src/routes/quadratic_equations.py:34 | string order is transitive |
| Strings.SortedStrings | src/routes/quadratic_equations.py:34 | `sorted(set)`: the same elements, in strictly increasing order |
| Strings.NatToString | src/components/tex_image_generator.py:71-72 | `str(n)` of a natural is a non-empty run of digits |
| Strings.NatToStringValue | src/components/tex_image_generator.py:71-72 | the digits of `str(n)` denote `n` |
| Strings.IntToStringRoundTrip | src/components/tex_image_generator.py:66 | `int(str(n)) == n` |
| Strings.StripLeft | src/components/coefficients_setup.py:51 | removes exactly the leading whitespace |
| Strings.StripRight | src/components/coefficients_setup.py:51 | removes exactly the trailing whitespace |
| Strings.Strip | src/components/coefficients_setup.py:51 | the result is no longer than the input and neither starts nor ends with whitespace |
| Strings.CountZero | src/components/coefficients_setup.py:62 | `count(c) == 0` iff `c` does not occur |
| Strings.ReplaceChar | src/components/coefficients_setup.py:51 | `replace(",", ".")` changes exactly the commas |

## Left out

- Rendering: TeX-to-image (matplotlib), the image cache and the page layout. The hyperdiv widgets, router and global UI state are not modelled either. `src/main.py`, `src/components/components.py`, `src/components/style.py` and the other route files are not part of this model.
- Python `eval` on condition text: conditions are syntax trees built directly. There is no parser, and only the operators the pages use are covered.
- The square root and other fractional powers of a positive base come from the `root` parameter. Float rounding of `**` and of the other operators is not modelled.
- Floats are reals. `round` rounds ties up, while Python rounds the binary value half to even. `OverflowError` and NaN are not modelled.
- `str(float)` (the `show` parameter) and `float()` parsing (the `parse` parameter) are parameters, not implementations.
- `Fraction(x).limit_denominator(100)` is the `fraction` parameter. `TexImageGenerator.ProperFractionRoundTrip` assumes it returned the number itself.
- The `random` and `time` calls and the `hd.location()` check are given outcomes, not effects. The debug `print` of `evaluate` is dropped.
- Python 3.12 is assumed, where `int.is_integer()` exists.
- Generator.GenerateSolutions: `num_of_solutions` larger than the number of distinct solutions simply spends the budget. The model states what is returned, not how likely it is.
- Registrar: the menu's innermost `{"href": …}` dictionary is its href string. Dictionary iteration order is the registration order kept in `order`.
- CoefficientsSetup.GetInterval: its contract covers two distinct text inputs. Passing the same input twice is allowed but not described.
- CoefficientsSetup.GetFractions: it fills the two dictionaries first and applies the exclusion afterwards, while the source does both in one loop. The two steps touch different state, so the result is the same. The checkboxes are required to be distinct objects, as the UI creates them.
- QuadraticEquations.Answer: for two or more roots, its own contract states only the opening `x = \{`. `QuadraticEquations.AnswerListsSortedRoots` states the sorted contents.
- Strings.Strip: its contract states only that the ends are not whitespace. `Strings.StripLeft` and `Strings.StripRight`, which it composes, carry the exact statements.
- Strings: `split` with `maxsplit` is not modelled.
- Evaluator.Power: a negative base with a non-integer exponent is an error where it arises. Python yields a complex value there, and `evaluate` maps only a complex final result to `-inf`. A condition that compares, negates or combines with `and`/`or` a complex intermediate is `-inf` (accepting) here but an ordinary value in Python. For example, `x ** 0.5 == 2` with `x = -4` is `False` in Python. The conditions in `src/routes/quadratic_equations.py` take `** 0.5` only after an `and` guard that the discriminant is non-negative. Its root formulas pass a complex value only through arithmetic, where it stays complex, and Python then gives `-inf` too. So none of the repository's formulas is affected.

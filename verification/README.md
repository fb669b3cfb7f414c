# Numerical methods: a Dafny model

This project models the computational core of a small numerical-methods
teaching application. Two pieces are modelled.

- **The four iteration drivers of `numerical_methods/methods.py`.** These are
  bisection, Newton-Raphson, explicit Euler and classical fourth-order
  Runge-Kutta (RK4). Each is a bounded loop that appends step records to a
  trace and returns a result record. The model gives each driver as a Dafny
  `method` whose loop mirrors the source. The postconditions describe the
  whole trace through a per-record `Link` predicate: record k is what
  iteration k + 1 writes on the state the previous record left. Lemmas
  about traces then prove the properties:
  - the bracket halves and nests;
  - Newton steps chain from one estimate to the next;
  - the last ODE step lands exactly on `x_final`;
  - Euler and RK4 are exact on slopes they integrate exactly.
- **The heuristic symbolic differentiator of
  `numerical_methods/derivatives.py`.** This part is pure string processing.
  - `calculate_derivative` normalises its input, looks it up in a fixed
    table, and otherwise splits it on `+`/`-`. It differentiates each term,
    joins the results and cleans up the signs.
  - `derive_single_term` tries a fixed, ordered list of prefix patterns.
  - `format_derivative` is a chain of substring replacements.

  Strings are `seq<char>`. `Text.Replace` models Python's `str.replace`: it
  works left to right and its matches do not overlap. `Text.SplitSigns`
  models `re.split(r'([+-])', s)`, which keeps the separators.
  `Numerals.NumeralAt` is the greedy prefix match of `[+-]?\d+(\.\d+)?`.
  Each pattern is a prefix parse, because `re.match` anchors only at the
  start.

Numbers are exact `real`s. The user's functions come in as uninterpreted
parameters:

- `f: real -> real` and `df: real -> real` for the root finders;
- `f: (real, real) -> real` for the ODE solvers.

Python's float-to-text conversion inside `derive_single_term` becomes an
uninterpreted `render: real -> string`.

Modules:

- `Results`: shared records;
- `Bisection`, `Newton` and `Ode`: the drivers;
- `Text`: the Python string operations;
- `Numerals`: numeral parsing and writing naturals in decimal;
- `Derivatives`: `calculate_derivative` and `derive_single_term`;
- `Format`: `format_derivative`, and `FormatFixed`, a corrected version of it.

Parameter checks and failure records, as the code has them:

- `methods.py` checks neither `a < b` in bisection nor `h > 0` or
  `x0 < x_final` in the ODE solvers.
  - Bisection accepts any bracket.
  - The ODE methods require `h > 0`. Without it the loop need not
    terminate, and the GUI windows guarantee it: they check `h` and
    `x_final` before calling (`gui/euler_window.py:189-195`,
    `gui/runge_kutta_window.py:189-195`).
  - `x_final <= x0` is modelled as the code handles it: the initial row
    alone is returned.
- A Newton iteration that stops on a tiny derivative is not appended to
  `steps` (`numerical_methods/methods.py:113-118`, 131).

## Model

| member | source | states |
|---|---|---|
| Bisection.Bisection | numerical_methods/methods.py:10-83 | No sign change (`f(a)·f(b) > 0`) gives failure with an empty trace. Otherwise the trace is the bisection trace from `[a, b]`. The run converges exactly when the last record passes `abs(f(c)) < tol` or `error < tol`, and no earlier record passes. Root, iteration count and final error are then those of the last record. Otherwise it fails after exactly `max(0, max_iterations)` records, reporting the midpoint of the last chosen bracket. With `tol > 0`, `f(a)·f(b) <= 0`, `max_iterations > 0` and `abs(b - a)/2^max_iterations < tol` it always converges. |
| Bisection.WidthHalves | numerical_methods/methods.py:45-74 | Record k works on a bracket of width `(b0 - a0)/2^k`. |
| Bisection.ErrorHalves | numerical_methods/methods.py:56-74 | Record k reports `error = abs(b0 - a0)/2^(k+1)`. |
| Bisection.BracketsNest | numerical_methods/methods.py:45-74 | For `a0 <= b0`, every record has `a0 <= a <= c <= b <= b0`. Each bracket lies inside the previous one. |
| Bisection.TraceDetermined | numerical_methods/methods.py:44-76 | Two traces from the same `f`, `a0` and `b0` agree on every record both have. |
| Bisection.SignChangeKept | numerical_methods/methods.py:36-74 | With a strict sign change at the start, and no record so far hitting `f(c) = 0`, every record's bracket still has a strict sign change. |
| Bisection.EndpointRootDropped | numerical_methods/methods.py:36-74 | As written: for `f(x) = x` on `[0, 1]` the first record has `f(a) = 0`. The second works on `[1/2, 1]`, where `f(a)·f(b) > 0`. |
| Bisection.AfterClosed | numerical_methods/methods.py:69-74 | Corrected update. It sends the tie `f(a)·f(c) = 0` to `[a, c]`, so the kept half still satisfies `f(a)·f(b) <= 0`. |
| Newton.NewtonRaphson | numerical_methods/methods.py:85-149 | The trace is the Newton trace from `x0`. It converges exactly when the last record has `error < tol`, and earlier records do not. Root, iteration count and final error are then those of the last record. A derivative below `1e-12` in magnitude fails with the offending iteration not recorded, fewer than `max_iterations` records, and no result. Exhaustion fails with exactly `max(0, max_iterations)` records and the last estimate as result. |
| Newton.TraceChains | numerical_methods/methods.py:120-142 | Each record starts at the previous record's `x_new`, and its error is the distance between consecutive estimates. |
| Newton.StillExactlyAtRoot | numerical_methods/methods.py:120-121 | A record's error is 0 exactly when `f(x) = 0`. Its `x_new` equals `x` exactly when `f(x) = 0`. |
| Newton.AffineSolvedInOneStep | numerical_methods/methods.py:120-131 | On `f(x) = m·x + q` the first step lands on the root `-q/m`. A second record, if any, has `f(x) = 0` and error 0. |
| Newton.TraceIsPrefix | numerical_methods/methods.py:106-142 | With the same `f`, `df` and `x0`, a trace of fewer records is the beginning of any longer one. A run with a larger `max_iterations` only appends records. |
| Ode.StepSize | numerical_methods/methods.py:186-187 | The step taken from `x < x_final` is positive, at most `h`, never passes `x_final`, and is shortened only to land exactly on `x_final`. |
| Ode.Euler | numerical_methods/methods.py:151-211 | Always succeeds. The trace is the Euler trace: row 0 is the initial condition, and row k is taken from `x0 + (k-1)·h` with the previous row's `y_new`. `final_y` is the last `y_new`. If `x0 < x_final`, `final_x == x_final` exactly, after the least number of steps that reaches it. Otherwise only row 0 is returned. |
| Ode.ExtendEuler | numerical_methods/methods.py:185-200 | The next row (clamped step, `y_new = y + h·f(x, y)`) extends an Euler trace to a longer one. |
| Ode.EulerExactForConstantSlope | numerical_methods/methods.py:189-191 | For `f(x, y) = m`, every row has `y_new = y0 + m·(x_reached - x0)`, including the clamped last step. |
| Ode.RungeKutta | numerical_methods/methods.py:213-282 | Always succeeds. The trace is the RK4 trace: row 0 is the initial condition with all `k` zero, and row k applies `k1..k4` and `y_new = y + (k1 + 2k2 + 2k3 + k4)/6` from `x0 + (k-1)·h`. The end point is the same as Euler's. |
| Ode.ExtendRk4 | numerical_methods/methods.py:249-271 | The next row (clamped step, the four slopes as written) extends an RK4 trace. |
| Ode.Rk4StepOnParabola | numerical_methods/methods.py:253-258 | For `f(x, y) = p·x + q`, one RK4 step of any size from a point of the exact solution parabola lands on the parabola. |
| Ode.Rk4ExactForAffineSlope | numerical_methods/methods.py:253-258 | For `f(x, y) = p·x + q`, every RK4 row's `y_new` is the exact solution at the point reached. |
| Text.NormalizeShape | numerical_methods/derivatives.py:22 | The normalised input has no space and no upper-case ASCII letter. |
| Text.NormalizeIdempotent | numerical_methods/derivatives.py:22 | Normalising twice is normalising once. |
| Text.NormalizeKeeps | numerical_methods/derivatives.py:22 | Text with no space and no upper-case letter is already normal. |
| Text.StripIdempotent | numerical_methods/derivatives.py:87-91 | Stripping twice is stripping once. |
| Text.Strip | numerical_methods/derivatives.py:87-91 | The strip is empty exactly for all-whitespace text. Otherwise it neither starts nor ends with whitespace. |
| Text.StripTakesMiddle | numerical_methods/derivatives.py:87-91 | The strip is a contiguous slice of the text, and everything cut off before and after it is whitespace. Together with `Text.Strip` this determines the strip: the text with its leading and trailing whitespace removed. |
| Text.SplitSigns | numerical_methods/derivatives.py:79 | The split alternates sign-free text and single signs, and concatenates back to the input. |
| Text.SplitSignsUnique | numerical_methods/derivatives.py:79 | Any alternating list that concatenates to `s` is the split of `s`. The split is the only such list. |
| Text.SplitAround | numerical_methods/derivatives.py:79 | The split of `a + [c] + b`, for a sign `c`, is the split of `a`, then `[c]`, then the split of `b`. |
| Text.SplitOfSignFree | numerical_methods/derivatives.py:79 | Text with no sign splits into itself alone. |
| Text.Replace | numerical_methods/derivatives.py:98 | Replacing leaves text unchanged when the pattern does not occur or equals its replacement, and a shorter replacement never lengthens it. |
| Text.ReplaceFirst | numerical_methods/derivatives.py:98 | The first occurrence is replaced: when the pattern neither occurs in `a` nor straddles its end, replacing in `a + pat + b` gives `a + rep` followed by the replacement in `b`. |
| Text.ReplaceCopies | numerical_methods/derivatives.py:98 | Text before an occurrence of the pattern, with no occurrence of its own and none straddling into it, is copied unchanged by the replacement. |
| Text.ReplaceKeepsErasure | numerical_methods/derivatives.py:98 | Replacing a pattern by text that differs from it only in `'+'` characters changes nothing once `'+'` is erased. |
| Text.ReplaceRemovesDouble | numerical_methods/derivatives.py:158 | Replacing every doubled `c` by text without `c` leaves no doubled `c`. |
| Text.ReplaceKeepsNoDouble | numerical_methods/derivatives.py:161-163 | A replacement that inserts no `c`, and only deletes a `c` at a pattern's end, creates no doubled `c`. |
| Numerals.NumeralAtIsLongest | numerical_methods/derivatives.py:112-146 | `NumeralAt` finds a numeral exactly when one starts there, and its end is the longest match, as the greedy group of the patterns takes it. |
| Numerals.NumericIsFullMatch | numerical_methods/derivatives.py:112 | Text matches `^[+-]?\d+(\.\d+)?$` exactly when the longest numeral at its start is all of it. |
| Numerals.SignedNumeral | numerical_methods/derivatives.py:112-146 | A leading sign reads the same numeral, negated for `'-'`. |
| Numerals.NumeralOfNat | numerical_methods/derivatives.py:120-146 | A natural written in decimal, followed by anything that does not continue a numeral, reads back as its own value. |
| Numerals.NatToDigitsReads | numerical_methods/derivatives.py:120-146 | A written natural is a non-empty digit run whose decimal value is the natural, with no leading zero. |
| Numerals.NatToDigitsInjective | numerical_methods/derivatives.py:120-146 | Different naturals are written differently. |
| Numerals.ReadDecimal | numerical_methods/derivatives.py:112-146 | A numeral with a fractional part reads as its integer part plus its fraction. |
| Derivatives.PowerRule | numerical_methods/derivatives.py:122-140 | The reference power rule: exponent 0 gives coefficient 0, and exponent 1 gives the constant `a`. |
| Derivatives.PowerOfXMatches | numerical_methods/derivatives.py:120-122 | The `x**n` pattern matches exactly when the term starts with `x**` followed by a numeral. The exponent read is the longest such numeral. |
| Derivatives.ScaledPowerMatches | numerical_methods/derivatives.py:131-134 | The `a*x**n` pattern matches exactly when the term starts with a numeral, `*x**` and a numeral. |
| Derivatives.ScaledXMatches | numerical_methods/derivatives.py:143-145 | The `a*x` pattern matches exactly when the term starts with a numeral followed by `*x`. |
| Derivatives.GroupIsLongest | numerical_methods/derivatives.py:131 | A numeral followed by `*` is the longest numeral there. The greedy group never swallows the `*`. |
| Derivatives.DeriveSingleTerm | numerical_methods/derivatives.py:105-148 | Strips the term, then tries the patterns in order. The general lemmas `ConstantTermGeneral`, `XTermGeneral`, `PowerTermGeneral`, `ScaledPowerTermGeneral`, `ScaledXTermGeneral` and `OtherTermGeneral` give its result for every term shape. |
| Derivatives.OtherTermGeneral | numerical_methods/derivatives.py:148 | A term whose stripped text is no numeral, not `x`, not `x**n` and not a numeral followed by `*x` derives to `"0"`. |
| Derivatives.ConstantTerm | numerical_methods/derivatives.py:112-113 | An instance of `ConstantTermGeneral`: a natural written in decimal derives to `"0"`, as the power rule gives for a constant. |
| Derivatives.ConstantTermGeneral | numerical_methods/derivatives.py:109-113 | A term whose stripped text is a whole numeral, signed or decimal, derives to `"0"`. |
| Derivatives.XTermGeneral | numerical_methods/derivatives.py:116-117 | A term whose stripped text is `x` derives to `"1"`. |
| Derivatives.PowerTermGeneral | numerical_methods/derivatives.py:120-128 | A term whose stripped text starts `x**n`, for a signed or decimal numeral `n` read whole, derives to `"1"` for n = 1, `"0"` for n = 0, and otherwise to the power rule's `n*x**(n-1)` written with `render`. |
| Derivatives.ScaledPowerTermGeneral | numerical_methods/derivatives.py:131-140 | A term whose stripped text starts `a*x**n`, for signed or decimal numerals read whole, derives to `render(a)` for n = 1, `"0"` for n = 0, and otherwise to the power rule's `(a·n)*x**(n-1)`. |
| Derivatives.ScaledXTermGeneral | numerical_methods/derivatives.py:143-146 | A term whose stripped text starts `a*x` and is not of the `a*x**n` shape derives to the power rule's coefficient for exponent 1, `render(a)`. |
| Derivatives.XTerm | numerical_methods/derivatives.py:116-117 | The term `x` itself, with no surrounding whitespace, derives to `"1"` (the case of `XTermGeneral` without whitespace). |
| Derivatives.PowerTerm | numerical_methods/derivatives.py:120-128 | An instance of `PowerTermGeneral` for naturals written in decimal: `x**n` derives to `"1"` for n = 1, `"0"` for n = 0, and otherwise to the power rule's `n*x**(n-1)` written with `render`. |
| Derivatives.ScaledPowerTerm | numerical_methods/derivatives.py:131-140 | An instance of `ScaledPowerTermGeneral` for naturals written in decimal: `a*x**n` derives to `render(a)` for n = 1, `"0"` for n = 0, and otherwise to the power rule's `(a·n)*x**(n-1)`. |
| Derivatives.ScaledXTerm | numerical_methods/derivatives.py:143-146 | An instance of `ScaledXTermGeneral` for naturals written in decimal: `a*x` derives to the power rule's coefficient `a`, written with `render`. |
| Derivatives.Lookup | numerical_methods/derivatives.py:58-76 | The fixed table. Its partner is `TableIsPowerRule`, and the `Entry*` lemmas check each entry against the power rule. |
| Derivatives.TableIsPowerRule | numerical_methods/derivatives.py:58-76 | Every key of the fixed table writes a polynomial, and its entry writes that polynomial's power-rule derivative. |
| Derivatives.EntryX | numerical_methods/derivatives.py:59 | `x` gives `1` by the power rule. |
| Derivatives.EntryXSquared | numerical_methods/derivatives.py:60 | `x**2` gives `2*x`. |
| Derivatives.EntryXCubed | numerical_methods/derivatives.py:61 | `x**3` gives `3*x**2`. |
| Derivatives.EntryXFourth | numerical_methods/derivatives.py:62 | `x**4` gives `4*x**3`. |
| Derivatives.EntryTwoX | numerical_methods/derivatives.py:63 | `2*x` gives `2`. |
| Derivatives.EntryThreeX | numerical_methods/derivatives.py:64 | `3*x` gives `3`. |
| Derivatives.EntryXPlusOne | numerical_methods/derivatives.py:65 | `x+1` gives `1`. |
| Derivatives.EntryXMinusOne | numerical_methods/derivatives.py:66 | `x-1` gives `1`. |
| Derivatives.EntryXSquaredMinusFour | numerical_methods/derivatives.py:67 | `x**2-4` gives `2*x`. |
| Derivatives.EntryXSquaredPlusX | numerical_methods/derivatives.py:68 | `x**2+x` gives `2*x+1`. |
| Derivatives.EntryXCubedMinusX | numerical_methods/derivatives.py:69 | `x**3-x` gives `3*x**2-1`. |
| Derivatives.EntryTwoXSquared | numerical_methods/derivatives.py:70 | `2*x**2` gives `4*x`. |
| Derivatives.EntryThreeXSquared | numerical_methods/derivatives.py:71 | `3*x**2` gives `6*x`. |
| Derivatives.DerivePieces | numerical_methods/derivatives.py:82-93 | The loop keeps only separators that are signs, and only derivatives that are neither empty nor `"0"`. `TermPiece` and `SumDerivesTermwise` tie it to `DeriveSingleTerm`. |
| Derivatives.TermPiece | numerical_methods/derivatives.py:82-93 | A sign-free, non-blank term contributes exactly its stripped derivative `d` as one piece, and nothing when `d` is `""` or `"0"`. |
| Derivatives.SignsSurvive | numerical_methods/derivatives.py:82-93 | Every sign of the input survives among the pieces, in order, whatever its terms derive to. |
| Derivatives.SumDerivesTermwise | numerical_methods/derivatives.py:79-93 | The pieces of `a ± b` are those of `a`, the sign, then those of `b`. |
| Derivatives.Clean | numerical_methods/derivatives.py:95-101 | The cleaned result is never empty. It is `"0"`, or it equals the joined text once `'+'` characters are erased. `CleanPlusMinus`, `CleanPlusPlus` and `CleanLeadingPlus` state its three rules one at a time. |
| Derivatives.CleanLeadingPlus | numerical_methods/derivatives.py:98-101 | For text `t` with no `'+'`, cleaning `"+" + t` cuts the leading `'+'` and gives `t`, or `"0"` when `t` is empty. |
| Derivatives.CleanPlusMinus | numerical_methods/derivatives.py:98 | For `a` and `b` with no `'+'`, cleaning `a + "+-" + b` gives `a + "-" + b`. |
| Derivatives.CleanPlusPlus | numerical_methods/derivatives.py:98 | For non-empty `a` and for `b` with no `'+'` and not starting with `'-'`, cleaning `a + "++" + b` gives `a + "+" + b`. For example, `"1++1"`, which `x+5+x` joins to, becomes `"1+1"`. |
| Derivatives.CleanErases | numerical_methods/derivatives.py:98-100 | The two sign rewrites and the leading-`+` cut delete only `'+'` characters. |
| Derivatives.CalculateDerivative | numerical_methods/derivatives.py:10-103 | The answer is never empty. `CalculateNormalizes`, `NothingSurvives`, `TermPiece`, `SumDerivesTermwise` and the `Clean*` lemmas say what it is. |
| Derivatives.CalculateNormalizes | numerical_methods/derivatives.py:22 | Normalising the input first does not change the answer. |
| Derivatives.NothingSurvives | numerical_methods/derivatives.py:87-103 | The sum path yields nothing (`DeriveSum` is `None`) exactly when the text has no sign and is either blank or a single term deriving to `""` or `"0"`. Off the table, `calculate_derivative` then returns the fallback message. |
| Derivatives.LoneConstant | numerical_methods/derivatives.py:103-113 | A lone natural such as `5` gets the fallback message, not `"0"`. |
| Derivatives.SumOfConstants | numerical_methods/derivatives.py:92-101 | A sum of two naturals derives to `"0"`. The sign survives as the only piece and is then cleaned away. |
| Derivatives.DanglingSign | numerical_methods/derivatives.py:92-101 | `x+a`, for a natural other than 1, derives to `"1+"`. The dropped constant leaves its sign behind. |
| Format.FormatDerivative | numerical_methods/derivatives.py:150-165 | `format_derivative` as written. Its output never contains `**`. |
| Format.FormatFixed | numerical_methods/derivatives.py:150-165 | The corrected formatter never leaves `**` either. |
| Format.FixedPower | numerical_methods/derivatives.py:158-163 | Corrected: `x**n` is shown `x^n`, and as `x` only for the exponent `1` itself. |
| Format.FixedScaledPower | numerical_methods/derivatives.py:158-163 | Corrected: `a*x**n` is shown with the factor dropped only for `a = 1` and the exponent dropped only for `n = 1`. Every other digit is kept. |
| Format.FixedNaturals | numerical_methods/derivatives.py:158-163 | The same for written naturals: the factor is dropped exactly for `a = 1` and the exponent exactly for `n = 1`. |
| Format.UnitExponentEatsDigits | numerical_methods/derivatives.py:163 | As written: `x**1d` is shown as `x` followed by `d`. For example, `x**10` becomes `x0`. |
| Format.UnitFactorEatsDigits | numerical_methods/derivatives.py:161-162 | As written: a digit run `ds` with no 1, followed by `1*x**dn` with `dn` not starting with 1, loses that 1 and its `*`. For example, `21*x**2` becomes `2x^2`. |
| Format.FloatExponentEaten | numerical_methods/derivatives.py:158-163 | As written: `c.f*x**1.0`, with `f` not ending in 1, is shown as `c.f*x.0`. The corrected formatter keeps `c.f*x^1.0`. |
| Format.FloatExponentFixed | numerical_methods/derivatives.py:158-163 | Corrected: a numeric coefficient other than `1` times `x**1.0` is shown as the coefficient times `x^1.0`. |
| Format.PowerFormatAgrees | numerical_methods/derivatives.py:158-163 | On `x**n`, the formatter as written agrees with the corrected one exactly when `n` is `1` or does not start with `1`. |

## Left out

- The GUI (`gui/*.py`, `main.py`) and the plots (`numerical_methods/plotting.py`) are left out. They are widget layout and drawing. Only the `h > 0` guard of the ODE windows is kept, as a precondition.
- Python `eval` of the user's expression text with `x` and `y` substituted is left out. The functions are uninterpreted parameters, so a failing or non-numeric evaluation is not modelled.
- IEEE-754 rounding is left out; numbers are exact reals. Exact halving, exact landing on `x_final` and the exactness lemmas are real-arithmetic facts.
- Accuracy and convergence-order claims are left out. They are analysis, not behaviour of the code.
- The unused `patterns` list in `numerical_methods/derivatives.py:25-55` is dead code and is not modelled.
- Python's float-to-text conversion is left out. `render` is uninterpreted, so the text of a derived coefficient is not pinned down.
- Unicode letters and digits are not modelled: `lower()` is modelled on ASCII letters only and `\d` on ASCII digits only. `strip()` follows Python's whitespace set (`Text.IsSpace`, the characters `str.isspace` accepts).
- Numerals.ReadDecimal: decimal numerals are read, but no round trip from a real back to its text is stated, because `render` is uninterpreted.
- The result records of the source are dictionaries; they are modelled as datatypes with the same fields, and the failure messages as `Results.Failure.Message` and `Derivatives.NotComputable`. The `error` text field of a failed root finder is therefore not a separate field.

## Findings

| source | as written | input that shows it | evidently intended | confidence | as-written member | corrected member |
|---|---|---|---|---|---|---|
| numerical_methods/methods.py:36-74 | The sign check admits `f(a)·f(b) = 0`. The update then sends a tie `f(a)·f(c) = 0` to `[c, b]`. | `f(x) = x` on `[0, 1]`: the second bracket is `[1/2, 1]`, with no sign change. | A root at the left end stays in the bracket (tie goes to `[a, c]`). | not executed | Bisection.EndpointRootDropped | Bisection.AfterClosed |
| numerical_methods/derivatives.py:163 | `'x^1'` is replaced by `'x'` even when more digits follow the 1. | `x**10` is shown as `x0`. | Only a whole exponent 1 is dropped. | not executed | Format.UnitExponentEatsDigits | Format.FixedPower |
| numerical_methods/derivatives.py:163 | The float exponent `1.0` is eaten down to `.0`. | `derive_single_term("5*x**2")` gives `"10.0*x**1.0"`, shown as `"10.0*x.0"`. The Newton window takes that text as its derivative (`gui/newton_raphson_window.py:260-264`). | The exponent stays whole. | not executed | Format.FloatExponentEaten | Format.FloatExponentFixed |
| numerical_methods/derivatives.py:161-162 | `'1*x'` and `'1*'` are removed even when the 1 ends a longer coefficient. | `21*x**2` is shown as `2x^2`. | Only a whole coefficient 1 is dropped. | not executed | Format.UnitFactorEatsDigits | Format.FixedScaledPower |

# swig-101 core, modelled in Dafny

swig-101 is a tour of SWIG. It has small C and C++ libraries wrapped for several
languages, and a Ruby script, `doc/README.md.erb.rb`, that builds each example,
runs its targets and writes the annotated listings and outputs into the README.
This project models three parts of that repository and proves properties of them.

1. **The deterministic text logic of the documentation script.**
   - `remove_shebang`, `string_to_lines` and `lines_to_string`.
   - The in-place `trim_empty_lines!` and `line_numbers!`, and `code_lines`, which chains them.
   - The word wrapper `wrap_line`.
   - The space collapse, noise filter and wrapping at the end of `run_workflow`.
   - The bookkeeping for example names and target rows.

   Modules `Text`, `Listing`, `Wrap`, `Workflow` and `Targets`.
2. **`mathlib::rational<int>`.** It holds two integer fields, reduces them by their gcd in place, and has `+`, `*`, `==` and printing. Modules `Numeric` and `Rational`, where the class is `Rational.Rational`.
3. **`mathlib::polynomial<R>::evaluate`** at `R = int` and `R = rational<int>`. Module `Polynomial`.

Modelling conventions:

- **Ruby library semantics are written out** in `Text`:
  - `String#strip` removes whitespace and NUL.
  - `split(sep, -1)` keeps trailing empty fields.
  - `split(sep)` drops trailing empty fields.
  - `split(sep, k)` keeps separators in its last field.
  - `$` matches at the end of the string and before a line feed.
  - `str.strip.split(/\s+/)` is `Wrap.Words`.
- **Integers are unbounded.** C++'s truncating `/=` agrees with Dafny's `/` because every division in `reduce` is exact (`Numeric.ExactQuotient`).
- **`std::gcd` is `Numeric.Gcd` on absolute values,** with gcd(0, 0) = 0.
- **I/O is a parameter.** Command output, `File.exist?` and file contents are passed in, not performed.
- **The two headers are modelled once.** `src/rational.h` and `include/rational.h` have the same fields, `reduce`, constructors, `+`, `*`, `==`, `__str__` and `operator<<`. Only `__repr__` differs, and only the `src/` version is modelled.

## Model

| member | source | states |
|---|---|---|
| Text.JoinSplitAll | doc/README.md.erb.rb:44-50 | `split(sep, -1)` followed by `join(sep)` gives back every string |
| Text.SplitAllJoin | doc/README.md.erb.rb:44-50 | joining fields that hold no separator and splitting again gives back the same fields |
| Text.SplitAllCount | doc/README.md.erb.rb:48-50 | the number of fields is one more than the number of separators |
| Text.JoinSplitLimited | doc/README.md.erb.rb:100 | a limited split followed by a join loses nothing |
| Text.SplitLimitedAll | doc/README.md.erb.rb:100 | with fewer separators than the limit, the limited split equals the unlimited one |
| Text.DropsAreSlice | doc/README.md.erb.rb:54-55 | dropping leading and then trailing empty strings leaves a contiguous slice with non-empty ends; only empty strings lie outside it |
| Text.StripIsSlice | doc/README.md.erb.rb:138 | `strip` keeps a contiguous slice, cuts only whitespace and NUL around it, and leaves nothing exactly when there is nothing else |
| Text.ParseIntToString | src/rational.h:32 | the decimal text of an integer parses back to that integer |
| Text.PadLeft | doc/README.md.erb.rb:60 | padding right-justifies the text to the width with spaces and keeps it as the suffix |
| Listing.LinesRoundTrip | doc/README.md.erb.rb:44-50 | `lines_to_string(string_to_lines(s)) == s`, and no line holds a line feed |
| Listing.StringToLinesOfJoin | doc/README.md.erb.rb:44-50 | splitting joined single lines gives them back exactly unless the list is one empty line, which Ruby splits into no lines |
| Listing.RemoveShebangOfLine | doc/README.md.erb.rb:40-42 | on a line without a line feed the global substitution is the single-line rewrite |
| Listing.ShebangLineRemoved | doc/README.md.erb.rb:41 | a line starting with `#!` becomes empty |
| Listing.PragmaOnceRemoved | doc/README.md.erb.rb:41 | `#pragma`, one or more spaces, `once` and anything after becomes empty |
| Listing.UnchangedIffNoPattern | doc/README.md.erb.rb:41 | a line is returned unchanged exactly when none of the four patterns matches it |
| Listing.DropBangHashShrinks | doc/README.md.erb.rb:41 | deleting every `!#` changes the line exactly when it contains `!#` |
| Listing.DropBangHashKeeps | doc/README.md.erb.rb:41 | deleting `!#` only removes characters |
| Listing.FirstMatchOnSingleLine | doc/README.md.erb.rb:53 | on a single line, the leftmost match of `/\s+$/` is the trailing whitespace run, if there is one |
| Listing.SubTrailingSpaceOfLine | doc/README.md.erb.rb:53 | `sub!(/\s+$/, '')` on a single line removes exactly its trailing whitespace |
| Listing.SpaceStrippedIdempotent | doc/README.md.erb.rb:53 | stripping trailing whitespace twice is stripping it once |
| Listing.LineArray.constructor | doc/README.md.erb.rb:64 | the array holds the given lines |
| Listing.TrimEmptyLines | doc/README.md.erb.rb:52-57 | the array afterwards holds the trimmed lines of the array before |
| Listing.StripTrailingSpace | doc/README.md.erb.rb:53 | each element is replaced, in place, by its `sub!` result |
| Listing.ShiftEmpty | doc/README.md.erb.rb:54 | the `shift` loop removes exactly the leading empty lines |
| Listing.PopEmpty | doc/README.md.erb.rb:55 | the `pop` loop removes exactly the trailing empty lines |
| Listing.TrimmedIsSlice | doc/README.md.erb.rb:52-57 | the result is a contiguous slice of the right-stripped input, with only empty lines dropped around it; order and interior empty lines are kept |
| Listing.TrimmedEnds | doc/README.md.erb.rb:54-55 | if anything is left, the first and last lines are non-empty |
| Listing.TrimmedNoTrailingSpace | doc/README.md.erb.rb:53 | no line is left with trailing whitespace |
| Listing.TrimmedEmptyIff | doc/README.md.erb.rb:52-57 | the result is empty exactly when every input line is blank |
| Listing.TrimmedIdempotent | doc/README.md.erb.rb:52-57 | trimming twice changes nothing more |
| Listing.LineNumbers | doc/README.md.erb.rb:59-61 | the number of lines is kept, and line `i` becomes the numbered line for `i + 1` |
| Listing.NumberedLineLayout | doc/README.md.erb.rb:60 | for numbers 1 to 999 the prefix is three right-justified digits that parse back to the number, then three spaces, then the original line |
| Listing.CodeLines | doc/README.md.erb.rb:63-69 | the in-place pipeline returns the listing function of its input |
| Listing.CodeListingLines | doc/README.md.erb.rb:63-69 | the lines of the listing are the numbered, trimmed, shebang-free input lines |
| Listing.MapRemoveShebangSingle | doc/README.md.erb.rb:65 | the per-line rewrite keeps lines free of line feeds |
| Listing.RunOutput | doc/README.md.erb.rb:166 | the run output is the trimmed lines of the command output, joined |
| Listing.RunOutputLines | doc/README.md.erb.rb:166 | splitting the run output again gives back the trimmed lines |
| Wrap.WrapLine | doc/README.md.erb.rb:71-81 | the buffered loop returns the segments of the words, each word followed by one space, joined by the newline string |
| Wrap.Pack | doc/README.md.erb.rb:72-80 | the loop over the words builds the joined segments, with invariants on the closed part and the current line |
| Wrap.FlattenSegments | doc/README.md.erb.rb:73-79 | the segments hold every word, in order |
| Wrap.WrapKeepsWords | doc/README.md.erb.rb:73-79 | each output segment splits back into exactly the words it holds |
| Wrap.SegmentsWidth | doc/README.md.erb.rb:74-78 | every segment of two or more words is at most `width + 1` long, so only a single word can overflow the width |
| Wrap.SegmentsShape | doc/README.md.erb.rb:74-78 | only the first segment can be empty, and it is empty exactly when there are no words or the first word is longer than `width` |
| Wrap.SegmentsGreedy | doc/README.md.erb.rb:74-77 | a line is broken only when the next word would not fit |
| Wrap.WrappedEmptyIff | doc/README.md.erb.rb:71-81 | the output is empty exactly when the input is only whitespace or NUL |
| Wrap.FieldsOfSegment | doc/README.md.erb.rb:78 | splitting a segment at whitespace gives its words back |
| Workflow.CollapseNoDoubleSpace | doc/README.md.erb.rb:99 | after the collapse no two adjacent characters are both spaces |
| Workflow.CollapseFixedIff | doc/README.md.erb.rb:99 | the collapse changes nothing exactly on text without two adjacent spaces, so it is idempotent |
| Workflow.CollapseKeepsText | doc/README.md.erb.rb:99 | the collapse removes only spaces |
| Workflow.CollapseRun | doc/README.md.erb.rb:99 | a maximal run of one or more spaces becomes exactly one space, and the text on either side is collapsed on its own |
| Workflow.CollapseAppend | doc/README.md.erb.rb:99 | no run crosses the end of a text that does not end in a space, so the collapse of a concatenation is the concatenation of the collapses |
| Workflow.CollapseKeepsLeadingSpace | doc/README.md.erb.rb:99 | the text starts with a space after the collapse exactly when it did before |
| Workflow.RejectMembers | doc/README.md.erb.rb:101-102 | a line survives `reject!` exactly when it was present and does not contain the pattern |
| Workflow.RejectNone | doc/README.md.erb.rb:101-102 | when no line matches, nothing is removed |
| Workflow.RejectCommutes | doc/README.md.erb.rb:101-102 | the two filters can be applied in either order |
| Workflow.WrappedLines | doc/README.md.erb.rb:103 | the second collapse never changes the result: entry `i` is kept line `i` itself wrapped at width 78 with the continuation string |
| Workflow.CollapseKeepsWords | doc/README.md.erb.rb:99 | the collapse keeps the words `wrap_line` packs, so a line wraps identically with or without it |
| Workflow.FieldsCollapse | doc/README.md.erb.rb:99 | the collapse keeps the whitespace-separated fields |
| Workflow.StripCollapse | doc/README.md.erb.rb:99 | `strip` and the collapse commute |
| Workflow.KeptLinesClean | doc/README.md.erb.rb:99-102 | no kept line contains either noise pattern or two spaces, the second collapse is a no-op on it, and a line is kept exactly when it is a line of the collapsed text without noise |
| Workflow.WorkflowOutputLines | doc/README.md.erb.rb:103 | the output is the wrapped kept lines joined by line feeds |
| Workflow.WorkflowOutputEmpty | doc/README.md.erb.rb:99-103 | empty build output gives empty workflow output |
| Targets.DottedName | doc/README.md.erb.rb:118-121 | a name `b.x` with a dot-free suffix gives basename `b`, suffix `x`, source `src/b.x` and the language of `x` |
| Targets.UndottedName | doc/README.md.erb.rb:118-120 | a name without a dot has no suffix, and `suffix.upcase` fails |
| Targets.ExampleNamed | doc/README.md.erb.rb:118-121 | the basename and suffix are split at the last dot |
| Targets.ExampleLanguages | doc/README.md.erb.rb:112-121 | the four examples get `C`, `C++`, `C++` and `C` |
| Targets.LanguageOfSuffixes | doc/README.md.erb.rb:120-121 | `c` maps to `C`, and `cc` maps to `C++` |
| Targets.UpcaseResult | doc/README.md.erb.rb:120 | upcasing leaves no lower-case letter, changes nothing else, and is idempotent |
| Targets.Cell | doc/README.md.erb.rb:138 | a field becomes nil exactly when it is nothing but whitespace and NUL; otherwise the cell is a non-empty contiguous slice of the field that neither starts nor ends with whitespace, with only whitespace and NUL cut away around it |
| Targets.RowCellsClean | doc/README.md.erb.rb:138 | every present cell is non-empty, has no `|`, and does not start or end with whitespace |
| Targets.RowLosesOnlySeparators | doc/README.md.erb.rb:138 | `split("\|")` drops only trailing empty fields; the row is the kept fields joined by `|`, then one `|` per dropped field |
| Targets.HeredocLines | doc/README.md.erb.rb:138 | splitting the heredoc at line feeds gives back its lines |
| Targets.TableRowsOf | doc/README.md.erb.rb:138-149 | every example's table has ten rows, one per heredoc line |
| Targets.FirstWordIsFirstField | doc/README.md.erb.rb:156 | the leading word is the first field of the split at whitespace |
| Targets.TargetLangRule | doc/README.md.erb.rb:156 | the `lang` cell wins; otherwise the first word of the type is used; with neither, the script fails |
| Targets.MakeTargetRun | doc/README.md.erb.rb:157-166 | nothing runs when the file is missing or the command is `-`; a blank command runs `bin/run src/<file>`; any other command runs verbatim; code exists exactly for present files; run output exists exactly when something runs |
| Numeric.GcdDivides | src/rational.h:14 | the gcd divides both arguments |
| Numeric.GcdGreatest | src/rational.h:14 | every common divisor divides the gcd |
| Numeric.GcdPositive | src/rational.h:14-15 | the gcd is zero only for two zeros, which is the division by zero in `reduce` |
| Numeric.GcdScale | src/rational.h:14 | `gcd(k*a, k*b) == k*gcd(a, b)` |
| Numeric.CoprimeQuotients | src/rational.h:14-15 | dividing by the gcd leaves coprime quotients |
| Numeric.ExactQuotient | src/rational.h:15 | division by a divisor is exact, so truncating and Euclidean division agree |
| Rational.ReducedFields | src/rational.h:10-16 | `reduce` negates both fields exactly when either is negative, divides both by their positive gcd, and leaves coprime fields |
| Rational.ReducedValue | include/rational.h:10-16 | `reduce` keeps the value (`n*d' == n'*d`), and the denominator is zero afterwards exactly when it was zero before |
| Rational.ReducedMovesSign | src/rational.h:11-13 | a negative numerator over a positive denominator ends up positive over negative |
| Rational.ReducedMinusFiveSevenths | include/rational.h:11-13 | `rational(-5, 7)` stores `(5, -7)` |
| Rational.ReducedTwice | src/rational.h:10-16 | a second `reduce` changes nothing exactly when the fields' product is not negative |
| Rational.ReducedSigns | src/rational.h:11-13 | both reduced fields are non-negative exactly when the original fields do not have strictly opposite signs |
| Rational.ReducedOfCoprime | src/rational.h:11-15 | on coprime fields `reduce` only flips signs |
| Rational.Rational.Reduce | src/rational.h:10-16 | the in-place update leaves the reduced fields |
| Rational.Rational.Zero | src/rational.h:17 | `rational()` is `(0, 1)` |
| Rational.Rational.Copy | src/rational.h:18 | the copy constructor keeps both fields |
| Rational.Rational.FromInt | src/rational.h:19 | `rational(n)` is `(n, 1)`, not reduced |
| Rational.Rational.constructor | include/rational.h:20 | `rational(n, d)` holds the reduced fields |
| Rational.Rational.Plus | src/rational.h:21-23 | `+` returns a new rational with the reduced sum fields |
| Rational.Rational.Times | src/rational.h:24-26 | `*` returns a new rational with the reduced product fields |
| Rational.AddValue | src/rational.h:21-23 | with non-zero denominators the sum is defined, its denominator is non-zero, and its value is the sum of the values |
| Rational.MulValue | include/rational.h:24-26 | with non-zero denominators the product is defined, its denominator is non-zero, and its value is the product of the values |
| Rational.Commutative | include/rational.h:21-26 | `a + b` and `b + a` have identical fields, and so do `a * b` and `b * a` |
| Rational.TwoThirdsAndFiveSixths | src/rational-main.cc:5-10 | `(2,3) + (5,6)` is `(3,2)`, and `(2,3) * (5,6)` is `(5,9)` |
| Rational.Rational.Equals | src/rational.h:27-29 | `==` answers 1 exactly for identical fields |
| Rational.PairEqualsIff | include/rational.h:27-29 | the comparison is 1 on identical fields and 0 otherwise |
| Rational.EqualityIsOnFields | src/rational.h:27-29 | `rational(-1, 2)` and `rational(1, -2)` have the same value but compare unequal |
| Rational.Rational.Str | src/rational.h:30-34 | `__str__` prints text that parses back to the fields |
| Rational.ParseStrOf | include/rational.h:30-34 | the `n/d` text determines both fields |
| Rational.Rational.Repr | src/rational.h:35-39 | `__repr__` prints `rational(n,d)` text that parses back to the fields |
| Rational.ParseReprOf | src/rational.h:35-39 | the `rational(n,d)` text determines both fields |
| Rational.Write | include/rational.h:52-55 | `os << r` appends to the stream what `__str__` prints |
| Polynomial.IntPolynomial.constructor | src/polynomial_v2.h:10 | the coefficient vector is the one given |
| Polynomial.IntPolynomial.Evaluate | src/polynomial_v2.cc:6-13 | the loop, with invariants `xx == x^i` and `result` equal to the power sum of the first `i` coefficients, returns the power sum of the coefficients, changing nothing |
| Polynomial.PowerSumIsHorner | src/polynomial_v2.cc:6-13 | the power sum equals Horner evaluation |
| Polynomial.PowerSumCons | src/polynomial_v2.cc:8-11 | the power sum splits off as the constant term plus `x` times the rest |
| Polynomial.PowerSumShort | src/polynomial-test.py:6-15 | no coefficients give 0, and one coefficient `c` gives `c`, at every `x` |
| Polynomial.PythonTestExample | src/polynomial-test.py:17-21 | `[3, 5, 7, 11]` at 2 is 129 (the test's coefficients are `double`s with integer values) |
| Polynomial.NativeExample | src/polynomial_v2-native.cc:15-17 | `[2, -3, 5]` at 3 is 38 |
| Polynomial.MainExample | src/polynomial_v2-main.cc:16-18 | `[2, 3, 5, 7, 11, -13]` at -2 is 552 |
| Polynomial.RationalPolynomial.constructor | src/polynomial_v2.h:10 | the coefficient vector is the one given |
| Polynomial.RationalPolynomial.Evaluate | src/polynomial_v2.cc:6-13 | the loop over rational objects returns the fields of the folded `result + c * xx`, `xx * x` steps |
| Polynomial.EvalPairsPrefix | src/polynomial_v2.cc:8-11 | a run that completes also completes on every prefix of the coefficients |
| Polynomial.EvalPairsExact | src/polynomial_v2.cc:6-13 | with non-zero denominators, no step meets gcd(0, 0), every intermediate denominator is non-zero, `result` is the exact rational power sum and `xx` is `x^n` |
| Polynomial.ExactStep | src/polynomial_v2.cc:9-10 | one pass adds `c * x^k` to the value of `result` and takes `xx` from `x^k` to `x^(k+1)` |
| Polynomial.AddedTerm | src/polynomial_v2.cc:9 | `result + c * xx` is defined and adds the term's value |
| Polynomial.NextPower | src/polynomial_v2.cc:10 | `xx * x` is defined and is the next power |

## Left out

- Process control and I/O: the `cmd`/`system` calls, `File.read` and `File.exist?` (passed in as a flag and a text), the `tmp/cmd.out` file, the build and run scripts, `msg`/`pe` printing on standard error, and the ENV recursion guard. These do not decide any value the model computes.
- The path and flag rewriting chain in `run_workflow` before the space collapse (doc/README.md.erb.rb:86-98). It depends on environment variables and machine-specific paths. The model starts from its result.
- `__repr__`/`class_name` of include/rational.h, which parse the compiler's `__PRETTY_FUNCTION__` text. The modelled `__repr__` is the `src/` one.
- Machine `int` overflow in `rational<int>` and `polynomial<int>`. Integers are unbounded, so the model matches the source only while no product overflows.
- Upcasing in `Targets.Upcase` covers ASCII letters only. All suffixes in the sources are ASCII.
- The `double` and `std::complex<double>` instantiations of `polynomial<R>`, and the `double` twins in `src/polynomial.cc`, `src/example2.cc` and `src/example1.c`. They use floating point.
- The rational test vectors of the polynomial demos (`R(7,11), R(11,13), R(13,17)` at `R(-5,7)` and `R(5,7)`). Their gcd computations are too long to unfold in a proof. `Polynomial.EvalPairsExact` states their value in general instead.
- Rational.Rational.Reduce: requires that the fields are not both zero. The source divides by gcd(0, 0) = 0 there, which is undefined behaviour. The same holds for the two-argument constructor, `Plus` and `Times` on operands whose unreduced fields are both zero.
- Polynomial.RationalPolynomial.Evaluate: requires that every step avoids gcd(0, 0), for the same reason. `Polynomial.EvalPairsExact` shows that non-zero denominators guarantee this.
- Polynomial.RationalPolynomial.Evaluate: it reads the coefficients as objects and creates new ones, but it does not model aliasing among coefficient objects. It cannot, because it modifies nothing.
- The black_scholes and libtommath wrappers and all SWIG interface files and demo drivers. They are floating point, foreign library calls, or printing.

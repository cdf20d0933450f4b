# Ruby 3.4.6 smoke test for the Pyroscope rbspy integration — verified model

The smoke test script prints a banner, loads the `pyroscope` gem, looks for
the `rbspy.so` native library, prints a sample agent configuration, checks
whether the running Ruby is one that rbspy 0.37.1 is meant for, and runs a
small CPU workload. Two parts of the script compute something, and they are
what this project models:

- **The Ruby version check** (Test 4). `RUBY_VERSION.split('.').map(&:to_i)`
  turns the version string into a list of integers. The Ruby counts as
  compatible when its major version is above 3, or when it is 3 and the minor
  version is at least 4. Otherwise an informational "pre-3.4" note is printed.
  For any version with a major and a minor component, the check never fails
  and never exits.
- **The workload** (Test 5). A naive recursive `fibonacci` is called with 20.

Modules:

- `RubyString` (`ruby_string.dfy`): Ruby's `String#split` on `'.'` and
  `String#to_i`, plus the decimal rendering and dot-joining they invert.
  `split` keeps empty fields between dots and drops the empty fields at the end,
  so `""` splits to no fields at all. `to_i` skips leading whitespace and
  reads an optional sign. It then reads a run of decimal digits in which a
  single underscore may separate two digits. It reads 0 when there is no digit.
- `VersionCheck` (`version_check.dfy`): `ParseVersion`, and the two-branch
  predicate `Evaluate` with its verdicts `Compatible` and `PreThreeFour`. A
  general version ordering `Compare` serves as the reference: missing
  components count as 0 and the order is lexicographic. The 3.4 threshold
  is stated in terms of it.
- `Workload` (`workload.dfy`): `Fib`, written as the script writes it, and a
  linear-time reference `FibPair` that it is proved equal to.

Ruby evaluates `parts[0] > 3 || (parts[0] == 3 && parts[1] >= 4)` left to
right and stops early. A missing component is `nil`, and comparing `nil`
raises `NoMethodError`. So the check raises only when the version has no
component at all, or has a single component equal to 3. A single-component
version such as `"4"` or `"2"` is decided by its major number. `Evaluate`
therefore takes any list and returns `NoMethodError` as a third outcome; it
has no precondition. Test 4 has no `rescue`, so in the script that exception
would end the run.

Two facts about the script shape the model:

- `to_i` never fails: a non-numeric component reads as its leading number,
  or 0.
- Only the Ruby version is compared. The profiler version is never read, and
  the check has no verdict besides the ✓ branch and the informational ℹ
  branch.

## Model

| member | source | states |
|---|---|---|
| RubyString.Fields | test_ruby_3.4.6.rb:73 | splitting on `'.'` always yields at least one field, and no field contains a dot |
| RubyString.DropTrailingEmpty | test_ruby_3.4.6.rb:73 | the result of `split` is a prefix of the raw fields that does not end in an empty field, and only empty fields were removed |
| RubyString.Split | test_ruby_3.4.6.rb:73 | `split('.')` gives dot-free fields, the last never empty. Joined with dots they give the string up to its trailing dots. There are no fields exactly when the string is nothing but dots. |
| RubyString.JoinFields | test_ruby_3.4.6.rb:73 | joining the raw fields with dots gives back the original string, so splitting loses nothing |
| RubyString.SplitJoin | test_ruby_3.4.6.rb:73 | `split('.')` of dot-free pieces joined with dots gives back exactly those pieces, in order, when the last piece is not empty |
| RubyString.ToILeadingDigits | test_ruby_3.4.6.rb:73 | `to_i` reads the value of the leading run of digits and ignores whatever follows it |
| RubyString.ToI | test_ruby_3.4.6.rb:73 | `to_i` of a string with no digit is 0, and `to_i` is negative only when a minus sign follows the leading whitespace |
| RubyString.ToIDecimal | test_ruby_3.4.6.rb:73 | `to_i` reads back the decimal rendering of every natural number |
| RubyString.ToINegative | test_ruby_3.4.6.rb:73 | `to_i` of a minus sign followed by a decimal numeral is the negated number |
| VersionCheck.ParseVersion | test_ruby_3.4.6.rb:73 | the parsed version has one integer per field of `split('.')` |
| VersionCheck.ParseDotted | test_ruby_3.4.6.rb:73 | a dot-joined list of decimal numbers parses to exactly those numbers, in order |
| VersionCheck.Evaluate | test_ruby_3.4.6.rb:74-80 | the check raises `NoMethodError` exactly for the versions `[]` and `[3]`. Otherwise it reports Compatible if and only if the major and minor components are at or above 3.4 in the zero-padded lexicographic version order. |
| VersionCheck.CheckRubyVersion | test_ruby_3.4.6.rb:73-74 | the check of a version string raises exactly when `split('.')` gives no field, or one field whose `to_i` is 3. With two or more fields it reports Compatible exactly when the `to_i` of the first two fields is at or above 3.4. |
| VersionCheck.Mark | test_ruby_3.4.6.rb:75-78 | the printed mark is ✓ exactly for Compatible and is never the ✗ of a failed check: the pre-3.4 branch is informational |
| VersionCheck.TwoComponentsNeverRaise | test_ruby_3.4.6.rb:74 | a version with a major and a minor component always gets one of the two verdicts |
| VersionCheck.LaterComponentsIgnored | test_ruby_3.4.6.rb:74 | two versions with the same major and minor get the same verdict, whatever follows |
| VersionCheck.MajorAboveThree | test_ruby_3.4.6.rb:74-76 | every major version of 4 or more is Compatible, whatever its minor |
| VersionCheck.BelowThreeFour | test_ruby_3.4.6.rb:74-79 | every major below 3, and 3.x for every minor x below 4, is pre-3.4 |
| VersionCheck.VerdictOfDotted | test_ruby_3.4.6.rb:73-80 | for any version string of two or more dot-joined decimal numbers, the verdict is Compatible exactly when the major.minor pair is at or above 3.4, and pre-3.4 otherwise |
| VersionCheck.EveryThreeFourPatchCompatible | test_ruby_3.4.6.rb:74-76 | the boundary is inclusive: "3.4.x" is Compatible for every patch number x, 3.4.0 and 3.4.6 included |
| VersionCheck.EveryThreeThreePatchPre | test_ruby_3.4.6.rb:74-79 | "3.3.x" is pre-3.4 for every patch number x |
| VersionCheck.RubyThreeFourSix | test_ruby_3.4.6.rb:73-76 | "3.4.6" parses as 3, 4, 6 and is Compatible |
| VersionCheck.ShortVersions | test_ruby_3.4.6.rb:73-74 | "" and "3" raise `NoMethodError`. "4" is Compatible and "2" is pre-3.4. |
| Workload.Fib | test_ruby_3.4.6.rb:87-90 | `fibonacci(n)` as written: n itself at or below 1, negative n included, else the sum of the two before. Its result is non-negative if and only if n is non-negative. |
| Workload.FibMatchesPair | test_ruby_3.4.6.rb:87-90 | the naive recursion agrees with the linear pair recurrence starting at (0, 1), for every natural number |
| Workload.FibMonotone | test_ruby_3.4.6.rb:87-90 | Fib never decreases from 1 on |
| Workload.WorkloadResult | test_ruby_3.4.6.rb:93-96 | the workload's computed and reported result, fibonacci(20), is 6765 |

## Left out

- Console output is not modelled: the banner, every `puts`, the string interpolation and the `"=" * 80` rules, including the fixed summary text at the end. Only the mark printed by the version check (✓ or ℹ) is modelled.
- Loading the gems (`bundler/setup`, `pyroscope`) and the `Pyroscope::VERSION` probe are left out. They load foreign code, and the `rescue`/`exit 1` around them never sees the `require`, which runs before the `begin`.
- The `rbspy.so` lookup (`File.join`, `File.exist?`, `File.size`) is left out. It is a filesystem query with nothing to compute.
- The configuration hash and its print loop are left out. The hash is a literal that is only printed. Nothing validates it and no agent is started.
- The wall-clock timing of the workload (`Time.now`, `(elapsed * 1000).round(2)`) is left out: clock and floating point.
- The `rescue` blocks around the configuration and workload sections are left out. Stack exhaustion is not part of the functional behaviour, and `Fib` is total on unbounded integers.
- The rbspy version 0.37.1 is left out. It appears only inside printed messages and is never parsed or compared.
- RubyString.ToI: the `0d` decimal prefix that Ruby's integer parser also accepts is not modelled. A component such as `0d5` reads as 0 here. `RUBY_VERSION` consists of digits and dots only.
- RubyString.Split: only a one-character separator other than a space is modelled, the `'.'` of the script. Ruby's `split(' ')` (whitespace mode) and regular-expression separators are never used there.
- The exception raised for a version with too few components is modelled as the `NoMethodError` outcome of `VersionCheck.Evaluate`. What the Ruby process does after an uncaught exception (its message, its exit status) is not modelled.
- No compatibility matrix over profiler versions, no per-check outcome records and no overall-status aggregation are modelled. The script has none of them: it runs its tests one after the other and prints a fixed summary.

# generate_number, modelled in Dafny

`lib/generators/number.py` defines `generate_number(config, row)`. It produces one value of a
"number" column of a synthetic dataset from the column's configuration and from the row
generated so far. The configuration keys are tried in a fixed order of precedence:

1. **dependency**. Every entry that carries a `value` must equal `row.get(field)`. A mismatch
   returns 0.
2. **calculation**. When the operation is `"divide"`, the result is `int(row.get(field, 0) / value)`:
   the float quotient truncated toward zero. The model uses exact truncating division instead
   (see "## Left out"). Any other operation is ignored.
3. **value**. The literal is returned as it is.
4. **format**. A core of `length` random digits (6 when `length` is absent, none when it is
   negative; or, with `alphanumeric`, ASCII letters and
   digits, then upper- or lower-cased by `case`) is decorated rule by rule. Each rule puts
   `contains * count` in front (`prefix`) or behind (`suffix`), or inserts `contains` `count`
   times at random positions (`random`). A rule with any other position does nothing.
5. **range**. `randint(min, max)`.
6. **choices**. One element, drawn uniformly by `random.choice`, or with weights by
   `np.random.choice`, which draws from the NumPy array built from the list.
7. **mapping**. `values.get(str(int(row[field])))`, or None when the row value is None.
8. Otherwise, `randint(0, 100)`.

The model is split into four modules:

- **Wrappers** (`wrappers.dfy`): `Option` with `GetOr`, which models `config.get(key, default)`, and `Result`.
- **PyBuiltins** (`pybuiltins.dfy`): the Python built-ins the generator relies on.
  - Truncating division, `TruncDiv`. Dafny's own `/` is Euclidean.
  - `str(int)`, with its inverse `ParseInt`.
  - `s * n`, `list(s)`, `"".join`, `list.insert`.
  - ASCII `upper`/`lower`.
- **Format** (`format.dfy`): the `format` strategy.
  - The core string.
  - The three rule kinds.
  - Specification functions (`CoreString`, `ApplyRule`, `ApplyRules`).
  - The loops of the source as methods proved against them (`BuildCore`, `InsertRandomly`, `FormatString`).
- **Number** (`number.dfy`): the configuration and row values, the whole precedence chain as the
  function `Generated`, the method `GenerateNumber` that follows the source's statements and
  early returns, and lemmas about each branch.

Randomness is an input. An `Oracle` holds three things:

- the draws for the core string;
- the insertion indices of each `random` rule;
- the integer that the range, choice or default branch samples.

`OracleFits` says that every one of them lies in the range the corresponding Python call
(`randint`, `random.choices`, `random.choice`) can return.

An exception that the source raises becomes an `Err`:

- `ZeroDivision`: a zero divisor.
- `TypeError`: a string or None row value divided.
- `EmptyRange`: `randint` with min > max.
- `EmptyChoices`: choosing from an empty list.
- `CoercionError`: `int()` of a string row value in `mapping` (Python raises only for a non-numeric string; see "## Left out").

A missing field is compared as `row.get(field)`, which is None. So a dependency with any
other `value` fails on a row that lacks the field, and a dependency whose `value` is None is
met by it: see `Number.MissingFieldFailsGate` and `Number.MissingFieldMatchesNone`.

## Model

| member | source | states |
|---|---|---|
| Number.GenerateNumber | lib/generators/number.py:15-102 | The statement-by-statement procedure, with its dependency loop and early returns, returns exactly what the precedence chain `Generated` defines. |
| Number.Generated | lib/generators/number.py:15-102 | Defines the precedence chain as one expression: gate, divide, literal, format, range, choices, mapping, default. Its properties are the branch lemmas below, and `GenerateNumber` is proved equal to it. |
| Number.Satisfied | lib/generators/number.py:19-21 | Defines when one dependency is met: it has no `value`, or its `value` equals `row.get(field)`. `MissingFieldFailsGate`, `MissingFieldMatchesNone` and `GateFailureYieldsZero` state its consequences. |
| Number.GatePasses | lib/generators/number.py:16-22 | Defines the gate: no `dependency` key, or every entry satisfied. `GateFailureYieldsZero` and `ValuelessDependencyInert` state its properties, and `GenerateNumber`'s loop invariant is its prefix form. |
| Number.GateFailureYieldsZero | lib/generators/number.py:16-22 | If any dependency that has a `value` differs from `row.get(field)`, the result is 0, whatever the rest of the configuration says. |
| Number.MissingFieldFailsGate | lib/generators/number.py:18-22 | A dependency on a field the row lacks, with a non-None value, makes the result 0. |
| Number.MissingFieldMatchesNone | lib/generators/number.py:21 | A dependency asking for None is met by a row without the field, because `row.get` yields None. |
| Number.ValuelessDependencyInert | lib/generators/number.py:20-22 | Inserting a dependency entry without `value` at any position of the list leaves the gate's verdict unchanged. |
| Number.Divided | lib/generators/number.py:24-29 | For an integer dividend and a nonzero divisor, the result is an integer whose remainder is smaller than the divisor in magnitude and carries the dividend's sign. A zero divisor is `ZeroDivision`. A string or None dividend is `TypeError`. |
| Number.DivideFires | lib/generators/number.py:24-29 | A divide calculation returns `TruncDiv(row.get(field, 0), value)`, and a missing field yields 0. |
| Number.DivisionExample | lib/generators/number.py:26-29 | 47 divided by 10 gives 4, and -47 divided by 10 gives -4. |
| Number.OtherOperationFallsThrough | lib/generators/number.py:24-34 | A calculation whose operation is not "divide" changes nothing: the result equals that of the same configuration without the calculation. |
| PyBuiltins.TruncDiv | lib/generators/number.py:28 | Defines exact division truncated toward zero, the model of `int(a / b)`. `TruncDivRemainder` and `TruncDivUnique` characterise it by its remainder. |
| PyBuiltins.TruncDivRemainder | lib/generators/number.py:28 | `TruncDiv`, exact division truncated toward zero (the model of `int(a / b)`), leaves a remainder smaller than b in magnitude, with the sign of a. |
| PyBuiltins.TruncDivUnique | lib/generators/number.py:28 | Any quotient with such a remainder is `TruncDiv(a, b)`, so the characterisation is complete. |
| PyBuiltins.TruncDivExamples | lib/generators/number.py:28 | Rounding toward zero: -47 / 10 gives -4, where Euclidean division gives -5. |
| Number.LiteralWins | lib/generators/number.py:31-32 | Once the gate passes and no division fires, a literal `value` is returned unchanged and does not depend on the random source. |
| Format.CoreString | lib/generators/number.py:38-47 | Defines the core: the joined digit strings, or the alphabet characters with the `case` transform. `CoreShape` states its length and characters, and `BuildCore` is proved equal to it. |
| Format.CoreShape | lib/generators/number.py:36-47 | The core has one character per draw. Without `alphanumeric` each is the drawn digit. With it each is an ASCII letter or digit: under "uppercase" the drawn character upper-cased, with no lowercase left; under "lowercase" the drawn character lower-cased, with no uppercase left; in both cases the same letter as drawn, ignoring case. Under any other `case` it is exactly the drawn character. |
| PyBuiltins.UpperChar | lib/generators/number.py:43 | Upper-casing leaves no lowercase letter, turns a lowercase letter into its uppercase partner (32 code points lower), and leaves every other character unchanged. |
| PyBuiltins.LowerChar | lib/generators/number.py:45 | Lower-casing leaves no uppercase letter, turns an uppercase letter into its lowercase partner, and leaves every other character unchanged. |
| PyBuiltins.CaseInverse | lib/generators/number.py:42-45 | Upper-casing a lowercase letter and lower-casing it back gives the letter again, and vice versa, so the case change keeps the letter. |
| PyBuiltins.Upper | lib/generators/number.py:43 | `s.upper()` over ASCII keeps the length and applies `UpperChar` to each character; `CoreShape` uses it per character. |
| PyBuiltins.Lower | lib/generators/number.py:45 | `s.lower()` over ASCII keeps the length and applies `LowerChar` to each character; `CoreShape` uses it per character. |
| Format.BuildCore | lib/generators/number.py:38-47 | The loop that builds the core returns `CoreString` of the draws. |
| Number.FormatCoreLength | lib/generators/number.py:36-47 | The core has `max(length, 0)` characters, and 6 when `length` is absent. |
| Format.ApplyRule | lib/generators/number.py:49-63 | One rule lengthens the string by `count * len(contains)` for a known position and a positive count, and by nothing otherwise. |
| Format.ApplyRules | lib/generators/number.py:49-63 | Applying the rules in order gives a string whose length is the core length plus each rule's contribution. |
| Format.FormatString | lib/generators/number.py:49-65 | The rule loop returns `ApplyRules` of the core, the rules and their insertion indices. |
| Format.FixedRulesCompose | lib/generators/number.py:49-57 | With only prefix and suffix rules, the result is the prefixes in reverse rule order, the core, then the suffixes in rule order. |
| Number.FormatWithoutRandom | lib/generators/number.py:49-57 | The same, for a whole `generate_number` call whose format has no random rule. |
| Number.PrefixExample | lib/generators/number.py:36-57 | `length` 4 with a prefix rule of "X" twice gives "XX" followed by four digits. |
| Format.InsertAll | lib/generators/number.py:60-62 | Each of the `count` insertions adds one list element. |
| PyBuiltins.Chars | lib/generators/number.py:59 | `list(s)` has one one-character element per character of s; `JoinChars` shows that joining it gives s back. |
| PyBuiltins.Join | lib/generators/number.py:63 | Defines `"".join(xs)` as the concatenation of the elements in order. `JoinChars` and `JoinInsert` state its properties. |
| PyBuiltins.Insert | lib/generators/number.py:62 | `xs.insert(p, x)` within the list adds one element. `RemoveInsert` shows that deleting at p undoes it, and `JoinInsert` that the join splices x in at that point. |
| PyBuiltins.JoinInsert | lib/generators/number.py:62-63 | Joining after `insert(p, x)` gives the join of the first p elements, then x, then the join of the rest. |
| PyBuiltins.RemoveInsert | lib/generators/number.py:62 | Deleting the element just inserted at p gives back the list. |
| Format.InsertRandomly | lib/generators/number.py:58-63 | The loop over `list.insert` followed by the join returns `Scatter` of the picks. |
| Format.Scatter | lib/generators/number.py:58-63 | Random insertion lengthens the string by `count * len(contains)`. |
| Format.RandomRule | lib/generators/number.py:58-63 | A random rule is `Scatter`: it has the original characters plus `count` copies of `contains` as a multiset, and removing the inserted elements restores the original string. |
| Format.InsertAllCharacters | lib/generators/number.py:60-63 | After the insertions, the joined string holds exactly the characters of the original plus `count` copies of `contains`. |
| Format.UninsertInsertAll | lib/generators/number.py:60-62 | Deleting the inserted elements in reverse order undoes the insertions. |
| Format.InsertionCountsElements | lib/generators/number.py:59-63 | A multi-character `contains` is inserted whole: "12" with "ab" at indices 1 and 2 gives "1abab2". |
| Number.Formatted | lib/generators/number.py:34-65 | The formatted string has the length that `length` and the rules determine. |
| Number.FormatIsString | lib/generators/number.py:34-65 | When the format branch is reached, the result is a string of that length. |
| Number.FormatShadows | lib/generators/number.py:34-102 | When `format` is present, `range`, `choices` and `mapping` may be anything without changing the result. |
| Number.Ranged | lib/generators/number.py:67-68 | `randint(min, max)` succeeds exactly when min <= max, lies within the bounds, and is min when min == max. |
| Number.RangeInBounds | lib/generators/number.py:67-68 | The range branch gives an integer within the bounds, exactly min when they coincide, and `EmptyRange` when min > max. |
| Number.Chosen | lib/generators/number.py:69-92 | A choice succeeds exactly when the list is nonempty. It returns one of the list's elements, unless weights are configured and the list mixes integers and strings; then it returns a string, either a string element or the decimal string of an integer element. |
| Number.MixesIntsAndStrings | lib/generators/number.py:90 | Defines the lists that `np.array` turns into string arrays: at least one integer, at least one string, and no None. `Chosen`, `ChoiceIsMember` and `MixedChoiceExample` state what that changes. |
| Number.ArrayElement | lib/generators/number.py:90 | Defines an element as the NumPy array holds it: an integer becomes its decimal string in a string array, and every other element is unchanged. `Chosen` states the resulting value. |
| Number.ChoiceIsMember | lib/generators/number.py:69-92 | The choices branch returns an element of `choices`, except for the weighted mixed list, where it returns a string as above. For a given drawn index, the returned value does not depend on which weighting is configured, only on whether one is. For a list that does not mix integers and strings, even that does not matter. |
| Number.MixedChoiceExample | lib/generators/number.py:90-92 | With balanced weights, [1, "a"] at index 0 gives the string "1", which is not an element of the list; without weights it gives 1. |
| Number.Mapped | lib/generators/number.py:93-100 | A None row value gives None. An integer row value gives the entry at its decimal key, or None when the key is absent. |
| Number.MappingLookup | lib/generators/number.py:93-100 | A missing field, a None value or a missing key gives None. A present key gives its mapped value. |
| Number.MappingExample | lib/generators/number.py:93-100 | Tier 1 maps to "gold". Tier 3 and a row without a tier map to None. |
| Number.MappingKeyIsDecimal | lib/generators/number.py:97 | The lookup key reads back as the row value, and distinct row values use distinct keys. |
| PyBuiltins.IntToString | lib/generators/number.py:97 | `str(i)` is a minus sign exactly for negative i, then digits with no leading zero. |
| PyBuiltins.IntToStringRoundTrip | lib/generators/number.py:97 | Parsing `str(i)` gives back i. |
| PyBuiltins.Repeat | lib/generators/number.py:55-57 | `s * n` has `n * len(s)` characters, and none when n <= 0. |
| PyBuiltins.JoinChars | lib/generators/number.py:59-63 | `"".join(list(s))` is s. |
| Number.DefaultInBounds | lib/generators/number.py:101-102 | With no strategy key, the result is an integer in [0, 100]. |

## Left out

- The weight dispatch (lines 70-89): `balanced` gives equal weights, and `algorithm` selects one of five generators (lines 6-12, 76-85), with a Dirichlet draw for any other name, "dirichlet" included (lines 87-89). The model keeps only whether a `weight` key is present, since that alone decides between `random.choice` and `np.random.choice`. The weight generators are in `utils/randomizers/algorithms`, which is not part of this model, and the probability vectors are floating point.
- Number.ChoiceIsMember: states membership only. It does not state the probability distribution, because the model contains no probabilities (floating point).
- Number.Divided: models exact division truncated toward zero. Python first rounds `a / b` to the nearest float, so once |a| reaches about 2^53 the two can differ even for a small quotient: `int((10**17 - 1) / 10**17)` is 1 in Python because the float quotient rounds to 1.0, while the model gives 0. `int(a / b)` also raises `OverflowError` when the quotient exceeds the float range (for example a = 10**400, b = 1), where the model returns an integer.
- Number.Mapped: `int()` of a string row value is the error `CoercionError`. Python would parse a decimal string such as "12", and truncate a float. Row values are integers, strings or None in this model; booleans and floats are left out.
- Number.Chosen: models both `random.choice` and `np.random.choice` as picking by index. For `np.random.choice` it also models NumPy's conversion of a list mixing integers and strings (and no None) into a string array. It does not model NumPy's scalar types (`np.int64`, `np.str_`), or integers too wide for 64 bits, which change the array's type.
- PyBuiltins.Upper: ASCII only. Python's `upper()` and `lower()` also map non-ASCII letters, but the core contains only ASCII letters and digits.
- A `KeyError` for a missing mandatory nested key (`field`, `operation`, `min`, `values`, ...) is not modelled: those keys are required fields of the datatypes.
- A `calculation` `value` that is not an integer is not modelled.
- `list.insert` with an index outside the list is not modelled. `randint(0, len(list))` never yields one.

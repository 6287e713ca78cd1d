/**
 * `generate_number(config, row)`: the value of one synthetic-data field,
 * chosen by the first strategy in a fixed precedence chain that the
 * configuration's keys select:
 *
 *   dependency gate (0 on a mismatch), `divide` calculation, literal `value`,
 *   formatted random string, `range`, `choices`, `mapping`, default [0, 100].
 *
 * The random source is replaced by an Oracle holding the values it would
 * return; OracleFits says which values those calls can return.
 */
module Number {
  import opened Wrappers
  import opened PyBuiltins
  import opened Format

  /** The values a row holds and a configuration names: integers, strings and None. */
  datatype Value = IntV(i: int) | StrV(s: string) | NullV

  /** The fields generated so far for the current row. */
  type Row = map<string, Value>

  /** `row.get(field)`: None for a missing field. */
  function Get(row: Row, field: string): Value {
    if field in row then row[field] else NullV
  }

  datatype Dependency = Dependency(field: string, value: Option<Value>)

  datatype Calculation = Calculation(field: string, operation: string, value: int)

  datatype Range = Range(min: int, max: int)

  datatype Weight = Weight(balanced: Option<bool>, algorithm: Option<string>)

  datatype Mapping = Mapping(field: string, values: map<string, Value>)

  /** A field's configuration; every top-level key may be absent. (`case` is `letterCase`
      here, since `case` is a keyword.) */
  datatype Config = Config(
    dependency: Option<seq<Dependency>>,
    calculation: Option<Calculation>,
    value: Option<Value>,
    format: Option<seq<Rule>>,
    length: Option<int>,
    alphanumeric: Option<bool>,
    letterCase: Option<string>,
    range: Option<Range>,
    choices: Option<seq<Value>>,
    weight: Option<Weight>,
    mapping: Option<Mapping>)

  /** The exceptions the source raises on its inputs. */
  datatype Error =
    | ZeroDivision   // `value` of a divide calculation is 0
    | TypeError      // the divided row field is not a number
    | EmptyRange     // `randint(min, max)` with min > max
    | EmptyChoices   // choosing from an empty `choices` list
    | CoercionError  // `int(row[field])` on a string row value in the mapping branch

  /** What the random source returns during one call: the draws for the core string,
      the insertion indices of every format rule, and the one integer that the range,
      choice or default branch samples (for `choices`, the index of the chosen element). */
  datatype Oracle = Oracle(draws: seq<int>, insertions: seq<seq<int>>, sample: int)

  function Length(c: Config): int { c.length.GetOr(6) }

  function Alphanumeric(c: Config): bool { c.alphanumeric.GetOr(false) }

  function LetterCase(c: Config): string { c.letterCase.GetOr("mixed") }

  /** The sample lies in the range of the one random call the `elif` chain reaches. */
  predicate SampleFits(c: Config, sample: int) {
    if c.format.Some? then true
    else if c.range.Some? then
      c.range.value.min <= c.range.value.max ==> c.range.value.min <= sample <= c.range.value.max
    else if c.choices.Some? then
      |c.choices.value| > 0 ==> 0 <= sample < |c.choices.value|
    else if c.mapping.Some? then true
    else 0 <= sample <= 100
  }

  /** Every oracle value is one the corresponding Python call can return. */
  predicate OracleFits(c: Config, o: Oracle) {
    && (c.format.Some? ==>
          && |o.draws| == CoreLength(Length(c))
          && DrawsFit(Alphanumeric(c), o.draws)
          && InsertionsFit(|o.draws|, c.format.value, o.insertions))
    && SampleFits(c, o.sample)
  }

  // ---------------------------------------------------------------- dependency gate

  /** A dependency without a `value` constrains nothing; one with a value needs
      `row.get(field)` to equal it. */
  predicate Satisfied(d: Dependency, row: Row) {
    d.value.Some? ==> Get(row, d.field) == d.value.value
  }

  predicate GatePasses(dependency: Option<seq<Dependency>>, row: Row) {
    dependency.Some? ==> forall k :: 0 <= k < |dependency.value| ==> Satisfied(dependency.value[k], row)
  }

  // ---------------------------------------------------------------- branches

  /** The row value a calculation reads: `row.get(field, 0)`. */
  function Dividend(row: Row, calculation: Calculation): Value {
    if calculation.field in row then row[calculation.field] else IntV(0)
  }

  /** `int(row.get(field, 0) / value)`. */
  function Divided(row: Row, calculation: Calculation): (r: Result<Value, Error>)
    ensures Dividend(row, calculation).IntV? && calculation.value != 0 ==>
      && r.Ok? && r.value.IntV?
      && Abs(Dividend(row, calculation).i - r.value.i * calculation.value) < Abs(calculation.value)
      && (Dividend(row, calculation).i >= 0 ==> Dividend(row, calculation).i - r.value.i * calculation.value >= 0)
      && (Dividend(row, calculation).i <= 0 ==> Dividend(row, calculation).i - r.value.i * calculation.value <= 0)
    ensures Dividend(row, calculation).IntV? && calculation.value == 0 ==> r == Err(ZeroDivision)
    ensures !Dividend(row, calculation).IntV? ==> r == Err(TypeError)
  {
    match Dividend(row, calculation)
    case IntV(a) =>
      if calculation.value == 0 then Err(ZeroDivision)
      else
        TruncDivRemainder(a, calculation.value);
        Ok(IntV(TruncDiv(a, calculation.value)))
    case _ => Err(TypeError)
  }

  /** `random.randint(min, max)`. */
  function Ranged(rg: Range, sample: int): (r: Result<Value, Error>)
    requires rg.min <= rg.max ==> rg.min <= sample <= rg.max
    ensures r.Ok? <==> rg.min <= rg.max
    ensures r.Ok? ==> r.value.IntV? && rg.min <= r.value.i <= rg.max
    ensures rg.min == rg.max ==> r == Ok(IntV(rg.min))
  {
    if rg.min <= rg.max then Ok(IntV(sample)) else Err(EmptyRange)
  }

  /** `np.array(choices)` of a list that mixes integers with strings and holds no None is an
      array of strings: every integer becomes its decimal string. */
  predicate MixesIntsAndStrings(choices: seq<Value>) {
    && (exists k :: 0 <= k < |choices| && choices[k].IntV?)
    && (exists k :: 0 <= k < |choices| && choices[k].StrV?)
    && (forall k :: 0 <= k < |choices| ==> !choices[k].NullV?)
  }

  /** An element as the array NumPy builds from the list holds it. */
  function ArrayElement(v: Value, stringArray: bool): Value {
    if stringArray && v.IntV? then StrV(IntToString(v.i)) else v
  }

  /** `random.choice(choices)` without weights; with weights, `np.random.choice(choices, p=...)`,
      which draws from the NumPy array made of the list. Either way an empty list is an error. */
  function Chosen(choices: seq<Value>, weighted: bool, sample: int): (r: Result<Value, Error>)
    requires |choices| > 0 ==> 0 <= sample < |choices|
    ensures r.Ok? <==> |choices| > 0
    ensures r.Ok? && !(weighted && MixesIntsAndStrings(choices)) ==> r.value in choices
    ensures r.Ok? && weighted && MixesIntsAndStrings(choices) ==>
      && r.value.StrV?
      && exists k :: 0 <= k < |choices| &&
           (choices[k] == r.value || (choices[k].IntV? && r.value == StrV(IntToString(choices[k].i))))
  {
    if |choices| > 0 then Ok(ArrayElement(choices[sample], weighted && MixesIntsAndStrings(choices)))
    else Err(EmptyChoices)
  }

  /** The key a mapping looks up: `str(int(row[field]))`, defined for integer row values. */
  function LookupKey(v: Value): string
    requires v.IntV?
  {
    IntToString(v.i)
  }

  /** `mapping.values.get(str(int(row[field])))`, or None when the row has no value. */
  function Mapped(row: Row, m: Mapping): (r: Result<Value, Error>)
    ensures Get(row, m.field) == NullV ==> r == Ok(NullV)
    ensures Get(row, m.field).StrV? ==> r == Err(CoercionError)
    ensures Get(row, m.field).IntV? ==>
      r == Ok(if LookupKey(Get(row, m.field)) in m.values then m.values[LookupKey(Get(row, m.field))] else NullV)
  {
    match Get(row, m.field)
    case NullV => Ok(NullV)
    case StrV(_) => Err(CoercionError)
    case IntV(i) =>
      var key := IntToString(i);
      Ok(if key in m.values then m.values[key] else NullV)
  }

  /** The formatted random string: the core, then the rules. */
  function Formatted(c: Config, o: Oracle): (s: string)
    requires c.format.Some? && OracleFits(c, o)
    ensures |s| == FinalLength(CoreLength(Length(c)), c.format.value)
  {
    CoreShape(Alphanumeric(c), LetterCase(c), o.draws);
    ApplyRules(CoreString(Alphanumeric(c), LetterCase(c), o.draws), c.format.value, o.insertions)
  }

  // ---------------------------------------------------------------- the precedence chain

  /** The value generate_number returns, or the exception it raises. */
  function Generated(c: Config, row: Row, o: Oracle): Result<Value, Error>
    requires OracleFits(c, o)
  {
    if !GatePasses(c.dependency, row) then Ok(IntV(0))
    else if c.calculation.Some? && c.calculation.value.operation == "divide" then Divided(row, c.calculation.value)
    else if c.value.Some? then Ok(c.value.value)
    else if c.format.Some? then Ok(StrV(Formatted(c, o)))
    else if c.range.Some? then Ranged(c.range.value, o.sample)
    else if c.choices.Some? then Chosen(c.choices.value, c.weight.Some?, o.sample)
    else if c.mapping.Some? then Mapped(row, c.mapping.value)
    else Ok(IntV(o.sample))
  }

  /** generate_number as the source runs it: the dependency loop with its early return,
      then the chain of branches. */
  method GenerateNumber(c: Config, row: Row, o: Oracle) returns (r: Result<Value, Error>)
    requires OracleFits(c, o)
    ensures r == Generated(c, row, o)
  {
    if c.dependency.Some? {
      var dependencies := c.dependency.value;
      for k := 0 to |dependencies|
        invariant forall j :: 0 <= j < k ==> Satisfied(dependencies[j], row)
      {
        var dependency := dependencies[k];
        if dependency.value.Some? {
          if Get(row, dependency.field) != dependency.value.value {
            return Ok(IntV(0));
          }
        }
      }
    }

    if c.calculation.Some? {
      var calculation := c.calculation.value;
      if calculation.operation == "divide" {
        return Divided(row, calculation);
      }
    }

    if c.value.Some? {
      return Ok(c.value.value);
    }

    if c.format.Some? {
      CoreShape(Alphanumeric(c), LetterCase(c), o.draws);
      var core := BuildCore(Alphanumeric(c), LetterCase(c), o.draws);
      var s := FormatString(core, c.format.value, o.insertions);
      return Ok(StrV(s));
    } else if c.range.Some? {
      return Ranged(c.range.value, o.sample);
    } else if c.choices.Some? {
      return Chosen(c.choices.value, c.weight.Some?, o.sample);
    } else if c.mapping.Some? {
      return Mapped(row, c.mapping.value);
    } else {
      return Ok(IntV(o.sample));
    }
  }

  // ---------------------------------------------------------------- properties

  /** A failed dependency yields 0 whatever else the configuration holds. */
  lemma GateFailureYieldsZero(c: Config, row: Row, o: Oracle, k: nat)
    requires OracleFits(c, o)
    requires c.dependency.Some? && k < |c.dependency.value|
    requires c.dependency.value[k].value.Some?
    requires Get(row, c.dependency.value[k].field) != c.dependency.value[k].value.value
    ensures Generated(c, row, o) == Ok(IntV(0))
  {
    assert !Satisfied(c.dependency.value[k], row);
  }

  /** A dependency on a field the row lacks fails unless it asks for None. */
  lemma MissingFieldFailsGate(c: Config, row: Row, o: Oracle, k: nat)
    requires OracleFits(c, o)
    requires c.dependency.Some? && k < |c.dependency.value|
    requires c.dependency.value[k].field !in row
    requires c.dependency.value[k].value.Some? && c.dependency.value[k].value.value != NullV
    ensures Generated(c, row, o) == Ok(IntV(0))
  {
    GateFailureYieldsZero(c, row, o, k);
  }

  /** row.get() gives None for a missing field, so a dependency asking for None is met
      by a row that lacks the field. */
  lemma MissingFieldMatchesNone(d: Dependency, row: Row)
    requires d.field !in row && d.value == Some(NullV)
    ensures Satisfied(d, row)
  {
  }

  /** Entries without a `value` key do not affect the gate, wherever they stand in the list. */
  lemma ValuelessDependencyInert(deps: seq<Dependency>, i: nat, field: string, row: Row)
    requires i <= |deps|
    ensures GatePasses(Some(deps[..i] + [Dependency(field, None)] + deps[i..]), row) == GatePasses(Some(deps), row)
  {
    var longer := deps[..i] + [Dependency(field, None)] + deps[i..];
    assert forall k :: 0 <= k < i ==> longer[k] == deps[k];
    assert forall k :: i <= k < |deps| ==> longer[k + 1] == deps[k];
    assert Satisfied(longer[i], row);
  }

  /** A divide calculation returns the row field divided by `value`, rounded toward zero
      (a missing field divides as 0). */
  lemma DivideFires(c: Config, row: Row, o: Oracle)
    requires OracleFits(c, o)
    requires GatePasses(c.dependency, row)
    requires c.calculation.Some? && c.calculation.value.operation == "divide"
    requires c.calculation.value.value != 0
    requires Dividend(row, c.calculation.value).IntV?
    ensures Generated(c, row, o) == Ok(IntV(TruncDiv(Dividend(row, c.calculation.value).i, c.calculation.value.value)))
    ensures c.calculation.value.field !in row ==> Generated(c, row, o) == Ok(IntV(0))
  {
  }

  /** Any operation other than "divide" is ignored: the call behaves as if there were no
      calculation at all. */
  lemma OtherOperationFallsThrough(c: Config, row: Row, o: Oracle)
    requires OracleFits(c, o)
    requires c.calculation.Some? && c.calculation.value.operation != "divide"
    ensures Generated(c, row, o) == Generated(c.(calculation := None), row, o)
  {
  }

  /** Once the gate passes and no division fires, a literal `value` is returned unchanged,
      whatever the other keys hold and whatever the random source would return. */
  lemma LiteralWins(c: Config, row: Row, o: Oracle, o': Oracle)
    requires OracleFits(c, o) && OracleFits(c, o')
    requires GatePasses(c.dependency, row)
    requires !(c.calculation.Some? && c.calculation.value.operation == "divide")
    requires c.value.Some?
    ensures Generated(c, row, o) == Ok(c.value.value)
    ensures Generated(c, row, o) == Generated(c, row, o')
  {
  }

  /** The formatted string starts from a core of `max(length, 0)` characters (6 when `length` is absent). */
  lemma FormatCoreLength(c: Config, o: Oracle)
    requires c.format.Some? && OracleFits(c, o)
    ensures |CoreString(Alphanumeric(c), LetterCase(c), o.draws)| == CoreLength(Length(c))
    ensures c.length.None? ==> |o.draws| == 6
  {
    CoreShape(Alphanumeric(c), LetterCase(c), o.draws);
  }

  /** With only "prefix" and "suffix" rules (and rules with unknown positions) the string is
      the prefixes in reverse rule order, the core, then the suffixes in rule order. */
  lemma FormatWithoutRandom(c: Config, row: Row, o: Oracle)
    requires OracleFits(c, o)
    requires GatePasses(c.dependency, row)
    requires !(c.calculation.Some? && c.calculation.value.operation == "divide")
    requires c.value.None? && c.format.Some?
    requires NoRandom(c.format.value)
    ensures Generated(c, row, o) ==
      Ok(StrV(Prefixes(c.format.value) + CoreString(Alphanumeric(c), LetterCase(c), o.draws) + Suffixes(c.format.value)))
  {
    CoreShape(Alphanumeric(c), LetterCase(c), o.draws);
    FixedRulesCompose(CoreString(Alphanumeric(c), LetterCase(c), o.draws), c.format.value, o.insertions);
  }

  /** `format` shadows `range`, `choices` and `mapping`: they may be anything. */
  lemma FormatShadows(c: Config, row: Row, o: Oracle, rg: Option<Range>, ch: Option<seq<Value>>, m: Option<Mapping>)
    requires OracleFits(c, o)
    requires c.format.Some?
    ensures OracleFits(c.(range := rg, choices := ch, mapping := m), o)
    ensures Generated(c, row, o) == Generated(c.(range := rg, choices := ch, mapping := m), row, o)
  {
  }

  /** A formatted result is a string whose length follows from `length` and the rules. */
  lemma FormatIsString(c: Config, row: Row, o: Oracle)
    requires OracleFits(c, o)
    requires GatePasses(c.dependency, row)
    requires !(c.calculation.Some? && c.calculation.value.operation == "divide")
    requires c.value.None? && c.format.Some?
    ensures Generated(c, row, o).Ok? && Generated(c, row, o).value.StrV?
    ensures |Generated(c, row, o).value.s| == FinalLength(CoreLength(Length(c)), c.format.value)
  {
  }

  /** Which strategy fires for which keys, after the gate, the division and the literal. */
  predicate Reaches(c: Config, row: Row) {
    && GatePasses(c.dependency, row)
    && !(c.calculation.Some? && c.calculation.value.operation == "divide")
    && c.value.None?
    && c.format.None?
  }

  /** `range` gives an integer within its bounds, exactly min when min == max, and an
      error when min > max. */
  lemma RangeInBounds(c: Config, row: Row, o: Oracle)
    requires OracleFits(c, o) && Reaches(c, row)
    requires c.range.Some?
    ensures var rg := c.range.value;
      && (rg.min <= rg.max ==>
            (Generated(c, row, o).Ok? && Generated(c, row, o).value.IntV?
             && rg.min <= Generated(c, row, o).value.i <= rg.max))
      && (rg.min == rg.max ==> Generated(c, row, o) == Ok(IntV(rg.min)))
      && (rg.min > rg.max ==> Generated(c, row, o) == Err(EmptyRange))
  {
  }

  /** `choices` gives one of its elements. Under weights, a list mixing integers and strings
      gives a string: an element, or the decimal string of an integer element. For a given
      drawn index the value does not depend on which weighting is configured, only on
      whether there is one. */
  lemma ChoiceIsMember(c: Config, row: Row, o: Oracle)
    requires OracleFits(c, o) && Reaches(c, row)
    requires c.range.None? && c.choices.Some? && |c.choices.value| > 0
    ensures Generated(c, row, o).Ok?
    ensures c.weight.None? || !MixesIntsAndStrings(c.choices.value) ==>
      Generated(c, row, o).value in c.choices.value
    ensures c.weight.Some? && MixesIntsAndStrings(c.choices.value) ==>
      var v := Generated(c, row, o).value;
      && v.StrV?
      && exists k :: 0 <= k < |c.choices.value| &&
           (c.choices.value[k] == v || (c.choices.value[k].IntV? && v == StrV(IntToString(c.choices.value[k].i))))
    ensures forall w: Option<Weight> :: w.Some? == c.weight.Some? ==> Generated(c.(weight := w), row, o) == Generated(c, row, o)
    ensures !MixesIntsAndStrings(c.choices.value) ==>
      forall w: Option<Weight> :: Generated(c.(weight := w), row, o) == Generated(c, row, o)
  {
  }

  /** Under weights the list [1, "a"] becomes the string array ["1", "a"], so drawing index 0
      gives the string "1", which is not an element of the list; without weights it gives 1. */
  lemma MixedChoiceExample()
    ensures var c := Empty().(choices := Some([IntV(1), StrV("a")]), weight := Some(Weight(Some(true), None)));
      var o := Oracle([], [], 0);
      && OracleFits(c, o)
      && Generated(c, map[], o) == Ok(StrV("1"))
      && StrV("1") !in c.choices.value
      && Generated(c.(weight := None), map[], o) == Ok(IntV(1))
  {
    var choices := [IntV(1), StrV("a")];
    assert choices[0].IntV? && choices[1].StrV?;
    assert MixesIntsAndStrings(choices);
    assert IntToString(1) == "1";
  }

  /** `mapping` looks up the decimal string of an integer row value; a missing or None row
      value, or a missing key, gives None. */
  lemma MappingLookup(c: Config, row: Row, o: Oracle)
    requires OracleFits(c, o) && Reaches(c, row)
    requires c.range.None? && c.choices.None? && c.mapping.Some?
    ensures var m := c.mapping.value;
      && (m.field !in row ==> Generated(c, row, o) == Ok(NullV))
      && (Get(row, m.field) == NullV ==> Generated(c, row, o) == Ok(NullV))
      && (Get(row, m.field).IntV? && IntToString(Get(row, m.field).i) !in m.values ==> Generated(c, row, o) == Ok(NullV))
      && (Get(row, m.field).IntV? && IntToString(Get(row, m.field).i) in m.values ==>
            Generated(c, row, o) == Ok(m.values[IntToString(Get(row, m.field).i)]))
  {
  }

  /** Distinct integer row values look up distinct keys, and each key reads back as the
      row value. */
  lemma MappingKeyIsDecimal(i: int, j: int)
    ensures ParseInt(LookupKey(IntV(i))) == i
    ensures LookupKey(IntV(i)) == LookupKey(IntV(j)) ==> i == j
  {
    IntToStringRoundTrip(i);
    if LookupKey(IntV(i)) == LookupKey(IntV(j)) {
      IntToStringInjective(i, j);
    }
  }

  /** With no strategy key at all the result is an integer in [0, 100]. */
  lemma DefaultInBounds(c: Config, row: Row, o: Oracle)
    requires OracleFits(c, o) && Reaches(c, row)
    requires c.range.None? && c.choices.None? && c.mapping.None?
    ensures Generated(c, row, o).Ok? && Generated(c, row, o).value.IntV?
    ensures 0 <= Generated(c, row, o).value.i <= 100
  {
  }

  /** The configuration with every key absent. */
  function Empty(): Config {
    Config(None, None, None, None, None, None, None, None, None, None, None)
  }

  /** `mapping = {field: "tier", values: {"1": "gold", "2": "silver"}}` maps tier 1 to
      "gold", and tier 3 or a row without a tier to None. */
  lemma MappingExample(o: Oracle)
    ensures var c := Empty().(mapping := Some(Mapping("tier", map["1" := StrV("gold"), "2" := StrV("silver")])));
      && OracleFits(c, o)
      && Generated(c, map["tier" := IntV(1)], o) == Ok(StrV("gold"))
      && Generated(c, map["tier" := IntV(3)], o) == Ok(NullV)
      && Generated(c, map[], o) == Ok(NullV)
  {
    assert IntToString(1) == "1";
    assert IntToString(3) == "3";
  }

  /** `calculation = {field: "score", operation: "divide", value: 10}` on a score of 47
      gives 4, and on a score of -47 gives -4. */
  lemma DivisionExample()
    ensures var c := Empty().(calculation := Some(Calculation("score", "divide", 10)));
      var o := Oracle([], [], 0);
      && OracleFits(c, o)
      && Generated(c, map["score" := IntV(47)], o) == Ok(IntV(4))
      && Generated(c, map["score" := IntV(-47)], o) == Ok(IntV(-4))
  {
    TruncDivExamples();
    var calculation := Calculation("score", "divide", 10);
    assert Dividend(map["score" := IntV(47)], calculation) == IntV(47);
    assert Dividend(map["score" := IntV(-47)], calculation) == IntV(-47);
  }

  /** `length = 4` with the rule `{position: "prefix", contains: "X", count: 2}` gives "XX"
      followed by four digits. */
  lemma PrefixExample(row: Row, o: Oracle)
    requires var c := Empty().(length := Some(4), format := Some([Rule(Some("prefix"), Some("X"), Some(2))]));
      OracleFits(c, o)
    ensures var c := Empty().(length := Some(4), format := Some([Rule(Some("prefix"), Some("X"), Some(2))]));
      && Generated(c, row, o).Ok? && Generated(c, row, o).value.StrV?
      && var s := Generated(c, row, o).value.s;
      && |s| == 6 && s[..2] == "XX"
      && forall k :: 2 <= k < 6 ==> IsDigit(s[k])
  {
    var rules := [Rule(Some("prefix"), Some("X"), Some(2))];
    var c := Empty().(length := Some(4), format := Some(rules));
    var core := CoreString(false, "mixed", o.draws);
    CoreShape(false, "mixed", o.draws);
    assert NoRandom(rules);
    FormatWithoutRandom(c, row, o);
    assert Repeat("X", 2) == "XX";
    assert Prefixes(rules) == "XX" by { assert rules[1..] == []; }
    assert Suffixes(rules) == "" by { assert rules[1..] == []; }
    var s := "XX" + core;
    assert forall k :: 2 <= k < 6 ==> s[k] == core[k - 2];
  }
}

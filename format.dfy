/**
 * The formatted-random-string strategy of the number generator: a random core
 * of `max(length, 0)` characters, then the `format` rules applied one after
 * another to the evolving string.
 *
 * Randomness is an input. The core is given as the sequence of values drawn for
 * it (indices into `ascii_letters + digits`, or digits 0-9), and every rule is
 * given the sequence of insertion indices its `randint` calls return.
 */
module Format {
  import opened Wrappers
  import opened PyBuiltins

  // ---------------------------------------------------------------- the core string

  /** Number of characters `random.choices(k=length)` and `range(length)` produce. */
  function CoreLength(length: int): nat {
    if length < 0 then 0 else length
  }

  /** Size of the alphabet the core is drawn from. */
  function AlphabetSize(alphanumeric: bool): nat {
    if alphanumeric then 62 else 10
  }

  /** Character k of `string.ascii_letters + string.digits`: a-z, then A-Z, then 0-9. */
  function AlphabetChar(k: nat): (ch: char)
    requires k < 62
    ensures IsLower(ch) || IsUpper(ch) || IsDigit(ch)
  {
    if k < 26 then ('a' as int + k) as char
    else if k < 52 then ('A' as int + (k - 26)) as char
    else ('0' as int + (k - 52)) as char
  }

  /** Every drawn value lies in the range the random source can produce. */
  predicate DrawsFit(alphanumeric: bool, draws: seq<int>) {
    forall k :: 0 <= k < |draws| ==> 0 <= draws[k] < AlphabetSize(alphanumeric)
  }

  /** `"".join(random.choices(ascii_letters + digits, k=...))` for the given draws. */
  function Sampled(draws: seq<int>): string
    requires DrawsFit(true, draws)
  {
    seq(|draws|, k requires 0 <= k < |draws| => AlphabetChar(draws[k]))
  }

  /** The pieces `[str(random.randint(0, 9)) for _ in range(length)]` for the given draws. */
  function DigitPieces(draws: seq<int>): seq<string>
    requires DrawsFit(false, draws)
  {
    seq(|draws|, k requires 0 <= k < |draws| => IntToString(draws[k]))
  }

  /** The `case` transform; any value other than the two named ones leaves the core as sampled. */
  function ApplyCase(letterCase: string, s: string): string {
    if letterCase == "uppercase" then Upper(s)
    else if letterCase == "lowercase" then Lower(s)
    else s
  }

  /** The random core of a formatted string. */
  function CoreString(alphanumeric: bool, letterCase: string, draws: seq<int>): string
    requires DrawsFit(alphanumeric, draws)
  {
    if alphanumeric then ApplyCase(letterCase, Sampled(draws)) else Join(DigitPieces(draws))
  }

  lemma {:induction false} DigitPiecesJoin(draws: seq<int>)
    requires DrawsFit(false, draws)
    ensures |Join(DigitPieces(draws))| == |draws|
    ensures forall k :: 0 <= k < |draws| ==> Join(DigitPieces(draws))[k] == DigitChar(draws[k])
    decreases |draws|
  {
    if draws != [] {
      var front := draws[..|draws| - 1];
      assert DigitPieces(draws)[..|draws| - 1] == DigitPieces(front);
      DigitPiecesJoin(front);
      var d := draws[|draws| - 1];
      assert IntToString(d) == [DigitChar(d)];
    }
  }

  /** The core has one character per draw. Without `alphanumeric` every character is a
      digit; with it every character is a letter or a digit: the drawn character
      upper-cased under "uppercase", lower-cased under "lowercase" (the same letter
      either way), and exactly as drawn under any other `case`. */
  lemma CoreShape(alphanumeric: bool, letterCase: string, draws: seq<int>)
    requires DrawsFit(alphanumeric, draws)
    ensures |CoreString(alphanumeric, letterCase, draws)| == |draws|
    ensures !alphanumeric ==>
      forall k :: 0 <= k < |draws| ==> CoreString(alphanumeric, letterCase, draws)[k] == DigitChar(draws[k])
    ensures alphanumeric ==>
      forall k :: 0 <= k < |draws| ==>
        var ch := CoreString(alphanumeric, letterCase, draws)[k];
        IsLower(ch) || IsUpper(ch) || IsDigit(ch)
    ensures alphanumeric && letterCase == "uppercase" ==>
      forall k :: 0 <= k < |draws| ==>
        var ch := CoreString(alphanumeric, letterCase, draws)[k];
        !IsLower(ch) && ch == UpperChar(AlphabetChar(draws[k])) && LowerChar(ch) == LowerChar(AlphabetChar(draws[k]))
    ensures alphanumeric && letterCase == "lowercase" ==>
      forall k :: 0 <= k < |draws| ==>
        var ch := CoreString(alphanumeric, letterCase, draws)[k];
        !IsUpper(ch) && ch == LowerChar(AlphabetChar(draws[k])) && UpperChar(ch) == UpperChar(AlphabetChar(draws[k]))
    ensures alphanumeric && letterCase != "uppercase" && letterCase != "lowercase" ==>
      forall k :: 0 <= k < |draws| ==> CoreString(alphanumeric, letterCase, draws)[k] == AlphabetChar(draws[k])
  {
    if !alphanumeric {
      DigitPiecesJoin(draws);
    }
  }

  /** Builds the core the way the source does: sample, then apply the case, or build the
      digit pieces one by one and join them. */
  method BuildCore(alphanumeric: bool, letterCase: string, draws: seq<int>) returns (core: string)
    requires DrawsFit(alphanumeric, draws)
    ensures core == CoreString(alphanumeric, letterCase, draws)
  {
    if alphanumeric {
      core := Sampled(draws);
      if letterCase == "uppercase" {
        core := Upper(core);
      } else if letterCase == "lowercase" {
        core := Lower(core);
      }
    } else {
      var pieces: seq<string> := [];
      for i := 0 to |draws|
        invariant |pieces| == i
        invariant forall k :: 0 <= k < i ==> pieces[k] == IntToString(draws[k])
      {
        pieces := pieces + [IntToString(draws[i])];
      }
      assert pieces == DigitPieces(draws);
      core := Join(pieces);
    }
  }

  // ---------------------------------------------------------------- format rules

  /** One entry of `format`: every key is optional. */
  datatype Rule = Rule(position: Option<string>, contains: Option<string>, count: Option<int>)

  function Position(r: Rule): string {
    r.position.GetOr("prefix")
  }

  function Contains(r: Rule): string {
    r.contains.GetOr("*")
  }

  function Count(r: Rule): int {
    r.count.GetOr(1)
  }

  /** How many copies `contains * count` makes, and how many times `range(count)` loops. */
  function Times(r: Rule): nat {
    if Count(r) <= 0 then 0 else Count(r)
  }

  predicate Recognised(r: Rule) {
    Position(r) == "prefix" || Position(r) == "suffix" || Position(r) == "random"
  }

  /** Length of the string after applying r to a string of length n (every recognised rule
      adds `count` copies of `contains`; any other position changes nothing). */
  function LengthAfter(n: nat, r: Rule): nat {
    if Recognised(r) then n + Times(r) * |Contains(r)| else n
  }

  /** Length after a whole rule list. */
  function FinalLength(n: nat, rules: seq<Rule>): nat
    decreases |rules|
  {
    if rules == [] then n else FinalLength(LengthAfter(n, rules[0]), rules[1..])
  }

  /** The j-th insertion of a "random" rule goes into a list that already holds n + j
      elements, so `randint(0, len(list))` yields an index in [0, n + j]. Other rules
      draw nothing. */
  predicate PicksFit(n: nat, r: Rule, picks: seq<int>) {
    && |picks| == (if Position(r) == "random" then Times(r) else 0)
    && forall j :: 0 <= j < |picks| ==> 0 <= picks[j] <= n + j
  }

  /** The insertion indices of every rule fit the string that rule meets. */
  predicate InsertionsFit(n: nat, rules: seq<Rule>, insertions: seq<seq<int>>)
    decreases |rules|
  {
    && |rules| == |insertions|
    && (rules != [] ==>
          && PicksFit(n, rules[0], insertions[0])
          && InsertionsFit(LengthAfter(n, rules[0]), rules[1..], insertions[1..]))
  }

  /** The working list after `xs.insert(picks[j], x)` for j = 0, 1, ... in turn. */
  function InsertAll(xs: seq<string>, x: string, picks: seq<int>): (r: seq<string>)
    requires forall j :: 0 <= j < |picks| ==> 0 <= picks[j] <= |xs| + j
    ensures |r| == |xs| + |picks|
    decreases |picks|
  {
    if picks == [] then xs
    else Insert(InsertAll(xs, x, picks[..|picks| - 1]), picks[|picks| - 1], x)
  }

  /** Deletes the inserted elements again, the last insertion first. */
  function Uninsert(ys: seq<string>, picks: seq<int>): (r: seq<string>)
    requires |picks| <= |ys|
    requires forall j :: 0 <= j < |picks| ==> 0 <= picks[j] <= |ys| - |picks| + j
    ensures |r| == |ys| - |picks|
    decreases |picks|
  {
    if picks == [] then ys
    else Uninsert(RemoveAt(ys, picks[|picks| - 1]), picks[..|picks| - 1])
  }

  /** Deleting the inserted elements restores the list the insertions started from. */
  lemma {:induction false} UninsertInsertAll(xs: seq<string>, x: string, picks: seq<int>)
    requires forall j :: 0 <= j < |picks| ==> 0 <= picks[j] <= |xs| + j
    ensures Uninsert(InsertAll(xs, x, picks), picks) == xs
    decreases |picks|
  {
    if picks != [] {
      var front := picks[..|picks| - 1];
      RemoveInsert(InsertAll(xs, x, front), picks[|picks| - 1], x);
      UninsertInsertAll(xs, x, front);
    }
  }

  /** After the insertions the joined string holds exactly the characters it held before
      plus one copy of x per insertion. */
  lemma {:induction false} InsertAllCharacters(xs: seq<string>, x: string, picks: seq<int>)
    requires forall j :: 0 <= j < |picks| ==> 0 <= picks[j] <= |xs| + j
    ensures multiset(Join(InsertAll(xs, x, picks))) == multiset(Join(xs) + Repeat(x, |picks|))
    decreases |picks|
  {
    if picks != [] {
      var front := picks[..|picks| - 1];
      var ys, p := InsertAll(xs, x, front), picks[|picks| - 1];
      InsertAllCharacters(xs, x, front);
      InsertCharacters(ys, p, x);
      RepeatAddsOne(x, |picks|);
      assert multiset(Join(InsertAll(xs, x, picks))) == multiset(Join(ys)) + multiset(x);
    }
  }

  /** Each insertion lengthens the joined string by |x|. */
  lemma {:induction false} InsertAllLength(xs: seq<string>, x: string, picks: seq<int>)
    requires forall j :: 0 <= j < |picks| ==> 0 <= picks[j] <= |xs| + j
    ensures |Join(InsertAll(xs, x, picks))| == |Join(xs)| + |picks| * |x|
    decreases |picks|
  {
    if picks != [] {
      var front := picks[..|picks| - 1];
      var ys, p := InsertAll(xs, x, front), picks[|picks| - 1];
      InsertAllLength(xs, x, front);
      JoinInsertLength(ys, p, x);
      Distribute(|picks|, 1, |x|);
    }
  }

  lemma JoinInsertLength(ys: seq<string>, p: int, x: string)
    requires 0 <= p <= |ys|
    ensures |Join(Insert(ys, p, x))| == |Join(ys)| + |x|
  {
    JoinInsert(ys, p, x);
  }

  lemma InsertCharacters(ys: seq<string>, p: int, x: string)
    requires 0 <= p <= |ys|
    ensures multiset(Join(Insert(ys, p, x))) == multiset(Join(ys)) + multiset(x)
  {
    JoinInsert(ys, p, x);
    var left, right := Join(ys[..p]), Join(ys[p..]);
    assert multiset(left + x + right) == multiset(left) + multiset(x) + multiset(right);
    assert multiset(left + right) == multiset(left) + multiset(right);
  }

  lemma RepeatAddsOne(x: string, n: int)
    requires n > 0
    ensures Repeat(x, n) == x + Repeat(x, n - 1)
  {
  }

  /** What a "random" rule does to s: `list(s)`, one `insert(picks[j], x)` per pick, joined. */
  function Scatter(s: string, x: string, picks: seq<int>): (t: string)
    requires forall j :: 0 <= j < |picks| ==> 0 <= picks[j] <= |s| + j
    ensures |t| == |s| + |picks| * |x|
  {
    InsertAllLength(Chars(s), x, picks);
    JoinChars(s);
    Join(InsertAll(Chars(s), x, picks))
  }

  /** Applies one rule to the evolving string. */
  function ApplyRule(s: string, r: Rule, picks: seq<int>): (t: string)
    requires PicksFit(|s|, r, picks)
    ensures |t| == LengthAfter(|s|, r)
  {
    if Position(r) == "prefix" then Repeat(Contains(r), Count(r)) + s
    else if Position(r) == "suffix" then s + Repeat(Contains(r), Count(r))
    else if Position(r) == "random" then Scatter(s, Contains(r), picks)
    else s
  }

  /** Applies the rules in list order, each to the result of the previous one. */
  function ApplyRules(s: string, rules: seq<Rule>, insertions: seq<seq<int>>): (t: string)
    requires InsertionsFit(|s|, rules, insertions)
    ensures |t| == FinalLength(|s|, rules)
    decreases |rules|
  {
    if rules == [] then s
    else ApplyRules(ApplyRule(s, rules[0], insertions[0]), rules[1..], insertions[1..])
  }

  /** A "random" rule adds |contains| characters per insertion, keeps every character of the
      string it started from, adds only copies of contains, and deleting the inserted list
      elements gives the old string back. */
  lemma RandomRule(s: string, r: Rule, picks: seq<int>)
    requires Position(r) == "random"
    requires PicksFit(|s|, r, picks)
    ensures ApplyRule(s, r, picks) == Scatter(s, Contains(r), picks)
    ensures |ApplyRule(s, r, picks)| == |s| + Times(r) * |Contains(r)|
    ensures multiset(ApplyRule(s, r, picks)) == multiset(s + Repeat(Contains(r), Times(r)))
    ensures Join(Uninsert(InsertAll(Chars(s), Contains(r), picks), picks)) == s
  {
    var x := Contains(r);
    assert ApplyRule(s, r, picks) == Scatter(s, x, picks);
    InsertAllCharacters(Chars(s), x, picks);
    JoinChars(s);
    UninsertInsertAll(Chars(s), x, picks);
  }

  /** One insertion adds the whole `contains` string as one list element: two insertions
      of "ab" into ["1", "2"] at indices 1 and 2 give "1abab2", not the "1aabb2" that
      counting characters would give. */
  lemma InsertionCountsElements()
    ensures ApplyRule("12", Rule(Some("random"), Some("ab"), Some(2)), [1, 2]) == "1abab2"
  {
    var r := Rule(Some("random"), Some("ab"), Some(2));
    var xs := Chars("12");
    assert xs == ["1", "2"];
    var picks: seq<int> := [1, 2];
    var once: seq<string> := ["1", "ab", "2"];
    var twice: seq<string> := ["1", "ab", "ab", "2"];
    assert picks[..1] == [1] && [1][..0] == [];
    assert InsertAll(xs, "ab", [1]) == Insert(xs, 1, "ab") == once;
    assert InsertAll(xs, "ab", picks) == Insert(once, 2, "ab") == twice;
    assert twice[..3] == ["1", "ab", "ab"] && twice[..3][..2] == ["1", "ab"] && twice[..3][..2][..1] == ["1"];
    JoinSingle("1");
    assert Join(["1", "ab"]) == "1ab";
    assert Join(["1", "ab", "ab"]) == "1abab";
    assert Join(twice) == "1abab2";
    assert ApplyRule("12", r, picks) == Scatter("12", "ab", picks);
  }

  /** What a rule puts in front of the string: `contains * count` for a "prefix" rule. */
  function PrefixText(r: Rule): string {
    if Position(r) == "prefix" then Repeat(Contains(r), Count(r)) else ""
  }

  /** What a rule puts after the string: `contains * count` for a "suffix" rule. */
  function SuffixText(r: Rule): string {
    if Position(r) == "suffix" then Repeat(Contains(r), Count(r)) else ""
  }

  /** Text a rule list prepends: the prefix of the last "prefix" rule comes first. */
  function Prefixes(rules: seq<Rule>): string
    decreases |rules|
  {
    if rules == [] then "" else Prefixes(rules[1..]) + PrefixText(rules[0])
  }

  /** Text a rule list appends, in list order. */
  function Suffixes(rules: seq<Rule>): string
    decreases |rules|
  {
    if rules == [] then "" else SuffixText(rules[0]) + Suffixes(rules[1..])
  }

  predicate NoRandom(rules: seq<Rule>) {
    forall i :: 0 <= i < |rules| ==> Position(rules[i]) != "random"
  }

  lemma FixedRule(s: string, r: Rule, picks: seq<int>)
    requires Position(r) != "random"
    requires PicksFit(|s|, r, picks)
    ensures ApplyRule(s, r, picks) == PrefixText(r) + s + SuffixText(r)
  {
  }

  lemma Regroup(a: string, b: string, c: string, d: string, e: string)
    ensures a + (b + c + d) + e == (a + b) + c + (d + e)
  {
  }

  /** Without "random" rules the result is the prefixes in reverse rule order, then the
      core, then the suffixes in rule order. */
  lemma {:induction false} FixedRulesCompose(s: string, rules: seq<Rule>, insertions: seq<seq<int>>)
    requires NoRandom(rules)
    requires InsertionsFit(|s|, rules, insertions)
    ensures ApplyRules(s, rules, insertions) == Prefixes(rules) + s + Suffixes(rules)
    decreases |rules|
  {
    if rules != [] {
      var r, rest := rules[0], rules[1..];
      assert Position(r) != "random";
      FixedRule(s, r, insertions[0]);
      var t := ApplyRule(s, r, insertions[0]);
      assert NoRandom(rest) by {
        forall i | 0 <= i < |rest| ensures Position(rest[i]) != "random" {
          assert rest[i] == rules[i + 1];
        }
      }
      FixedRulesCompose(t, rest, insertions[1..]);
      Regroup(Prefixes(rest), PrefixText(r), s, SuffixText(r), Suffixes(rest));
    }
  }

  /** The inner loop of a "random" rule: split into characters, insert `contains` at each
      drawn index in turn (the list grows by one element each time), join. */
  method InsertRandomly(s: string, contains: string, count: int, picks: seq<int>) returns (t: string)
    requires |picks| == (if count <= 0 then 0 else count)
    requires forall j :: 0 <= j < |picks| ==> 0 <= picks[j] <= |s| + j
    ensures t == Scatter(s, contains, picks)
  {
    var list := Chars(s);
    for j := 0 to |picks|
      invariant list == InsertAll(Chars(s), contains, picks[..j])
    {
      assert picks[..j + 1][..j] == picks[..j];
      list := Insert(list, picks[j], contains);
    }
    assert picks[..|picks|] == picks;
    t := Join(list);
  }

  /** The format-rule loop of the source: each rule rewrites the string; a "random" rule
      splits it into characters, inserts `contains` `count` times and joins the list. */
  method FormatString(core: string, rules: seq<Rule>, insertions: seq<seq<int>>) returns (s: string)
    requires InsertionsFit(|core|, rules, insertions)
    ensures s == ApplyRules(core, rules, insertions)
  {
    s := core;
    var i := 0;
    while i < |rules|
      invariant 0 <= i <= |rules|
      invariant InsertionsFit(|s|, rules[i..], insertions[i..])
      invariant ApplyRules(s, rules[i..], insertions[i..]) == ApplyRules(core, rules, insertions)
    {
      assert rules[i..][0] == rules[i] && rules[i..][1..] == rules[i + 1..];
      assert insertions[i..][0] == insertions[i] && insertions[i..][1..] == insertions[i + 1..];
      var rule := rules[i];
      var position, contains, count := Position(rule), Contains(rule), Count(rule);
      ghost var before := s;
      if position == "prefix" {
        s := Repeat(contains, count) + s;
      } else if position == "suffix" {
        s := s + Repeat(contains, count);
      } else if position == "random" {
        s := InsertRandomly(s, contains, count, insertions[i]);
      }
      assert s == ApplyRule(before, rule, insertions[i]);
      i := i + 1;
    }
  }
}

/**
 * The handful of Python built-in operations the generator relies on, stated
 * over Dafny's unbounded integers and sequences: true division followed by
 * `int(...)`, `str(...)` of an integer, `s * n`, `list(s)`, `"".join(...)`,
 * `list.insert`, and ASCII `upper()` / `lower()`.
 */
module PyBuiltins {

  function Abs(x: int): nat {
    if x < 0 then -x else x
  }

  /** `int(a / b)` for integers `a`, `b` (exact division): the quotient rounded toward zero.
      Dafny's own `/` is Euclidean and would round -47 / 10 to -5 instead of -4. */
  function TruncDiv(a: int, b: int): int
    requires b != 0
  {
    var m := Abs(a) / Abs(b);
    if (a < 0) == (b < 0) then m else -m
  }

  /** Truncating division is characterised by its remainder: smaller than the divisor
      in magnitude and carrying the sign of the dividend. */
  lemma TruncDivRemainder(a: int, b: int)
    requires b != 0
    ensures Abs(a - TruncDiv(a, b) * b) < Abs(b)
    ensures a >= 0 ==> a - TruncDiv(a, b) * b >= 0
    ensures a <= 0 ==> a - TruncDiv(a, b) * b <= 0
  {
    var q := TruncDiv(a, b);
    var bigA: int, bigB: int := Abs(a), Abs(b);
    var m: int := bigA / bigB;
    var r: int := bigA - m * bigB;
    assert 0 <= r < bigB;
    if a >= 0 && b > 0 {
      assert q == m && a == bigA && b == bigB;
      assert a - q * b == r;
    } else if a >= 0 {
      assert q == -m && a == bigA && b == -bigB;
      assert a - q * b == r;
    } else if b > 0 {
      assert q == -m && a == -bigA && b == bigB;
      assert a - q * b == -r;
    } else {
      assert q == m && a == -bigA && b == -bigB;
      assert a - q * b == -r;
    }
  }

  lemma {:induction false} MulAtLeast(d: nat, b: nat)
    requires d >= 1
    ensures d * b >= b
  {
    if d > 1 {
      MulAtLeast(d - 1, b);
      assert d * b == (d - 1) * b + b;
    }
  }

  lemma MulMagnitude(d: int, b: int)
    requires d != 0
    ensures Abs(d * b) >= Abs(b)
  {
    var bigD: nat, bigB: nat := Abs(d), Abs(b);
    MulAtLeast(bigD, bigB);
    if d > 0 && b >= 0 {
      assert d * b == bigD * bigB;
    } else if d > 0 {
      assert d * b == -(bigD * bigB);
    } else if b >= 0 {
      assert d * b == -(bigD * bigB);
    } else {
      assert d * b == bigD * bigB;
    }
  }

  /** A remainder with those two properties fixes the quotient: TruncDiv is the only
      integer division that rounds toward zero. */
  lemma TruncDivUnique(a: int, b: int, q: int)
    requires b != 0
    requires Abs(a - q * b) < Abs(b)
    requires a >= 0 ==> a - q * b >= 0
    requires a <= 0 ==> a - q * b <= 0
    ensures q == TruncDiv(a, b)
  {
    TruncDivRemainder(a, b);
    var t := TruncDiv(a, b);
    if t != q {
      Distribute(t, q, b);
      MulMagnitude(t - q, b);
      assert false;
    }
  }

  /** Rounding toward zero, not down: -47 / 10 gives -4 where Dafny's `/` gives -5. */
  lemma TruncDivExamples()
    ensures TruncDiv(47, 10) == 4
    ensures TruncDiv(-47, 10) == -4 && -47 / 10 == -5
    ensures TruncDiv(47, -10) == -4
  {
  }

  lemma Distribute(t: int, q: int, b: int)
    ensures t * b - q * b == (t - q) * b
  {
  }

  // ---------------------------------------------------------------- str(int)

  predicate IsDigit(ch: char) {
    '0' <= ch <= '9'
  }

  function DigitChar(d: nat): (ch: char)
    requires d < 10
    ensures IsDigit(ch)
  {
    ('0' as int + d) as char
  }

  function DigitValue(ch: char): nat
    requires IsDigit(ch)
  {
    ch as int - '0' as int
  }

  /** The decimal digits of a natural number, most significant first, as `str(n)` prints them. */
  function Digits(n: nat): (s: string)
    ensures |s| >= 1
    ensures forall k :: 0 <= k < |s| ==> IsDigit(s[k])
    ensures s[0] == '0' <==> n == 0
    ensures |s| == 1 <==> n < 10
    decreases n
  {
    if n < 10 then [DigitChar(n)] else Digits(n / 10) + [DigitChar(n % 10)]
  }

  /** `str(i)` for an integer: a minus sign for negative numbers, then the digits. */
  function IntToString(i: int): (s: string)
    ensures |s| >= 1
    ensures i < 0 <==> s[0] == '-'
    ensures forall k :: (if i < 0 then 1 else 0) <= k < |s| ==> IsDigit(s[k])
    ensures i < 0 ==> |s| >= 2 && s[1] != '0'
    ensures i >= 0 && |s| > 1 ==> s[0] != '0'
  {
    if i < 0 then "-" + Digits(-i) else Digits(i)
  }

  /** Reads back a run of decimal digits. */
  function ParseDigits(s: string): nat
    requires forall k :: 0 <= k < |s| ==> IsDigit(s[k])
    decreases |s|
  {
    if s == [] then 0 else 10 * ParseDigits(s[..|s| - 1]) + DigitValue(s[|s| - 1])
  }

  /** Reads back an optionally signed decimal literal, the inverse of IntToString. */
  function ParseInt(s: string): int
    requires |s| >= 1
    requires s[0] == '-' || IsDigit(s[0])
    requires forall k :: 1 <= k < |s| ==> IsDigit(s[k])
  {
    if s[0] == '-' then -(ParseDigits(s[1..]) as int) else ParseDigits(s)
  }

  lemma {:induction false} DigitsRoundTrip(n: nat)
    ensures ParseDigits(Digits(n)) == n
    decreases n
  {
    if n >= 10 {
      var s := Digits(n);
      assert s[..|s| - 1] == Digits(n / 10);
      DigitsRoundTrip(n / 10);
    }
  }

  /** `str(int(x))` loses nothing for an integer x: the decimal string reads back as x. */
  lemma IntToStringRoundTrip(i: int)
    ensures ParseInt(IntToString(i)) == i
  {
    if i < 0 {
      assert IntToString(i)[1..] == Digits(-i);
      DigitsRoundTrip(-i);
    } else {
      DigitsRoundTrip(i);
    }
  }

  /** Different integers have different decimal strings. */
  lemma IntToStringInjective(i: int, j: int)
    requires IntToString(i) == IntToString(j)
    ensures i == j
  {
    IntToStringRoundTrip(i);
    IntToStringRoundTrip(j);
  }

  // ---------------------------------------------------------------- strings and lists

  /** `s * n`: n copies of s, and the empty string when n <= 0. */
  function Repeat(s: string, n: int): (r: string)
    ensures |r| == (if n <= 0 then 0 else n) * |s|
    decreases if n <= 0 then 0 else n
  {
    if n <= 0 then ""
    else
      var rest := Repeat(s, n - 1);
      assert (if n - 1 <= 0 then 0 else n - 1) * |s| + |s| == n * |s|;
      s + rest
  }

  /** `list(s)`: the one-character strings of s. */
  function Chars(s: string): (xs: seq<string>)
    ensures |xs| == |s|
  {
    seq(|s|, k requires 0 <= k < |s| => [s[k]])
  }

  /** `"".join(xs)`. */
  function Join(xs: seq<string>): string
    decreases |xs|
  {
    if xs == [] then "" else Join(xs[..|xs| - 1]) + xs[|xs| - 1]
  }

  /** `xs.insert(p, x)` for an index within the list (the only indices `randint(0, len(xs))` yields). */
  function Insert(xs: seq<string>, p: int, x: string): (r: seq<string>)
    requires 0 <= p <= |xs|
    ensures |r| == |xs| + 1
  {
    xs[..p] + [x] + xs[p..]
  }

  /** `del xs[p]`. */
  function RemoveAt(xs: seq<string>, p: int): (r: seq<string>)
    requires 0 <= p < |xs|
    ensures |r| == |xs| - 1
  {
    xs[..p] + xs[p + 1..]
  }

  lemma {:induction false} JoinAppend(a: seq<string>, b: seq<string>)
    ensures Join(a + b) == Join(a) + Join(b)
    decreases |b|
  {
    if b != [] {
      var b' := b[..|b| - 1];
      assert (a + b)[..|a + b| - 1] == a + b';
      assert (a + b)[|a + b| - 1] == b[|b| - 1];
      JoinAppend(a, b');
      assert Join(b) == Join(b') + b[|b| - 1];
    } else {
      assert a + b == a;
    }
  }

  /** `"".join(list(s)) == s`. */
  lemma {:induction false} JoinChars(s: string)
    ensures Join(Chars(s)) == s
    decreases |s|
  {
    if s != [] {
      var s' := s[..|s| - 1];
      assert Chars(s)[..|s| - 1] == Chars(s');
      JoinChars(s');
    }
  }

  lemma JoinSingle(x: string)
    ensures Join([x]) == x
  {
    assert [x][..0] == [];
  }

  lemma JoinSplit(xs: seq<string>, p: int)
    requires 0 <= p <= |xs|
    ensures Join(xs) == Join(xs[..p]) + Join(xs[p..])
  {
    assert xs == xs[..p] + xs[p..];
    JoinAppend(xs[..p], xs[p..]);
  }

  /** Joining after an insertion splices the inserted string in between the two halves. */
  lemma JoinInsert(xs: seq<string>, p: int, x: string)
    requires 0 <= p <= |xs|
    ensures Join(Insert(xs, p, x)) == Join(xs[..p]) + x + Join(xs[p..])
    ensures Join(xs) == Join(xs[..p]) + Join(xs[p..])
  {
    var left, right := xs[..p], xs[p..];
    JoinAppend(left + [x], right);
    JoinAppend(left, [x]);
    JoinSingle(x);
    JoinSplit(xs, p);
  }

  lemma RemoveInsert(xs: seq<string>, p: int, x: string)
    requires 0 <= p <= |xs|
    ensures RemoveAt(Insert(xs, p, x), p) == xs
  {
    var ys := Insert(xs, p, x);
    assert ys[..p] == xs[..p];
    assert ys[p + 1..] == xs[p..];
    assert xs == xs[..p] + xs[p..];
  }

  // ---------------------------------------------------------------- ASCII case

  predicate IsLower(ch: char) {
    'a' <= ch <= 'z'
  }

  predicate IsUpper(ch: char) {
    'A' <= ch <= 'Z'
  }

  function UpperChar(ch: char): (r: char)
    ensures !IsLower(r)
    ensures !IsLower(ch) ==> r == ch
    ensures IsLower(ch) ==> IsUpper(r) && r as int == ch as int - 32
  {
    if IsLower(ch) then (ch as int - 32) as char else ch
  }

  function LowerChar(ch: char): (r: char)
    ensures !IsUpper(r)
    ensures !IsUpper(ch) ==> r == ch
    ensures IsUpper(ch) ==> IsLower(r) && r as int == ch as int + 32
  {
    if IsUpper(ch) then (ch as int + 32) as char else ch
  }

  /** Changing the case of a letter and back gives the letter again, so upper- and
      lower-casing keep the letter and change only its case. */
  lemma CaseInverse(ch: char)
    ensures IsLower(ch) ==> LowerChar(UpperChar(ch)) == ch
    ensures IsUpper(ch) ==> UpperChar(LowerChar(ch)) == ch
    ensures !IsLower(ch) && !IsUpper(ch) ==> UpperChar(ch) == ch && LowerChar(ch) == ch
  {
  }

  /** `s.upper()` restricted to ASCII. */
  function Upper(s: string): (r: string)
    ensures |r| == |s|
  {
    seq(|s|, k requires 0 <= k < |s| => UpperChar(s[k]))
  }

  /** `s.lower()` restricted to ASCII. */
  function Lower(s: string): (r: string)
    ensures |r| == |s|
  {
    seq(|s|, k requires 0 <= k < |s| => LowerChar(s[k]))
  }
}

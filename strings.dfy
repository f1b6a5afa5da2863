/**
 * The JavaScript string operations the program uses, on `seq<char>`:
 * `includes`, `split` with a one-character separator, `join`, ASCII
 * lower-casing and zero-padded decimal formatting.
 */
module Strings {

  /** `s.includes(sub)`: `sub` occurs somewhere in `s` (the empty string occurs everywhere). */
  predicate Contains(s: string, sub: string)
    decreases |s|
  {
    sub <= s || (s != [] && Contains(s[1..], sub))
  }

  lemma {:induction false} ContainsAt(s: string, sub: string, i: nat)
    requires i + |sub| <= |s| && s[i..i + |sub|] == sub
    ensures Contains(s, sub)
    decreases i
  {
    if i > 0 {
      assert s[1..][i - 1..i - 1 + |sub|] == sub;
      ContainsAt(s[1..], sub, i - 1);
    } else {
      assert sub <= s;
    }
  }

  lemma {:induction false} ContainsWitness(s: string, sub: string) returns (i: nat)
    requires Contains(s, sub)
    ensures i + |sub| <= |s| && s[i..i + |sub|] == sub
    decreases |s|
  {
    if sub <= s {
      i := 0;
    } else {
      var j := ContainsWitness(s[1..], sub);
      assert s[1..][j..j + |sub|] == s[j + 1..j + 1 + |sub|];
      i := j + 1;
    }
  }

  lemma ContainsEmpty(s: string)
    ensures Contains(s, "")
  {
  }

  /** `toLocaleLowerCase` on the ASCII letters. */
  function LowerChar(c: char): char
  {
    if 'A' <= c <= 'Z' then (c as int + 32) as char else c
  }

  function Lower(s: string): (r: string)
    ensures |r| == |s|
    ensures forall k | 0 <= k < |s| :: r[k] == LowerChar(s[k])
  {
    if s == [] then [] else [LowerChar(s[0])] + Lower(s[1..])
  }

  lemma LowerIdempotent(s: string)
    ensures Lower(Lower(s)) == Lower(s)
  {
  }

  /** Index of the first `c` in `s`, or `|s|` when there is none. */
  function IndexOf(s: string, c: char): (i: nat)
    ensures i <= |s|
    ensures c !in s[..i]
    ensures i < |s| ==> s[i] == c
    ensures i == |s| <==> c !in s
  {
    if s == [] then 0
    else if s[0] == c then 0
    else
      var j := IndexOf(s[1..], c);
      assert s[..j + 1] == [s[0]] + s[1..][..j];
      j + 1
  }

  /** `s.split(c)` for a one-character separator: never empty, no part contains `c`. */
  function Split(s: string, c: char): (parts: seq<string>)
    ensures |parts| >= 1
    ensures forall k | 0 <= k < |parts| :: c !in parts[k]
    decreases |s|
  {
    var i := IndexOf(s, c);
    if i == |s| then [s] else [s[..i]] + Split(s[i + 1..], c)
  }

  /** `parts.join(sep)`. */
  function Join(parts: seq<string>, sep: string): string
  {
    if parts == [] then ""
    else if |parts| == 1 then parts[0]
    else parts[0] + sep + Join(parts[1..], sep)
  }

  /** Splitting on `c` undoes joining with `c` when no part contains `c`. */
  lemma {:induction false} SplitJoin(parts: seq<string>, c: char)
    requires |parts| >= 1
    requires forall k | 0 <= k < |parts| :: c !in parts[k]
    ensures Split(Join(parts, [c]), c) == parts
  {
    if |parts| == 1 {
      assert IndexOf(parts[0], c) == |parts[0]|;
    } else {
      var s := Join(parts, [c]);
      var rest := Join(parts[1..], [c]);
      assert s == parts[0] + [c] + rest;
      assert s[..|parts[0]|] == parts[0];
      assert IndexOf(s, c) == |parts[0]| by {
        IndexOfAfterPrefix(parts[0], rest, c);
      }
      assert s[|parts[0]| + 1..] == rest;
      SplitJoin(parts[1..], c);
    }
  }

  /** A string without the separator splits into itself alone. */
  lemma SplitWithout(s: string, c: char)
    requires c !in s
    ensures Split(s, c) == [s]
  {
  }

  /** The first part is everything before the first separator. */
  lemma SplitFirst(p: string, rest: string, c: char)
    requires c !in p
    ensures Split(p + [c] + rest, c)[0] == p
  {
    var s := p + [c] + rest;
    IndexOfAfterPrefix(p, rest, c);
    assert s[..|p|] == p;
  }

  /** The last part is everything after the last separator. */
  lemma SplitLast(p: string, v: string, c: char)
    requires c !in v
    ensures var parts := Split(p + [c] + v, c); parts[|parts| - 1] == v
  {
    SplitAtSeparator(p, v, c);
    SplitWithout(v, c);
  }

  /** Splitting at a separator splits the two sides independently. */
  lemma {:induction false} SplitAtSeparator(p: string, v: string, c: char)
    ensures Split(p + [c] + v, c) == Split(p, c) + Split(v, c)
    decreases |p|
  {
    if c !in p {
      IndexOfAfterPrefix(p, v, c);
      SplitWithout(p, c);
      SplitAfterPrefix(p, v, c);
    } else {
      var i := IndexOf(p, c);
      SplitAtSeparator(p[i + 1..], v, c);
      SplitPastFirst(p, v, c);
    }
  }

  /** The step of `SplitAtSeparator` past the first separator of `p`. */
  lemma SplitPastFirst(p: string, v: string, c: char)
    requires c in p
    requires var i := IndexOf(p, c); Split(p[i + 1..] + [c] + v, c) == Split(p[i + 1..], c) + Split(v, c)
    ensures Split(p + [c] + v, c) == Split(p, c) + Split(v, c)
  {
    var i := IndexOf(p, c);
    IndexOfBeforeSeparator(p, v, c);
    SplitAt(p + [c] + v, c, i);
    RestAfterFirst(p, v, c, i);
    SplitAt(p, c, i);
    ConsAppendAssoc(p[..i], Split(p[i + 1..], c), Split(v, c));
  }

  lemma ConsAppendAssoc<T>(x: T, a: seq<T>, b: seq<T>)
    ensures [x] + (a + b) == [x] + a + b
  {
  }

  lemma SplitAfterPrefix(p: string, v: string, c: char)
    requires c !in p && IndexOf(p + [c] + v, c) == |p|
    ensures Split(p + [c] + v, c) == [p] + Split(v, c)
  {
    var s := p + [c] + v;
    assert s[..|p|] == p;
    assert s[|p| + 1..] == v;
  }

  lemma RestAfterFirst(p: string, v: string, c: char, i: nat)
    requires i < |p|
    ensures (p + [c] + v)[..i] == p[..i]
    ensures (p + [c] + v)[i + 1..] == p[i + 1..] + [c] + v
  {
  }

  /** A separator in `p` comes before the one appended after it. */
  lemma IndexOfBeforeSeparator(p: string, v: string, c: char)
    requires c in p
    ensures IndexOf(p + [c] + v, c) == IndexOf(p, c)
  {
    var i := IndexOf(p, c);
    var s := p + [c] + v;
    assert s[..i] == p[..i];
    IndexOfFirst(s, c, i);
  }

  /** An occurrence with none before it is the one `IndexOf` finds. */
  lemma IndexOfFirst(s: string, c: char, i: nat)
    requires i < |s| && s[i] == c && c !in s[..i]
    ensures IndexOf(s, c) == i
  {
  }

  /** At the first separator, the part before it comes first and the rest is split again. */
  lemma SplitAt(s: string, c: char, i: nat)
    requires i < |s| && IndexOf(s, c) == i
    ensures Split(s, c) == [s[..i]] + Split(s[i + 1..], c)
  {
  }

  lemma IndexOfAfterPrefix(p: string, rest: string, c: char)
    requires c !in p
    ensures IndexOf(p + [c] + rest, c) == |p|
  {
    var s := p + [c] + rest;
    assert s[|p|] == c;
    assert s[..|p|] == p;
  }

  // Decimal digits

  function DigitChar(n: nat): char
    requires n < 10
  {
    ('0' as int + n) as char
  }

  predicate IsDigit(c: char)
  {
    '0' <= c <= '9'
  }

  function DigitValue(c: char): nat
    requires IsDigit(c)
  {
    c as int - '0' as int
  }

  /** The shortest decimal spelling of `n`. */
  function Decimal(n: nat): (s: string)
    ensures |s| >= 1
    ensures forall k | 0 <= k < |s| :: IsDigit(s[k])
  {
    if n < 10 then [DigitChar(n)] else Decimal(n / 10) + [DigitChar(n % 10)]
  }

  /** The number a string of digits spells (most significant digit first). */
  function DigitsValue(s: string): nat
    requires forall k | 0 <= k < |s| :: IsDigit(s[k])
  {
    if s == [] then 0 else DigitsValue(s[..|s| - 1]) * 10 + DigitValue(s[|s| - 1])
  }

  lemma {:induction false} DecimalValue(n: nat)
    ensures DigitsValue(Decimal(n)) == n
  {
    if n >= 10 {
      DecimalValue(n / 10);
      var s := Decimal(n);
      assert s[..|s| - 1] == Decimal(n / 10);
    }
  }

  function Zeros(k: nat): (s: string)
    ensures |s| == k
    ensures forall i | 0 <= i < k :: s[i] == '0'
  {
    if k == 0 then [] else Zeros(k - 1) + ['0']
  }

  /** Leading zeros do not change the value of a digit string. */
  lemma {:induction false} LeadingZerosValue(k: nat, s: string)
    requires forall i | 0 <= i < |s| :: IsDigit(s[i])
    ensures DigitsValue(Zeros(k) + s) == DigitsValue(s)
    decreases |s|, k
  {
    var z := Zeros(k) + s;
    if s == [] {
      assert z == Zeros(k);
      if k > 0 {
        assert z[..|z| - 1] == Zeros(k - 1);
        LeadingZerosValue(k - 1, []);
        assert Zeros(k - 1) + [] == Zeros(k - 1);
      }
    } else {
      assert z[..|z| - 1] == Zeros(k) + s[..|s| - 1];
      LeadingZerosValue(k, s[..|s| - 1]);
    }
  }

  /** `n` in decimal, left-padded with zeros to at least `width` characters. */
  function PadDecimal(n: nat, width: nat): (s: string)
    ensures |s| >= width && |s| >= |Decimal(n)|
    ensures forall k | 0 <= k < |s| :: IsDigit(s[k])
  {
    var d := Decimal(n);
    (if |d| < width then Zeros(width - |d|) else []) + d
  }

  /** Padding is undone by reading the digits back. */
  lemma PadDecimalValue(n: nat, width: nat)
    ensures DigitsValue(PadDecimal(n, width)) == n
  {
    var d := Decimal(n);
    DecimalValue(n);
    if |d| < width {
      LeadingZerosValue(width - |d|, d);
    } else {
      assert PadDecimal(n, width) == d;
    }
  }

  lemma DecimalLength(n: nat, width: nat)
    requires width >= 1
    requires n < Pow10(width)
    ensures |Decimal(n)| <= width
  {
    if n >= 10 {
      DecimalLength(n / 10, width - 1);
    }
  }

  function Pow10(k: nat): (r: nat)
    ensures r >= 1
  {
    if k == 0 then 1 else 10 * Pow10(k - 1)
  }

  /** A number below `10^width` pads to exactly `width` characters. */
  lemma PadDecimalLength(n: nat, width: nat)
    requires width >= 1 && n < Pow10(width)
    ensures |PadDecimal(n, width)| == width
  {
    DecimalLength(n, width);
  }

  /** Distinct numbers of at most `width` digits pad to distinct strings. */
  lemma PadDecimalInjective(a: nat, b: nat, width: nat)
    requires PadDecimal(a, width) == PadDecimal(b, width)
    ensures a == b
  {
    PadDecimalValue(a, width);
    PadDecimalValue(b, width);
  }
}

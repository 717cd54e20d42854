/** Decimal notation of non-negative integers as JavaScript writes them
    (`String(n)`, `"arg_" + n`), the order in which JavaScript compares two
    strings, and the default `Array.prototype.sort()` that orders numbers by
    that string order. */
module Decimal {

  predicate IsDigit(c: char) { '0' <= c <= '9' }

  predicate AllDigits(s: string) { forall j :: 0 <= j < |s| ==> IsDigit(s[j]) }

  function DigitChar(d: nat): char
    requires d < 10
  {
    ('0' as int + d) as char
  }

  function DigitValue(c: char): nat
    requires IsDigit(c)
  {
    c as int - '0' as int
  }

  /** `String(n)` for a non-negative integer: its shortest decimal form, which
      never has a leading zero. */
  function Dec(n: nat): (s: string)
    ensures 1 <= |s| && AllDigits(s)
    ensures |s| == 1 <==> n < 10
    ensures s[0] == '0' ==> n == 0
  {
    if n < 10 then [DigitChar(n)] else Dec(n / 10) + [DigitChar(n % 10)]
  }

  /** The number a string of decimal digits denotes (leading zeros allowed). */
  function Value(s: string): nat
    requires AllDigits(s)
  {
    if s == [] then 0 else Value(s[..|s| - 1]) * 10 + DigitValue(s[|s| - 1])
  }

  /** Reading back what `Dec` writes gives the number. */
  lemma {:induction false} ValueOfDec(n: nat)
    ensures Value(Dec(n)) == n
  {
    if n >= 10 {
      var s := Dec(n);
      assert s[..|s| - 1] == Dec(n / 10);
      ValueOfDec(n / 10);
    }
  }

  /** Distinct numbers have distinct decimal forms. */
  lemma DecInjective(x: nat, y: nat)
    ensures Dec(x) == Dec(y) ==> x == y
  {
    ValueOfDec(x);
    ValueOfDec(y);
  }

  /** A decimal form is longer exactly when the number is larger by at least
      a power of ten: fewer digits means a smaller number. */
  lemma {:induction false} ShorterDecIsSmaller(x: nat, y: nat)
    requires |Dec(x)| < |Dec(y)|
    ensures x < y
  {
    if x >= 10 {
      ShorterDecIsSmaller(x / 10, y / 10);
    }
  }

  /** `a < b` on JavaScript strings: lexicographic on code units, with a proper
      prefix before the longer string. */
  predicate LexLess(a: string, b: string)
    decreases |a|
  {
    if |a| == 0 then |b| > 0
    else if |b| == 0 then false
    else a[0] < b[0] || (a[0] == b[0] && LexLess(a[1..], b[1..]))
  }

  lemma {:induction false} LexIrreflexive(a: string)
    ensures !LexLess(a, a)
    decreases |a|
  {
    if |a| > 0 {
      LexIrreflexive(a[1..]);
    }
  }

  lemma {:induction false} LexAsymmetric(a: string, b: string)
    ensures !(LexLess(a, b) && LexLess(b, a))
    decreases |a|
  {
    if |a| > 0 && |b| > 0 && a[0] == b[0] {
      LexAsymmetric(a[1..], b[1..]);
    }
  }

  lemma {:induction false} LexTransitive(a: string, b: string, c: string)
    requires LexLess(a, b) && LexLess(b, c)
    ensures LexLess(a, c)
    decreases |a|
  {
    if |a| > 0 && a[0] == b[0] && b[0] == c[0] {
      LexTransitive(a[1..], b[1..], c[1..]);
    }
  }

  lemma {:induction false} LexTotal(a: string, b: string)
    requires a != b
    ensures LexLess(a, b) || LexLess(b, a)
    decreases |a|
  {
    if |a| > 0 && |b| > 0 && a[0] == b[0] {
      assert a == [a[0]] + a[1..] && b == [b[0]] + b[1..];
      LexTotal(a[1..], b[1..]);
    }
  }

  /** On strings of the same length, appending one character each compares
      the prefixes first and the characters second. */
  lemma {:induction false} LexLessAppend(a: string, b: string, c: char, d: char)
    requires |a| == |b|
    ensures LexLess(a + [c], b + [d]) <==> LexLess(a, b) || (a == b && c < d)
    decreases |a|
  {
    if |a| > 0 {
      assert (a + [c])[1..] == a[1..] + [c];
      assert (b + [d])[1..] == b[1..] + [d];
      LexLessAppend(a[1..], b[1..], c, d);
      if a[0] == b[0] && a[1..] == b[1..] {
        assert a == [a[0]] + a[1..] && b == [b[0]] + b[1..];
      }
    }
  }

  /** The comparison the default `sort()` applies to two numbers: their
      decimal strings in string order. */
  predicate DecLess(x: nat, y: nat)
  {
    LexLess(Dec(x), Dec(y))
  }

  /** Decimal-string order is a strict total order on the numbers. */
  lemma DecOrder(x: nat, y: nat, z: nat)
    ensures !DecLess(x, x)
    ensures x != y ==> (DecLess(x, y) <==> !DecLess(y, x))
    ensures DecLess(x, y) && DecLess(y, z) ==> DecLess(x, z)
  {
    LexIrreflexive(Dec(x));
    LexAsymmetric(Dec(x), Dec(y));
    DecInjective(x, y);
    if x != y {
      LexTotal(Dec(x), Dec(y));
    }
    if DecLess(x, y) && DecLess(y, z) {
      LexTransitive(Dec(x), Dec(y), Dec(z));
    }
  }

  /** Decimal-string order agrees with numeric order exactly when the two
      numbers have the same number of digits; otherwise it can disagree. */
  lemma {:induction false} DecLessSameLength(x: nat, y: nat)
    requires |Dec(x)| == |Dec(y)|
    ensures DecLess(x, y) <==> x < y
  {
    if x >= 10 {
      assert y >= 10;
      var a, b := Dec(x / 10), Dec(y / 10);
      var c, d := DigitChar(x % 10), DigitChar(y % 10);
      assert Dec(x) == a + [c] && Dec(y) == b + [d];
      LexLessAppend(a, b, c, d);
      DecLessSameLength(x / 10, y / 10);
      DecInjective(x / 10, y / 10);
      assert c < d <==> x % 10 < y % 10;
      assert x == 10 * (x / 10) + x % 10 && y == 10 * (y / 10) + y % 10;
    } else {
      assert y < 10;
      var c, d := DigitChar(x), DigitChar(y);
      assert Dec(x) == [] + [c] && Dec(y) == [] + [d];
      LexLessAppend([], [], c, d);
      assert c < d <==> x < y;
    }
  }

  /** Every element before index `j` is not greater than every later one. */
  predicate SortedByDec(s: seq<nat>)
  {
    forall i, j :: 0 <= i < j < |s| ==> !DecLess(s[j], s[i])
  }

  function Insert(x: nat, s: seq<nat>): (r: seq<nat>)
    ensures multiset(r) == multiset(s) + multiset{x}
    ensures SortedByDec(s) ==> SortedByDec(r)
  {
    if s == [] then [x]
    else if DecLess(s[0], x) then
      var rest := Insert(x, s[1..]);
      assert s == [s[0]] + s[1..];
      InsertAfterSmaller(x, s, rest);
      [s[0]] + rest
    else
      InsertBeforeNotSmaller(x, s);
      [x] + s
  }

  lemma InsertAfterSmaller(x: nat, s: seq<nat>, rest: seq<nat>)
    requires s != [] && DecLess(s[0], x)
    requires multiset(rest) == multiset(s[1..]) + multiset{x}
    requires SortedByDec(s) ==> SortedByDec(rest)
    ensures SortedByDec(s) ==> SortedByDec([s[0]] + rest)
  {
    if SortedByDec(s) {
      forall k | 0 <= k < |rest|
        ensures !DecLess(rest[k], s[0])
      {
        assert rest[k] in multiset(rest);
        DecOrder(s[0], x, x);
        if rest[k] != x {
          assert rest[k] in s[1..];
        }
      }
    }
  }

  lemma InsertBeforeNotSmaller(x: nat, s: seq<nat>)
    requires s != [] && !DecLess(s[0], x)
    ensures SortedByDec(s) ==> SortedByDec([x] + s)
  {
    if SortedByDec(s) {
      forall k | 0 <= k < |s|
        ensures !DecLess(s[k], x)
      {
        if k > 0 {
          assert !DecLess(s[k], s[0]);
        }
        DecOrder(s[0], s[k], x);
      }
    }
  }

  /** `Array.prototype.sort()` without a comparator, on non-negative integers:
      a permutation of its input in decimal-string order. */
  function DefaultSort(s: seq<nat>): (r: seq<nat>)
    ensures multiset(r) == multiset(s)
    ensures SortedByDec(r)
  {
    if s == [] then []
    else
      assert s == [s[0]] + s[1..];
      Insert(s[0], DefaultSort(s[1..]))
  }
}

/** The contract of CLogRotatingFileSink::GenerateFileName(time_t): a pure function
    of a timestamp in whole seconds whose results sort, as plain strings, in the
    order of their timestamps. The implementation of the rotating sink is not
    part of this model, so the body given here is a STAND-IN that meets the
    contract, not the library's own format: the decimal digits of the timestamp,
    preceded by one 'z' per digit beyond the first, so that a longer number
    always sorts after a shorter one. */
module FileName {

  /** std::wstring operator<: lexicographic order by character, where a proper
      prefix comes first. */
  predicate LexLess(a: string, b: string)
  {
    if b == [] then false
    else if a == [] then true
    else a[0] < b[0] || (a[0] == b[0] && LexLess(a[1..], b[1..]))
  }

  lemma {:induction false} LexLessIrreflexive(a: string)
    ensures !LexLess(a, a)
  {
    if a != [] {
      LexLessIrreflexive(a[1..]);
    }
  }

  lemma {:induction false} LexLessTransitive(a: string, b: string, c: string)
    requires LexLess(a, b) && LexLess(b, c)
    ensures LexLess(a, c)
  {
    if a != [] && a[0] == b[0] && b[0] == c[0] {
      LexLessTransitive(a[1..], b[1..], c[1..]);
    }
  }

  /** Two strings of equal length that already differ keep their order whatever
      follows them. */
  lemma {:induction false} LexLessAppend(a: string, b: string, u: string, v: string)
    requires |a| == |b| && LexLess(a, b)
    ensures LexLess(a + u, b + v)
  {
    assert (a + u)[0] == a[0] && (b + v)[0] == b[0];
    if a[0] == b[0] {
      LexLessAppend(a[1..], b[1..], u, v);
      assert (a + u)[1..] == a[1..] + u;
      assert (b + v)[1..] == b[1..] + v;
    }
  }

  /** A common prefix does not change the order. */
  lemma {:induction false} LexLessPrefix(p: string, a: string, b: string)
    requires LexLess(a, b)
    ensures LexLess(p + a, p + b)
  {
    if p == [] {
      assert p + a == a && p + b == b;
    } else {
      LexLessPrefix(p[1..], a, b);
      assert (p + a)[0] == p[0] == (p + b)[0];
      assert (p + a)[1..] == p[1..] + a;
      assert (p + b)[1..] == p[1..] + b;
    }
  }

  predicate IsDigit(c: char)
  {
    '0' <= c <= '9'
  }

  function DigitChar(k: nat): (c: char)
    requires k < 10
    ensures IsDigit(c)
  {
    ('0' as int + k) as char
  }

  /** The decimal digits of `n`, most significant first, without leading zeros. */
  function Digits(n: nat): (d: string)
    ensures |d| >= 1
    ensures forall i :: 0 <= i < |d| ==> IsDigit(d[i])
    ensures n < 10 <==> |d| == 1
  {
    if n < 10 then [DigitChar(n)] else Digits(n / 10) + [DigitChar(n % 10)]
  }

  function Repeat(c: char, k: nat): (s: string)
  {
    if k == 0 then [] else [c] + Repeat(c, k - 1)
  }

  /** The stand-in name: see the module comment. */
  function GenerateFileName(now: nat): string
  {
    var d := Digits(now);
    Repeat('z', |d| - 1) + d
  }

  lemma {:induction false} DigitsLengthMonotone(a: nat, b: nat)
    requires a <= b
    ensures |Digits(a)| <= |Digits(b)|
  {
    if a >= 10 {
      DigitsLengthMonotone(a / 10, b / 10);
    }
  }

  /** Digit strings of the same width sort like the numbers they spell. */
  lemma {:induction false} DigitsOrdered(a: nat, b: nat)
    requires a < b && |Digits(a)| == |Digits(b)|
    ensures LexLess(Digits(a), Digits(b))
  {
    if a < 10 {
      assert Digits(a) == [DigitChar(a)] && Digits(b) == [DigitChar(b)];
    } else if a / 10 == b / 10 {
      assert a % 10 < b % 10;
      assert LexLess([DigitChar(a % 10)], [DigitChar(b % 10)]);
      LexLessPrefix(Digits(a / 10), [DigitChar(a % 10)], [DigitChar(b % 10)]);
    } else {
      DigitsOrdered(a / 10, b / 10);
      LexLessAppend(Digits(a / 10), Digits(b / 10), [DigitChar(a % 10)], [DigitChar(b % 10)]);
    }
  }

  /** A name with a shorter 'z' prefix sorts first: where it reaches its first
      digit, the longer prefix still has a 'z', which sorts after every digit. */
  lemma {:induction false} WiderSortsLater(j: nat, k: nat, d: string, e: string)
    requires j < k && |d| >= 1 && IsDigit(d[0])
    ensures LexLess(Repeat('z', j) + d, Repeat('z', k) + e)
  {
    assert Repeat('z', k) == ['z'] + Repeat('z', k - 1);
    assert (Repeat('z', k) + e)[0] == 'z';
    if j == 0 {
      assert (Repeat('z', j) + d)[0] == d[0];
    } else {
      assert Repeat('z', j) == ['z'] + Repeat('z', j - 1);
      WiderSortsLater(j - 1, k - 1, d, e);
      assert (Repeat('z', j) + d)[1..] == Repeat('z', j - 1) + d;
      assert (Repeat('z', k) + e)[1..] == Repeat('z', k - 1) + e;
    }
  }

  /** What the test asserts of consecutive seconds: the later name sorts after
      the earlier one. */
  lemma NameStep(t: nat)
    ensures LexLess(GenerateFileName(t), GenerateFileName(t + 1))
  {
    var d, e := Digits(t), Digits(t + 1);
    DigitsLengthMonotone(t, t + 1);
    if |d| == |e| {
      DigitsOrdered(t, t + 1);
      LexLessPrefix(Repeat('z', |d| - 1), d, e);
    } else {
      WiderSortsLater(|d| - 1, |e| - 1, d, e);
    }
  }

  /** By induction on the gap, from the step: for any two instants, the earlier
      name sorts first. */
  lemma {:induction false} NameMonotone(t1: nat, t2: nat)
    requires t1 < t2
    ensures LexLess(GenerateFileName(t1), GenerateFileName(t2))
    decreases t2 - t1
  {
    NameStep(t2 - 1);
    if t1 < t2 - 1 {
      NameMonotone(t1, t2 - 1);
      LexLessTransitive(GenerateFileName(t1), GenerateFileName(t2 - 1), GenerateFileName(t2));
    }
  }

  /** Sorting names reproduces chronological order, in both directions; in
      particular different instants never share a name. */
  lemma NameOrderIsTimeOrder(t1: nat, t2: nat)
    ensures LexLess(GenerateFileName(t1), GenerateFileName(t2)) <==> t1 < t2
    ensures GenerateFileName(t1) == GenerateFileName(t2) <==> t1 == t2
  {
    LexLessIrreflexive(GenerateFileName(t1));
    if t1 < t2 {
      NameMonotone(t1, t2);
    } else if t2 < t1 {
      NameMonotone(t2, t1);
      if LexLess(GenerateFileName(t1), GenerateFileName(t2)) {
        LexLessTransitive(GenerateFileName(t1), GenerateFileName(t2), GenerateFileName(t1));
      }
    }
  }

  /** The three expectations of the RotatingLogFile.GenerateFileName test: the
      names of `now` and `now + 1` differ, the first sorts before the second,
      and asking twice for the same instant gives the same name. The last one
      holds by construction, since GenerateFileName is a function. */
  lemma GenerateFileNameTest(now: nat)
    ensures GenerateFileName(now) != GenerateFileName(now + 1)
    ensures LexLess(GenerateFileName(now), GenerateFileName(now + 1))
    ensures GenerateFileName(now) == GenerateFileName(now)
  {
    NameStep(now);
    LexLessIrreflexive(GenerateFileName(now));
  }
}

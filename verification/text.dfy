/** Character-level helpers the ticket store relies on: ASCII lower-casing
    (pandas `str.lower`), decimal digits and their value (MySQL's
    `CAST(... AS UNSIGNED)`), the two zero-padding rules (Python's `04d`
    format and MySQL's `LPAD`), and the string order MySQL uses for
    `ORDER BY query_id`. */
module Text {

  /** Lower-cases one ASCII letter and keeps every other character. */
  function LowerChar(c: char): char {
    if 'A' <= c <= 'Z' then (c as int + 32) as char else c
  }

  /** `str.lower` on ASCII: no upper-case letter is left, and a character
      changes only when it is an upper-case letter, into its lower case. */
  function Lower(s: string): (r: string)
    ensures |r| == |s|
    ensures forall i :: 0 <= i < |r| ==> !('A' <= r[i] <= 'Z')
    ensures forall i :: 0 <= i < |s| && r[i] != s[i] ==>
              'A' <= s[i] <= 'Z' && r[i] as int == s[i] as int + 32
  {
    seq(|s|, i requires 0 <= i < |s| => LowerChar(s[i]))
  }

  predicate IsDigit(c: char) {
    '0' <= c <= '9'
  }

  predicate AllDigits(s: string) {
    forall i :: 0 <= i < |s| ==> IsDigit(s[i])
  }

  function DigitValue(c: char): nat
    requires IsDigit(c)
  {
    c as int - '0' as int
  }

  function DigitChar(d: nat): (c: char)
    requires d < 10
    ensures IsDigit(c) && DigitValue(c) == d
  {
    ('0' as int + d) as char
  }

  function Pow10(k: nat): (p: nat)
    ensures p >= 1
  {
    if k == 0 then 1 else 10 * Pow10(k - 1)
  }

  /** The number a digit string denotes, read left to right. */
  function Value(s: string): nat
    requires AllDigits(s)
    decreases |s|
  {
    if s == [] then 0 else Value(s[..|s| - 1]) * 10 + DigitValue(s[|s| - 1])
  }

  /** The shortest decimal rendering of `n` (Python's `str(n)`); reading it
      back gives `n`, and it has no leading zero. */
  function Decimal(n: nat): (r: string)
    ensures 1 <= |r| && AllDigits(r)
    ensures Value(r) == n
    ensures |r| > 1 ==> r[0] != '0'
  {
    if n < 10 then
      [DigitChar(n)]
    else
      var front := Decimal(n / 10);
      var r := front + [DigitChar(n % 10)];
      assert r[..|r| - 1] == front;
      assert |front| == 1 ==> Value(front) == DigitValue(front[0]) by {
        if |front| == 1 {
          assert front[..0] == [];
        }
      }
      r
  }

  /** `Decimal(n)` fits in `k` characters exactly when `n < 10^k`. */
  lemma {:induction false} DecimalLength(n: nat, k: nat)
    requires k >= 1
    ensures |Decimal(n)| <= k <==> n < Pow10(k)
    decreases n
  {
    if n >= 10 {
      if k == 1 {
        assert |Decimal(n / 10)| >= 1;
      } else {
        DecimalLength(n / 10, k - 1);
        assert n / 10 < Pow10(k - 1) <==> n < Pow10(k);
      }
    } else {
      if k > 1 {
        assert Pow10(k) == 10 * Pow10(k - 1);
      }
    }
  }

  function Zeros(k: nat): (r: string)
    ensures |r| == k && AllDigits(r)
    ensures forall i :: 0 <= i < k ==> r[i] == '0'
  {
    if k == 0 then [] else Zeros(k - 1) + ['0']
  }

  /** Leading zeros do not change the value of a digit string. */
  lemma {:induction false} ValueIgnoresLeadingZeros(k: nat, s: string)
    requires AllDigits(s)
    ensures AllDigits(Zeros(k) + s)
    ensures Value(Zeros(k) + s) == Value(s)
    decreases |s|, k
  {
    if s == [] {
      assert Zeros(k) + s == Zeros(k);
      if k > 0 {
        ValueIgnoresLeadingZeros(k - 1, s);
        assert Zeros(k)[..k - 1] == Zeros(k - 1) + s;
      }
    } else {
      var z := Zeros(k) + s;
      assert z[..|z| - 1] == Zeros(k) + s[..|s| - 1];
      ValueIgnoresLeadingZeros(k, s[..|s| - 1]);
    }
  }

  /** Python's zero fill for the format spec `0<width>d`: pads on the
      left up to `width` characters and never cuts a longer string. */
  function ZeroFill(s: string, width: nat): (r: string)
    ensures |r| == if |s| >= width then |s| else width
    ensures r[|r| - |s|..] == s
    ensures forall i :: 0 <= i < |r| - |s| ==> r[i] == '0'
    ensures AllDigits(s) ==> AllDigits(r) && Value(r) == Value(s)
  {
    if |s| >= width then s
    else
      var r := Zeros(width - |s|) + s;
      assert r[|r| - |s|..] == s;
      if AllDigits(s) then ValueIgnoresLeadingZeros(width - |s|, s); r else r
  }

  /** MySQL's `LPAD(str, len, '0')`: always exactly `len` characters,
      padding a shorter string on the left and cutting a longer one to its
      first `len` characters. */
  function Lpad(s: string, width: nat): (r: string)
    ensures |r| == width
    ensures |s| <= width ==> r == ZeroFill(s, width)
    ensures |s| > width ==> r == s[..width]
    ensures AllDigits(s) ==> AllDigits(r)
  {
    if |s| > width then s[..width] else ZeroFill(s, width)
  }

  /** Lexicographic order on code points, the order `ORDER BY query_id`
      uses for the ids this store holds. */
  predicate LexLe(a: string, b: string)
    decreases |a|
  {
    a == [] || (b != [] && (a[0] < b[0] || (a[0] == b[0] && LexLe(a[1..], b[1..]))))
  }

  lemma {:induction false} LexLeTotal(a: string, b: string)
    ensures LexLe(a, b) || LexLe(b, a)
    decreases |a|
  {
    if a != [] && b != [] && a[0] == b[0] {
      LexLeTotal(a[1..], b[1..]);
    }
  }

  lemma {:induction false} LexLeTransitive(a: string, b: string, c: string)
    requires LexLe(a, b) && LexLe(b, c)
    ensures LexLe(a, c)
    decreases |a|
  {
    if a != [] && a[0] == b[0] && b[0] == c[0] {
      LexLeTransitive(a[1..], b[1..], c[1..]);
    }
  }

  lemma {:induction false} LexLeAntisymmetric(a: string, b: string)
    requires LexLe(a, b) && LexLe(b, a)
    ensures a == b
    decreases |a|
  {
    if a != [] {
      LexLeAntisymmetric(a[1..], b[1..]);
      assert a == [a[0]] + a[1..];
      assert b == [b[0]] + b[1..];
    }
  }

  /** A common first character does not affect the order. */
  lemma LexLeCommonHead(c: char, a: string, b: string)
    ensures LexLe([c] + a, [c] + b) <==> LexLe(a, b)
  {
    assert ([c] + a)[1..] == a;
    assert ([c] + b)[1..] == b;
  }

  /** Reading a digit string from its first digit. */
  lemma {:induction false} ValueFromFront(s: string)
    requires AllDigits(s) && |s| >= 1
    ensures Value(s) == DigitValue(s[0]) * Pow10(|s| - 1) + Value(s[1..])
    decreases |s|
  {
    if |s| == 1 {
      assert s[..0] == [];
      assert s[1..] == [];
    } else {
      var init := s[..|s| - 1];
      ValueFromFront(init);
      assert init[1..] == s[1..][..|s| - 2];
      var p := Pow10(|s| - 2);
      var d := DigitValue(s[0]);
      calc {
        Value(s);
        Value(init) * 10 + DigitValue(s[|s| - 1]);
        (d * p + Value(init[1..])) * 10 + DigitValue(s[|s| - 1]);
        { assert (d * p) * 10 == d * (10 * p); }
        d * Pow10(|s| - 1) + (Value(s[1..][..|s| - 2]) * 10 + DigitValue(s[|s| - 1]));
        d * Pow10(|s| - 1) + Value(s[1..]);
      }
    }
  }

  /** A string of k digits denotes a number below 10^k. */
  lemma {:induction false} ValueBound(s: string)
    requires AllDigits(s)
    ensures Value(s) < Pow10(|s|)
    decreases |s|
  {
    if s != [] {
      ValueBound(s[..|s| - 1]);
    }
  }

  /** A smaller leading digit outweighs whatever the remaining digits hold. */
  lemma LeadingDigitDominates(da: nat, db: nat, p: nat, ra: nat, rb: nat)
    requires da < db && ra < p
    ensures da * p + ra < db * p + rb
  {
    var k := db - da;
    assert db * p == da * p + k * p by {
      assert db == da + k;
    }
    MultipleAtLeast(k, p);
  }

  lemma {:induction false} MultipleAtLeast(k: nat, p: nat)
    requires k >= 1
    ensures k * p >= p
  {
    if k > 1 {
      MultipleAtLeast(k - 1, p);
      assert k * p == (k - 1) * p + p;
    }
  }

  /** Two digit strings of one length with the same value are equal. */
  lemma SameLengthSameValue(a: string, b: string)
    requires AllDigits(a) && AllDigits(b) && |a| == |b| && Value(a) == Value(b)
    ensures a == b
  {
    LexLeIsNumericOrder(a, b);
    LexLeIsNumericOrder(b, a);
    LexLeAntisymmetric(a, b);
  }

  /** Reading a non-empty digit string and zero-filling the number back to
      the same width gives the string again. */
  lemma DigitsRoundTrip(s: string)
    requires AllDigits(s) && |s| >= 1
    ensures ZeroFill(Decimal(Value(s)), |s|) == s
  {
    ValueBound(s);
    DecimalLength(Value(s), |s|);
    SameLengthSameValue(ZeroFill(Decimal(Value(s)), |s|), s);
  }

  /** On digit strings of equal length, string order is numeric order. */
  lemma {:induction false} LexLeIsNumericOrder(a: string, b: string)
    requires AllDigits(a) && AllDigits(b) && |a| == |b|
    ensures LexLe(a, b) <==> Value(a) <= Value(b)
    decreases |a|
  {
    if a != [] {
      ValueFromFront(a);
      ValueFromFront(b);
      ValueBound(a[1..]);
      ValueBound(b[1..]);
      var p := Pow10(|a| - 1);
      var da, db := DigitValue(a[0]), DigitValue(b[0]);
      if da < db {
        LeadingDigitDominates(da, db, p, Value(a[1..]), Value(b[1..]));
      } else if da > db {
        LeadingDigitDominates(db, da, p, Value(b[1..]), Value(a[1..]));
      } else {
        LexLeIsNumericOrder(a[1..], b[1..]);
      }
    }
  }
}

/** Decimal text: what the library gets from fmt ("{}", "{:0Nd}"), from sscanf ("%Nd"
    over a field of digits), from std::string::resize and from its `trim` lambda. */
module Digits {
  import opened Arith

  predicate IsDigit(c: char) {
    '0' <= c <= '9'
  }

  predicate AllDigits(s: string) {
    forall i :: 0 <= i < |s| ==> IsDigit(s[i])
  }

  function DigitChar(d: nat): (c: char)
    requires d < 10
    ensures IsDigit(c)
  {
    ('0' as int + d) as char
  }

  function DigitValue(c: char): (d: nat)
    requires IsDigit(c)
    ensures d < 10
  {
    c as int - '0' as int
  }

  function Pow10(n: nat): (r: nat)
    ensures r >= 1
  {
    if n == 0 then 1 else 10 * Pow10(n - 1)
  }

  /** `k` copies of the character '0'. */
  function Zeros(k: nat): (s: string)
    ensures |s| == k && AllDigits(s)
    ensures forall i :: 0 <= i < k ==> s[i] == '0'
  {
    seq(k, _ => '0')
  }

  /** The number denoted by a field of decimal digits, most significant first. */
  function Value(s: string): nat
    requires AllDigits(s)
  {
    if |s| == 0 then 0 else Value(s[..|s| - 1]) * 10 + DigitValue(s[|s| - 1])
  }

  /** fmt's "{}" of a non-negative integer: its shortest decimal text. */
  function Decimal(n: nat): string
  {
    if n < 10 then [DigitChar(n)] else Decimal(n / 10) + [DigitChar(n % 10)]
  }

  /** fmt's "{:0<width>d}" of a non-negative integer: the decimal text, left-padded
      with zeros up to `width` characters and never shortened. */
  function ZeroPadded(n: nat, width: nat): string
  {
    var d := Decimal(n);
    if |d| >= width then d else Zeros(width - |d|) + d
  }

  /** std::string::resize(n, c): truncate to `n` characters or extend with copies of `c`. */
  function Resize(s: string, n: nat, c: char): (r: string)
    ensures |r| == n
    ensures forall i :: 0 <= i < n ==> r[i] == (if i < |s| then s[i] else c)
  {
    if |s| >= n then s[..n] else s + seq(n - |s|, _ => c)
  }

  /** std::string::find_last_not_of(c): the last position not holding `c`, or -1 (npos). */
  function LastNotOf(s: string, c: char): (n: int)
    ensures -1 <= n < |s|
    ensures n >= 0 ==> s[n] != c
    ensures forall i :: n < i < |s| ==> s[i] == c
  {
    if |s| == 0 then -1
    else if s[|s| - 1] != c then |s| - 1
    else LastNotOf(s[..|s| - 1], c)
  }

  /** The library's `trim` lambda: drop the trailing '0' characters; a string holding
      nothing else is returned unchanged. */
  function Trim(s: string): string
  {
    var n := LastNotOf(s, '0');
    if n == -1 then s else s[..n + 1]
  }

  // ---------------------------------------------------------------- lemmas

  lemma ValueSnoc(s: string, c: char)
    requires AllDigits(s) && IsDigit(c)
    ensures AllDigits(s + [c]) && Value(s + [c]) == Value(s) * 10 + DigitValue(c)
  {
    assert (s + [c])[..|s + [c]| - 1] == s;
  }

  lemma {:induction false} ValueBound(s: string)
    requires AllDigits(s)
    ensures Value(s) < Pow10(|s|)
  {
    if |s| > 0 {
      ValueBound(s[..|s| - 1]);
    }
  }

  /** Concatenating digit fields multiplies the value of the first by a power of ten. */
  lemma {:induction false} ValueAppend(s: string, t: string)
    requires AllDigits(s) && AllDigits(t)
    ensures AllDigits(s + t)
    ensures Value(s + t) == Value(s) * Pow10(|t|) + Value(t)
  {
    if |t| == 0 {
      assert s + t == s;
    } else {
      var t', c := t[..|t| - 1], t[|t| - 1];
      assert t == t' + [c];
      ValueAppend(s, t');
      ValueAppendStep(s, t', c);
    }
  }

  /** The step of `ValueAppend`: one more digit at the end of the second field. */
  lemma ValueAppendStep(s: string, t: string, c: char)
    requires AllDigits(s) && AllDigits(t) && IsDigit(c) && AllDigits(s + t)
    requires Value(s + t) == Value(s) * Pow10(|t|) + Value(t)
    ensures AllDigits(s + (t + [c]))
    ensures Value(s + (t + [c])) == Value(s) * Pow10(|t| + 1) + Value(t + [c])
  {
    assert s + (t + [c]) == (s + t) + [c];
    ValueSnoc(s + t, c);
    ValueSnoc(t, c);
    var a, p, b, d := Value(s), Pow10(|t|), Value(t), DigitValue(c);
    assert Pow10(|t| + 1) == p * 10;
    ShiftDigit(a, p, b, d);
  }

  lemma ShiftDigit(a: int, p: int, b: int, d: int)
    ensures (a * p + b) * 10 + d == a * (p * 10) + (b * 10 + d)
  {
  }

  lemma {:induction false} ValueZeros(k: nat)
    ensures Value(Zeros(k)) == 0
  {
    if k > 0 {
      assert Zeros(k)[..k - 1] == Zeros(k - 1);
      ValueZeros(k - 1);
    }
  }

  /** "{}" writes only digits, at least one, with no superfluous leading zero, and
      reading them back gives the number. */
  lemma {:induction false} DecimalFacts(n: nat)
    ensures AllDigits(Decimal(n)) && |Decimal(n)| >= 1
    ensures Value(Decimal(n)) == n
    ensures n < Pow10(|Decimal(n)|)
    ensures n >= 1 ==> Pow10(|Decimal(n)| - 1) <= n
  {
    if n >= 10 {
      DecimalFacts(n / 10);
      ValueSnoc(Decimal(n / 10), DigitChar(n % 10));
    }
  }

  lemma {:induction false} Pow10Monotone(i: nat, j: nat)
    requires i <= j
    ensures Pow10(i) <= Pow10(j)
  {
    if i < j {
      Pow10Monotone(i, j - 1);
    }
  }

  /** "{:0Nd}" of a number below 10^N is exactly N digits whose value is the number. */
  lemma ZeroPaddedFacts(n: nat, width: nat)
    requires width >= 1 && n < Pow10(width)
    ensures |ZeroPadded(n, width)| == width
    ensures AllDigits(ZeroPadded(n, width))
    ensures Value(ZeroPadded(n, width)) == n
  {
    var d := Decimal(n);
    DecimalFacts(n);
    DecimalFits(n, width);
    if |d| < width {
      var z := Zeros(width - |d|);
      ValueAppend(z, d);
      ValueZeros(width - |d|);
      assert Value(z + d) == 0 * Pow10(|d|) + Value(d);
    }
  }

  /** A number below 10^N has at most N digits. */
  lemma DecimalFits(n: nat, width: nat)
    requires width >= 1 && n < Pow10(width)
    ensures |Decimal(n)| <= width
  {
    DecimalFacts(n);
    if n >= 1 {
      Pow10Below(|Decimal(n)| - 1, width);
    }
  }

  lemma Pow10Below(i: nat, j: nat)
    requires Pow10(i) < Pow10(j)
    ensures i < j
  {
    if i >= j {
      Pow10Monotone(j, i);
    }
  }

  /** The fixed-width text of a number below 10^N is all '0' exactly when the number is 0. */
  lemma ZeroPaddedIsZeros(n: nat, width: nat)
    requires width >= 1 && n < Pow10(width)
    ensures ZeroPadded(n, width) == Zeros(width) <==> n == 0
  {
    ZeroPaddedFacts(n, width);
    if n == 0 {
      assert Decimal(0) == "0";
      assert ZeroPadded(n, width) == Zeros(width);
    } else if ZeroPadded(n, width) == Zeros(width) {
      ValueZeros(width);
      assert false;
    }
  }

  /** Trimming removes only '0' characters from the end, so padding with '0' restores
      the original; and unless nothing but zeros was there, the result ends in a non-zero. */
  lemma TrimFacts(s: string)
    ensures |Trim(s)| <= |s| && Trim(s) == s[..|Trim(s)|]
    ensures Resize(Trim(s), |s|, '0') == s
    ensures (exists i :: 0 <= i < |s| && s[i] != '0') ==>
              |Trim(s)| >= 1 && Trim(s)[|Trim(s)| - 1] != '0'
  {
    var n := LastNotOf(s, '0');
    var r := Resize(Trim(s), |s|, '0');
    assert forall i :: 0 <= i < |s| ==> r[i] == s[i];
  }

  /** Trimming a digit text with a non-zero digit in it leaves a non-empty digit text,
      no longer than the original, that ends in a non-zero digit. */
  lemma TrimDigits(s: string)
    requires AllDigits(s) && exists i :: 0 <= i < |s| && s[i] != '0'
    ensures var f := Trim(s);
      1 <= |f| <= |s| && AllDigits(f) && f[|f| - 1] != '0'
  {
    TrimFacts(s);
    var f := Trim(s);
    assert forall i :: 0 <= i < |f| ==> f[i] == s[i];
  }

  /** Trimming undoes padding with zeros of a text that does not end in '0'. */
  lemma {:induction false} TrimPadded(t: string, k: nat)
    requires |t| >= 1 && t[|t| - 1] != '0'
    ensures LastNotOf(t + Zeros(k), '0') == |t| - 1
    ensures Trim(t + Zeros(k)) == t
  {
    if k > 0 {
      assert (t + Zeros(k))[..|t| + k - 1] == t + Zeros(k - 1);
      TrimPadded(t, k - 1);
    }
    assert (t + Zeros(k))[..|t|] == t;
  }

  /** The text of a positive number times 10^k is its own text followed by k zeros. */
  lemma {:induction false} DecimalShift(n: nat, k: nat)
    requires n >= 1
    ensures Decimal(n * Pow10(k)) == Decimal(n) + Zeros(k)
  {
    if k > 0 {
      DecimalShift(n, k - 1);
      var p := Pow10(k - 1);
      var m := n * p;
      TimesTen(n, p);
      FloorDivUnique(m * 10, 10, m, 0);
      assert Decimal(m * 10) == Decimal(m) + [DigitChar(0)];
      assert Zeros(k) == Zeros(k - 1) + ['0'];
    }
  }

  lemma TimesTen(n: int, p: int)
    requires n >= 1 && p >= 1
    ensures n * (10 * p) == (n * p) * 10 && n * p >= 1
  {
    MulMonotone(n, 1, p);
  }

  /** The value of a field of two, three or four given digits. */
  lemma Value2(a: char, b: char)
    requires IsDigit(a) && IsDigit(b)
    ensures AllDigits([a, b]) && Value([a, b]) == DigitValue(a) * 10 + DigitValue(b)
  {
    assert [a, b][..1] == [a] && [a][..0] == [];
    assert Value([a]) == DigitValue(a);
  }

  lemma Value3(a: char, b: char, c: char)
    requires IsDigit(a) && IsDigit(b) && IsDigit(c)
    ensures AllDigits([a, b, c])
    ensures Value([a, b, c]) == (DigitValue(a) * 10 + DigitValue(b)) * 10 + DigitValue(c)
  {
    assert [a, b, c][..2] == [a, b];
    Value2(a, b);
  }

  lemma Value4(a: char, b: char, c: char, d: char)
    requires IsDigit(a) && IsDigit(b) && IsDigit(c) && IsDigit(d)
    ensures AllDigits([a, b, c, d])
    ensures Value([a, b, c, d])
              == ((DigitValue(a) * 10 + DigitValue(b)) * 10 + DigitValue(c)) * 10 + DigitValue(d)
  {
    assert [a, b, c, d][..3] == [a, b, c];
    Value3(a, b, c);
  }

  /** The text of a one-digit number, zero-padded to `width`. */
  lemma PaddedDigit(n: nat, width: nat)
    requires n < 10 && width >= 1
    ensures ZeroPadded(n, width) == Zeros(width - 1) + [DigitChar(n)]
  {
  }

  /** A text ending in a non-zero character is its own trim. */
  lemma TrimKeeps(s: string)
    requires |s| >= 1 && s[|s| - 1] != '0'
    ensures Trim(s) == s
  {
    assert s[..|s|] == s;
  }

  /** The zero-padded fields of 2000-01-02T03:04:05, the time the formatting tests use. */
  lemma PaddedClockFields()
    ensures ZeroPadded(2000, 4) == "2000"
    ensures ZeroPadded(1, 2) == "01" && ZeroPadded(2, 2) == "02" && ZeroPadded(3, 2) == "03"
    ensures ZeroPadded(4, 2) == "04" && ZeroPadded(5, 2) == "05"
  {
    assert Decimal(2000) == "2000" by {
      assert Decimal(2) == "2"; assert Decimal(20) == "20"; assert Decimal(200) == "200";
    }
    PaddedDigit(1, 2); PaddedDigit(2, 2); PaddedDigit(3, 2); PaddedDigit(4, 2); PaddedDigit(5, 2);
  }

  /** The zero-padded sub-second groups the formatting tests print, three digits each. */
  lemma PaddedMilliFields()
    ensures ZeroPadded(0, 3) == "000" && ZeroPadded(6, 3) == "006" && ZeroPadded(7, 3) == "007"
    ensures ZeroPadded(8, 3) == "008" && ZeroPadded(9, 3) == "009"
    ensures ZeroPadded(678, 3) == "678" && ZeroPadded(900, 3) == "900"
  {
    PaddedDigit(0, 3); PaddedDigit(6, 3); PaddedDigit(7, 3); PaddedDigit(8, 3); PaddedDigit(9, 3);
    assert Decimal(678) == "678" by { assert Decimal(6) == "6"; assert Decimal(67) == "67"; }
    assert Decimal(900) == "900" by { assert Decimal(9) == "9"; assert Decimal(90) == "90"; }
  }

  /** The zero-padded sub-second groups the formatting tests print, six digits each. */
  lemma PaddedMicroFields()
    ensures ZeroPadded(0, 6) == "000000" && ZeroPadded(6, 6) == "000006"
    ensures ZeroPadded(7, 6) == "000007" && ZeroPadded(678_900, 6) == "678900"
  {
    PaddedDigit(0, 6); PaddedDigit(6, 6); PaddedDigit(7, 6);
    assert Decimal(678) == "678" by { assert Decimal(6) == "6"; assert Decimal(67) == "67"; }
    assert Decimal(678_900) == "678900" by {
      assert Decimal(6789) == "6789"; assert Decimal(67890) == "67890";
    }
  }
}

/** The few JavaScript string operations the server relies on, over `string`
    (= `seq<char>`): `String(n)` / `n.toString()` for a natural number,
    `Number(s)` for a string of decimal digits, `padStart`, `split` on one
    character and `startsWith`. */
module Text {

  predicate IsDigit(c: char) {
    '0' <= c <= '9'
  }

  predicate AllDigits(s: string) {
    forall i :: 0 <= i < |s| ==> IsDigit(s[i])
  }

  function DigitChar(d: nat): (c: char)
    requires d < 10
    ensures IsDigit(c) && c as int - '0' as int == d
  {
    ('0' as int + d) as char
  }

  function DigitValue(c: char): (d: nat)
    requires IsDigit(c)
    ensures d < 10
  {
    c as int - '0' as int
  }

  /** `String(n)`: the decimal digits of `n`, without leading zeros. */
  function NatToString(n: nat): (s: string)
    ensures 1 <= |s| && AllDigits(s)
    ensures |s| == 1 <==> n < 10
    ensures n >= 10 ==> s[0] != '0'
  {
    if n < 10 then [DigitChar(n)] else NatToString(n / 10) + [DigitChar(n % 10)]
  }

  /** `Number(s)` for a string made only of decimal digits; `Number("")` is 0.
      A digit string without a leading zero is what `String` writes for its
      number. */
  function Number(s: string): (r: nat)
    requires AllDigits(s)
    ensures s != [] && s[0] != '0' ==> NatToString(r) == s
  {
    if s == [] then 0 else Number(s[..|s| - 1]) * 10 + DigitValue(s[|s| - 1])
  }

  /** Reading back what `String` wrote gives the number. */
  lemma {:induction false} NumberOfNatToString(n: nat)
    ensures Number(NatToString(n)) == n
  {
    var s := NatToString(n);
    if n >= 10 {
      NumberOfNatToString(n / 10);
      assert s[..|s| - 1] == NatToString(n / 10);
    }
  }

  lemma NatToStringInjective(a: nat, b: nat)
    ensures NatToString(a) == NatToString(b) <==> a == b
  {
    NumberOfNatToString(a);
    NumberOfNatToString(b);
  }

  function Zeros(k: nat): (z: string)
    ensures |z| == k && AllDigits(z)
    ensures forall i :: 0 <= i < k ==> z[i] == '0'
  {
    if k == 0 then [] else Zeros(k - 1) + ['0']
  }

  /** Leading zeros do not change `Number`. */
  lemma {:induction false} NumberIgnoresLeadingZeros(k: nat, s: string)
    requires AllDigits(s)
    ensures Number(Zeros(k) + s) == Number(s)
  {
    if s == [] {
      assert Zeros(k) + s == Zeros(k);
      NumberOfZeros(k);
    } else {
      var t := Zeros(k) + s;
      assert t[..|t| - 1] == Zeros(k) + s[..|s| - 1];
      NumberIgnoresLeadingZeros(k, s[..|s| - 1]);
    }
  }

  lemma {:induction false} NumberOfZeros(k: nat)
    ensures Number(Zeros(k)) == 0
  {
    if k > 0 {
      assert Zeros(k)[..k - 1] == Zeros(k - 1);
      NumberOfZeros(k - 1);
    }
  }

  /** `s.padStart(width, '0')`: pads on the left, never truncates. */
  function PadStart(s: string, width: nat): (r: string)
    ensures |r| == if |s| >= width then |s| else width
    ensures r == Zeros(|r| - |s|) + s
  {
    if |s| >= width then (assert Zeros(0) + s == s; s) else Zeros(width - |s|) + s
  }

  /** `s.split(sep)` for a one-character separator. */
  function Split(s: string, sep: char): (parts: seq<string>)
    ensures |parts| >= 1
  {
    if s == [] then [""]
    else
      var rest := Split(s[1..], sep);
      if s[0] == sep then [""] + rest else [[s[0]] + rest[0]] + rest[1..]
  }

  lemma {:induction false} SplitWithoutSeparator(s: string, sep: char)
    requires sep !in s
    ensures Split(s, sep) == [s]
  {
    if s != [] {
      SplitWithoutSeparator(s[1..], sep);
      assert [s[0]] + s[1..] == s;
    }
  }

  /** Splitting at the first separator peels off the first field. */
  lemma {:induction false} SplitAtFirstSeparator(a: string, sep: char, b: string)
    requires sep !in a
    ensures Split(a + [sep] + b, sep) == [a] + Split(b, sep)
  {
    if a == [] {
      assert a + [sep] + b == [sep] + b;
      assert ([sep] + b)[1..] == b;
    } else {
      assert (a + [sep] + b)[1..] == a[1..] + [sep] + b;
      SplitAtFirstSeparator(a[1..], sep, b);
      assert [a[0]] + a[1..] == a;
    }
  }

  lemma DigitsHaveNoSeparator(s: string, c: char)
    requires AllDigits(s) && !IsDigit(c)
    ensures c !in s
  {
  }

  /** `s.startsWith(prefix)`. */
  predicate StartsWith(s: string, prefix: string) {
    |prefix| <= |s| && s[..|prefix|] == prefix
  }

  /** The number of decimal digits `s` starts with. */
  function LeadingDigits(s: string): (n: nat)
    ensures n <= |s|
    ensures forall k :: 0 <= k < n ==> IsDigit(s[k])
    ensures n < |s| ==> !IsDigit(s[n])
  {
    if s == [] || !IsDigit(s[0]) then 0 else 1 + LeadingDigits(s[1..])
  }

  /** The digit run is determined by its first non-digit. */
  lemma LeadingDigitsUnique(s: string, n: nat)
    requires n < |s| && !IsDigit(s[n])
    requires forall k :: 0 <= k < n ==> IsDigit(s[k])
    ensures LeadingDigits(s) == n
  {
  }

  /** A prefix that already contains its first non-digit fixes the digit run
      of every string starting with it. */
  lemma LeadingDigitsOfPrefix(s: string, p: string)
    ensures StartsWith(s, p) && LeadingDigits(p) < |p| ==> LeadingDigits(s) == LeadingDigits(p)
  {
    if StartsWith(s, p) && LeadingDigits(p) < |p| {
      var n := LeadingDigits(p);
      assert s[n] == p[n];
      forall k | 0 <= k < n ensures IsDigit(s[k]) {
        assert s[k] == p[k];
      }
      LeadingDigitsUnique(s, n);
    }
  }
}

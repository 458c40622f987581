/**
  The key order of the image map: `NumericStringCompare` (ImageLoader.h).

  Two names are compared by the integers `std::stoi` reads from them; when
  either conversion throws, the names are compared as plain strings.
  `std::stoi` skips leading white space, accepts one optional sign, reads the
  longest run of decimal digits and ignores whatever follows; it throws when
  there is no digit at all or when the value does not fit in a 32-bit `int`.
 */
module NumericOrder {
  import opened Wrappers
  import opened Orders
  import opened Int32

  /** White space as `isspace` classifies it in the "C" locale. */
  predicate IsSpace(c: char) {
    c == ' ' || c == '\t' || c == '\n' || c == '\U{B}' || c == '\U{C}' || c == '\r'
  }

  predicate IsDigit(c: char) {
    '0' <= c <= '9'
  }

  predicate AllDigits(s: string) {
    forall i :: 0 <= i < |s| ==> IsDigit(s[i])
  }

  function DigitValue(c: char): nat
    requires IsDigit(c)
  {
    c as int - '0' as int
  }

  /** The input with its leading white space removed. */
  function SkipSpace(s: string): (r: string)
    ensures |r| <= |s| && r == s[|s| - |r|..]
    ensures forall i :: 0 <= i < |s| - |r| ==> IsSpace(s[i])
    ensures |r| > 0 ==> !IsSpace(r[0])
  {
    if |s| > 0 && IsSpace(s[0]) then SkipSpace(s[1..]) else s
  }

  /** Length of the longest prefix made of decimal digits. */
  function DigitRun(s: string): (n: nat)
    ensures n <= |s|
    ensures AllDigits(s[..n])
    ensures n < |s| ==> !IsDigit(s[n])
  {
    if |s| > 0 && IsDigit(s[0]) then
      var n := 1 + DigitRun(s[1..]);
      assert s[..n] == [s[0]] + s[1..][..n - 1];
      n
    else 0
  }

  /** The number a run of decimal digits denotes, most significant first. */
  function DigitsValue(ds: string): nat
    requires AllDigits(ds)
  {
    if |ds| == 0 then 0 else DigitsValue(ds[..|ds| - 1]) * 10 + DigitValue(ds[|ds| - 1])
  }

  /** The value of the digit run a string begins with; None when it begins with no digit. */
  function ParseDigits(t: string): Option<int> {
    var n := DigitRun(t);
    if n == 0 then None else Some(DigitsValue(t[..n]))
  }

  /** One optional sign, then a digit run. */
  function ParseSigned(t: string): Option<int> {
    if |t| > 0 && t[0] == '-' then
      match ParseDigits(t[1..])
      case None => None
      case Some(v) => Some(-v)
    else if |t| > 0 && t[0] == '+' then ParseDigits(t[1..])
    else ParseDigits(t)
  }

  /**
    What `strtol(s, &end, 10)` reads before any range check: None when no
    digit follows the white space and the optional sign.
   */
  function ParseLeadingInt(s: string): Option<int> {
    ParseSigned(SkipSpace(s))
  }

  /** `std::stoi(s)`: None stands for the thrown `invalid_argument` or `out_of_range`. */
  function Stoi(s: string): (r: Option<int>)
    ensures r.Some? ==> IntMin <= r.value <= IntMax
    ensures r.Some? <==> ParseLeadingInt(s).Some? && IntMin <= ParseLeadingInt(s).value <= IntMax
  {
    match ParseLeadingInt(s)
    case None => None
    case Some(v) => if IntMin <= v <= IntMax then Some(v) else None
  }

  /** `std::string::operator<`: lexicographic order on characters. */
  predicate LexLess(a: string, b: string) {
    if |a| == 0 then |b| > 0
    else if |b| == 0 then false
    else if a[0] != b[0] then a[0] < b[0]
    else LexLess(a[1..], b[1..])
  }

  /** `NumericStringCompare::operator()(a, b)`. */
  predicate NumericLess(a: string, b: string) {
    match (Stoi(a), Stoi(b))
    case (Some(x), Some(y)) => x < y
    case _ => LexLess(a, b)
  }

  // ---------------------------------------------------------------------------
  // Lexicographic order

  lemma {:induction false} LexIrreflexive(a: string)
    ensures !LexLess(a, a)
  {
    if |a| > 0 {
      LexIrreflexive(a[1..]);
    }
  }

  lemma {:induction false} LexAsymmetric(a: string, b: string)
    ensures LexLess(a, b) ==> !LexLess(b, a)
  {
    if |a| > 0 && |b| > 0 && a[0] == b[0] {
      LexAsymmetric(a[1..], b[1..]);
    }
  }

  lemma {:induction false} LexTransitive(a: string, b: string, c: string)
    requires LexLess(a, b) && LexLess(b, c)
    ensures LexLess(a, c)
  {
    if |a| > 0 && a[0] == b[0] && b[0] == c[0] {
      LexTransitive(a[1..], b[1..], c[1..]);
    }
  }

  lemma {:induction false} LexConnected(a: string, b: string)
    ensures a == b || LexLess(a, b) || LexLess(b, a)
  {
    if |a| > 0 && |b| > 0 && a[0] == b[0] {
      LexConnected(a[1..], b[1..]);
      if a[1..] == b[1..] {
        assert a == [a[0]] + a[1..] && b == [b[0]] + b[1..];
      }
    }
  }

  // ---------------------------------------------------------------------------
  // The comparator

  lemma NumericLessIrreflexive(a: string)
    ensures !NumericLess(a, a)
  {
    LexIrreflexive(a);
  }

  lemma NumericLessAsymmetric(a: string, b: string)
    ensures NumericLess(a, b) ==> !NumericLess(b, a)
  {
    LexAsymmetric(a, b);
  }

  /**
    Two names are the same map key exactly when they are the same string or
    both convert to the same integer ("1", "01" and "1a" are one key).
   */
  lemma EquivalentIff(a: string, b: string)
    ensures Equivalent(NumericLess, a, b) <==> a == b || (Stoi(a).Some? && Stoi(a) == Stoi(b))
  {
    if Stoi(a).Some? && Stoi(b).Some? {
      EquivalentByValue(a, b);
    } else {
      EquivalentAsStrings(a, b);
    }
  }

  lemma EquivalentByValue(a: string, b: string)
    requires Stoi(a).Some? && Stoi(b).Some?
    ensures Equivalent(NumericLess, a, b) <==> Stoi(a) == Stoi(b)
  {
    var x, y := Stoi(a).value, Stoi(b).value;
    assert NumericLess(a, b) == (x < y) && NumericLess(b, a) == (y < x);
  }

  lemma EquivalentAsStrings(a: string, b: string)
    requires Stoi(a).None? || Stoi(b).None?
    ensures Equivalent(NumericLess, a, b) <==> a == b
  {
    LexConnected(a, b);
    LexIrreflexive(a);
  }

  lemma NumericEquivalentTransitive(a: string, b: string, c: string)
    requires Equivalent(NumericLess, a, b) && Equivalent(NumericLess, b, c)
    ensures Equivalent(NumericLess, a, c)
  {
    EquivalentIff(a, b);
    EquivalentIff(b, c);
    EquivalentIff(a, c);
  }

  /**
    The comparator is irreflexive and asymmetric on all strings, and its
    equivalence is transitive on all strings: only the transitivity of the
    order itself can fail.
   */
  lemma NumericKeyOrder()
    ensures KeyOrder(NumericLess)
  {
    forall a ensures !NumericLess(a, a) {
      NumericLessIrreflexive(a);
    }
    forall a, b ensures NumericLess(a, b) ==> !NumericLess(b, a) {
      NumericLessAsymmetric(a, b);
    }
    forall a, b, c | Equivalent(NumericLess, a, b) && Equivalent(NumericLess, b, c)
      ensures Equivalent(NumericLess, a, c)
    {
      NumericEquivalentTransitive(a, b, c);
    }
  }

  /** Over names that all convert, the comparator orders by value: a strict weak order. */
  lemma ParsedNamesStrictWeakOrder(xs: set<string>)
    requires forall x :: x in xs ==> Stoi(x).Some?
    ensures StrictWeakOrderOn(NumericLess, xs)
  {
    NumericKeyOrder();
  }

  /** Over names none of which converts, the comparator is plain string order: a strict total order. */
  lemma UnparsedNamesStrictTotalOrder(xs: set<string>)
    requires forall x :: x in xs ==> Stoi(x).None?
    ensures StrictWeakOrderOn(NumericLess, xs)
    ensures forall a, b :: a in xs && b in xs && a != b ==> NumericLess(a, b) || NumericLess(b, a)
  {
    NumericKeyOrder();
    forall a, b, c | a in xs && b in xs && c in xs && NumericLess(a, b) && NumericLess(b, c)
      ensures NumericLess(a, c)
    {
      LexTransitive(a, b, c);
    }
    forall a, b | a in xs && b in xs && a != b
      ensures NumericLess(a, b) || NumericLess(b, a)
    {
      LexConnected(a, b);
    }
  }

  // ---------------------------------------------------------------------------
  // Decimal renderings read back

  function Digit(d: nat): (c: char)
    requires d < 10
    ensures IsDigit(c) && DigitValue(c) == d
  {
    ('0' as int + d) as char
  }

  /** The shortest decimal rendering of a natural number. */
  function ToDigits(m: nat): (ds: string)
    ensures |ds| > 0 && AllDigits(ds)
  {
    if m < 10 then [Digit(m)] else ToDigits(m / 10) + [Digit(m % 10)]
  }

  /** `std::to_string` of an integer. */
  function Decimal(n: int): string {
    if n < 0 then "-" + ToDigits(-n) else ToDigits(n)
  }

  function Zeros(k: nat): (z: string)
    ensures |z| == k && AllDigits(z)
    ensures forall i :: 0 <= i < k ==> z[i] == '0'
  {
    if k == 0 then [] else Zeros(k - 1) + ['0']
  }

  lemma {:induction false} ToDigitsValue(m: nat)
    ensures DigitsValue(ToDigits(m)) == m
  {
    var ds := ToDigits(m);
    if m >= 10 {
      ToDigitsValue(m / 10);
      assert ds[..|ds| - 1] == ToDigits(m / 10);
    }
  }

  /** Appending a digit shifts the value one decimal place. */
  lemma DigitsValueSnoc(ds: string, c: char)
    requires AllDigits(ds) && IsDigit(c)
    ensures AllDigits(ds + [c])
    ensures DigitsValue(ds + [c]) == DigitsValue(ds) * 10 + DigitValue(c)
  {
    assert (ds + [c])[..|ds|] == ds;
  }

  lemma {:induction false} ZerosValue(k: nat)
    ensures DigitsValue(Zeros(k)) == 0
  {
    if k > 0 {
      ZerosValue(k - 1);
      DigitsValueSnoc(Zeros(k - 1), '0');
    }
  }

  /** Leading zeros do not change the value of a digit run. */
  lemma {:induction false} LeadingZerosValue(k: nat, ds: string)
    requires AllDigits(ds)
    ensures AllDigits(Zeros(k) + ds)
    ensures DigitsValue(Zeros(k) + ds) == DigitsValue(ds)
  {
    var s := Zeros(k) + ds;
    assert AllDigits(s) by {
      forall i | 0 <= i < |s| ensures IsDigit(s[i]) {
        if i < k { assert s[i] == Zeros(k)[i]; } else { assert s[i] == ds[i - k]; }
      }
    }
    if |ds| == 0 {
      assert s == Zeros(k);
      ZerosValue(k);
    } else {
      LeadingZerosValue(k, ds[..|ds| - 1]);
      assert s[..|s| - 1] == Zeros(k) + ds[..|ds| - 1];
      assert s[|s| - 1] == ds[|ds| - 1];
    }
  }

  lemma {:induction false} DigitRunStops(ds: string, suffix: string)
    requires AllDigits(ds)
    requires |suffix| == 0 || !IsDigit(suffix[0])
    ensures DigitRun(ds + suffix) == |ds|
    ensures (ds + suffix)[..|ds|] == ds
  {
    if |ds| > 0 {
      DigitRunStops(ds[1..], suffix);
      assert (ds + suffix)[1..] == ds[1..] + suffix;
    }
  }

  /** A string that starts with a digit has no sign to read. */
  lemma UnsignedStart(t: string)
    requires |t| > 0 && IsDigit(t[0])
    ensures ParseLeadingInt(t) == ParseDigits(t)
  {
    NoSpaceToSkip(t);
  }

  /** The digit run at the head of `t` is `ds`. */
  lemma DigitsAtHead(t: string, ds: string)
    requires |ds| > 0 && DigitRun(t) == |ds| && t[..|ds|] == ds
    ensures ParseDigits(t) == Some(DigitsValue(t[..|ds|]) as int)
  {
  }

  /** A digit run (and whatever non-digit follows) after no white space and no sign. */
  lemma ParseUnsigned(ds: string, suffix: string)
    requires |ds| > 0 && AllDigits(ds)
    requires |suffix| == 0 || !IsDigit(suffix[0])
    ensures ParseLeadingInt(ds + suffix) == Some(DigitsValue(ds) as int)
  {
    DigitRunStops(ds, suffix);
    UnsignedStart(ds + suffix);
    DigitsAtHead(ds + suffix, ds);
  }

  lemma DigitsParse(ds: string)
    requires |ds| > 0 && AllDigits(ds)
    ensures ParseDigits(ds) == Some(DigitsValue(ds) as int)
  {
    DigitRunStops(ds, []);
    assert ds + [] == ds;
    assert ds[..|ds|] == ds;
  }

  /** Nothing is skipped before a leading non-space. */
  lemma NoSpaceToSkip(t: string)
    requires |t| > 0 && !IsSpace(t[0])
    ensures ParseLeadingInt(t) == ParseSigned(t)
  {
  }

  /** A '-' followed by a digit run reads as the negated run. */
  lemma MinusThenDigits(t: string, ds: string)
    requires |ds| > 0 && AllDigits(ds)
    requires |t| > 0 && t[0] == '-' && t[1..] == ds
    ensures ParseSigned(t) == Some(-(DigitsValue(ds) as int))
  {
    DigitsParse(ds);
  }

  lemma ParseNegative(ds: string)
    requires |ds| > 0 && AllDigits(ds)
    ensures ParseLeadingInt(['-'] + ds) == Some(-(DigitsValue(ds) as int))
  {
    NoSpaceToSkip(['-'] + ds);
    MinusThenDigits(['-'] + ds, ds);
  }

  /** Reading back `std::to_string(n)` gives `n` for every 32-bit `n`. */
  lemma DecimalRoundTrip(n: int)
    requires IntMin <= n <= IntMax
    ensures Stoi(Decimal(n)) == Some(n)
  {
    if n < 0 {
      NegativeDecimalParses(n);
    } else {
      NaturalDecimalParses(n);
    }
  }

  lemma NaturalDecimalParses(n: nat)
    ensures ParseLeadingInt(Decimal(n)) == Some(n)
  {
    var ds := ToDigits(n);
    ToDigitsValue(n);
    assert ds + [] == ds;
    ParseUnsigned(ds, []);
  }

  lemma NegativeDecimalParses(n: int)
    requires n < 0
    ensures ParseLeadingInt(Decimal(n)) == Some(n)
  {
    ToDigitsValue(-n);
    ParseNegative(ToDigits(-n));
  }

  /**
    A zero-padded decimal number followed by anything that does not begin
    with a digit converts to that number: "0002", "12" and "1a" all convert.
   */
  lemma StoiPaddedNumber(k: nat, m: nat, suffix: string)
    requires m <= IntMax
    requires |suffix| == 0 || !IsDigit(suffix[0])
    ensures Stoi(Zeros(k) + ToDigits(m) + suffix) == Some(m)
  {
    var ds := Zeros(k) + ToDigits(m);
    LeadingZerosValue(k, ToDigits(m));
    ToDigitsValue(m);
    ParseUnsigned(ds, suffix);
  }

  function Pow10(k: nat): nat {
    if k == 0 then 1 else 10 * Pow10(k - 1)
  }

  /** A digit run that does not start with '0' is at least 10^(length - 1). */
  lemma {:induction false} DigitsValueLowerBound(ds: string)
    requires |ds| > 0 && AllDigits(ds) && ds[0] != '0'
    ensures DigitsValue(ds) >= Pow10(|ds| - 1)
  {
    if |ds| > 1 {
      var init := ds[..|ds| - 1];
      assert init[0] == ds[0];
      DigitsValueLowerBound(init);
    }
  }

  /** Eleven or more digits without a leading zero never fit in an `int`, whatever follows. */
  lemma LongNumberOverflows(ds: string, suffix: string)
    requires |ds| >= 11 && AllDigits(ds) && ds[0] != '0'
    requires |suffix| == 0 || !IsDigit(suffix[0])
    ensures Stoi(ds + suffix) == None
  {
    ParseUnsigned(ds, suffix);
    DigitsValueLowerBound(ds);
    Pow10Monotone(10, |ds| - 1);
    assert Pow10(10) == 10000000000;
  }

  lemma {:induction false} Pow10Monotone(i: nat, j: nat)
    requires i <= j
    ensures Pow10(i) <= Pow10(j)
  {
    if i < j {
      Pow10Monotone(i, j - 1);
    }
  }

  /** A name that begins with anything but white space, a sign or a digit never converts. */
  lemma NoLeadingNumberFails(s: string)
    requires |s| == 0 || (!IsSpace(s[0]) && !IsDigit(s[0]) && s[0] != '-' && s[0] != '+')
    ensures Stoi(s) == None
  {
  }

  // ---------------------------------------------------------------------------
  // Consequences for the map

  lemma SameValueEquivalent(a: string, b: string)
    requires Stoi(a).Some? && Stoi(a) == Stoi(b)
    ensures Equivalent(NumericLess, a, b)
  {
  }

  lemma StoiOfOne()
    ensures Stoi("1") == Some(1) && Stoi("01") == Some(1) && Stoi("1a") == Some(1)
  {
    StoiOfDigit1();
    StoiOfDigits01();
    StoiOfDigit1a();
  }

  lemma StoiOfDigit1()
    ensures Stoi("1") == Some(1)
  {
    StoiOfDigits("1", 1);
  }

  lemma StoiOfDigits01()
    ensures Stoi("01") == Some(1)
  {
    StoiOfDigits("01", 1);
  }

  lemma StoiOfDigit1a()
    ensures Stoi("1a") == Some(1)
  {
    StoiOfDigitsThen("1", "a", 1);
  }

  lemma StoiOfDigits(ds: string, v: int)
    requires |ds| > 0 && AllDigits(ds) && DigitsValue(ds) == v <= IntMax
    ensures Stoi(ds) == Some(v)
  {
    ParseUnsigned(ds, "");
    assert ds + "" == ds;
  }

  lemma StoiOfDigitsThen(ds: string, suffix: string, v: int)
    requires |ds| > 0 && AllDigits(ds) && DigitsValue(ds) == v <= IntMax
    requires |suffix| == 0 || !IsDigit(suffix[0])
    ensures Stoi(ds + suffix) == Some(v)
  {
    ParseUnsigned(ds, suffix);
  }

  /** "1", "01" and "1a" convert to the same integer, so they are a single map key. */
  lemma SameValueNamesShareKey()
    ensures Equivalent(NumericLess, "1", "01")
    ensures Equivalent(NumericLess, "01", "1a")
    ensures Equivalent(NumericLess, "1", "1a")
  {
    StoiOfOne();
    SameValueEquivalent("1", "01");
    SameValueEquivalent("01", "1a");
    SameValueEquivalent("1", "1a");
  }

  lemma StoiOfSmallNames()
    ensures Stoi("2") == Some(2) && Stoi("10") == Some(10)
  {
    StoiOfDigits("2", 2);
    StoiOfDigits("10", 10);
  }

  lemma StoiOfBigName()
    ensures Stoi("10000000000") == None
  {
    var big := "10000000000";
    LongNumberOverflows(big, "");
    assert big + "" == big;
  }

  lemma TwoBeforeTen()
    ensures NumericLess("2", "10")
  {
    StoiOfSmallNames();
  }

  lemma TenBeforeBig()
    ensures NumericLess("10", "10000000000")
  {
    StoiOfSmallNames();
    StoiOfBigName();
    var big := "10000000000";
    assert LexLess("10", big) by {
      assert big[1..][1..] == "000000000";
      assert "10"[1..][1..] == "";
    }
  }

  lemma BigBeforeTwo()
    ensures NumericLess("10000000000", "2")
  {
    StoiOfBigName();
    assert LexLess("10000000000", "2");
  }

  /**
    Once a name overflows `int`, the fallback to string order breaks
    transitivity: "2" < "10" by value, "10" < "10000000000" and
    "10000000000" < "2" as strings.
   */
  lemma OverflowBreaksTransitivity()
    ensures NumericLess("2", "10")
    ensures NumericLess("10", "10000000000")
    ensures NumericLess("10000000000", "2")
    ensures !TransitiveOn(NumericLess, {"2", "10", "10000000000"})
  {
    TwoBeforeTen();
    TenBeforeBig();
    BigBeforeTwo();
    NumericKeyOrder();
    CycleNotTransitive(NumericLess, "2", "10", "10000000000");
  }
}

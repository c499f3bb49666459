/** Decimal numerals: plain digit strings and the dot-grouped form the parsers accept
    (`\d{1,3}(?:\.\d{3})*`, e.g. `1.000.000`). */
module Numerals {
  import opened Text

  /** CPython's default cap on the digits `int()` converts from text
      (`sys.get_int_max_str_digits()`, 4300): a longer digit string raises `ValueError`, which
      every parser catches and turns into `None`. */
  const MaxStrDigits: nat := 4300

  /** `int(d)` converts the digit string `d` without raising. */
  predicate IntReadable(d: string) {
    |d| <= MaxStrDigits
  }

  predicate AllDigits(s: string) {
    forall p :: 0 <= p < |s| ==> IsDigit(s[p])
  }

  /** The number a digit string denotes, most significant digit first; leading zeros are
      allowed, as in Python's `int("007")`. */
  function Value(s: string): nat
    requires AllDigits(s)
    decreases |s|
  {
    if |s| == 0 then 0 else 10 * Value(s[..|s| - 1]) + DigitValue(s[|s| - 1])
  }

  function Pow10(k: nat): (r: nat)
    ensures r >= 1
  {
    if k == 0 then 1 else 10 * Pow10(k - 1)
  }

  lemma {:induction false} Pow10Grows(a: nat, b: nat)
    requires a <= b
    ensures Pow10(a) <= Pow10(b)
    decreases b
  {
    if a < b {
      Pow10Grows(a, b - 1);
    }
  }

  lemma AppendDigits(a: string, b: string)
    requires AllDigits(a) && AllDigits(b)
    ensures AllDigits(a + b)
  {
    var ab := a + b;
    forall p | 0 <= p < |ab| ensures IsDigit(ab[p]) {
      if p < |a| { assert ab[p] == a[p]; } else { assert ab[p] == b[p - |a|]; }
    }
  }

  lemma ShiftArith(x: nat, p: nat, y: nat, d: nat)
    ensures 10 * (x * p + y) + d == x * (10 * p) + (10 * y + d)
  {
  }

  /** Appending digits shifts the value left by their count. */
  lemma {:induction false} ValueAppend(a: string, b: string)
    requires AllDigits(a) && AllDigits(b)
    ensures AllDigits(a + b)
    ensures Value(a + b) == Value(a) * Pow10(|b|) + Value(b)
    decreases |b|
  {
    AppendDigits(a, b);
    var ab := a + b;
    if |b| == 0 {
      assert ab == a;
    } else {
      var b' := b[..|b| - 1];
      var d := DigitValue(b[|b| - 1]);
      assert ab[..|ab| - 1] == a + b';
      assert ab[|ab| - 1] == b[|b| - 1];
      ValueAppend(a, b');
      assert Value(ab) == 10 * Value(a + b') + d;
      assert Value(b) == 10 * Value(b') + d;
      assert Pow10(|b|) == 10 * Pow10(|b'|);
      ShiftArith(Value(a), Pow10(|b'|), Value(b'), d);
    }
  }

  /** Python's `str(n)`: the shortest decimal numeral of `n`. */
  function Decimal(n: nat): (r: string)
    ensures 1 <= |r| && AllDigits(r)
    ensures Value(r) == n
    ensures |r| > 1 ==> r[0] != '0'
    decreases n
  {
    if n < 10 then [DigitChar(n)]
    else
      var r := Decimal(n / 10) + [DigitChar(n % 10)];
      assert r[..|r| - 1] == Decimal(n / 10);
      r
  }

  /** A digit string with at least one digit is positive when it does not start with `0`. */
  lemma {:induction false} ValuePositive(s: string)
    requires AllDigits(s) && |s| >= 1 && s[0] != '0'
    ensures Value(s) >= 1
    decreases |s|
  {
    if |s| > 1 {
      var s' := s[..|s| - 1];
      ValuePositive(s');
    }
  }

  /** A numeral without a redundant leading zero is `str` of its own value: the parse is canonical. */
  lemma {:induction false} DecimalOfValue(s: string)
    requires AllDigits(s) && |s| >= 1
    requires |s| > 1 ==> s[0] != '0'
    ensures Decimal(Value(s)) == s
    decreases |s|
  {
    var n := Value(s);
    if |s| == 1 {
      assert s[..|s| - 1] == [];
      assert Value(s) == 10 * Value([]) + DigitValue(s[0]);
      assert DigitChar(n) == s[0];
      assert s == [s[0]];
    } else {
      var s' := s[..|s| - 1];
      ValuePositive(s');
      DecimalOfValue(s');
      assert n == 10 * Value(s') + DigitValue(s[|s| - 1]);
      assert n / 10 == Value(s') && n % 10 == DigitValue(s[|s| - 1]);
      assert s == s' + [s[|s| - 1]];
    }
  }

  /** Python's `s.replace('.', '')`. */
  function StripDots(s: string): (r: string)
    ensures '.' !in r
    ensures (forall p :: 0 <= p < |s| ==> InClass(DigitOrDot, s[p])) ==> AllDigits(r)
    ensures '.' !in s ==> r == s
    decreases |s|
  {
    if |s| == 0 then []
    else
      var init := s[..|s| - 1];
      assert s == init + [s[|s| - 1]];
      StripDots(init) + (if s[|s| - 1] == '.' then [] else [s[|s| - 1]])
  }

  lemma {:induction false} StripDotsAppend(a: string, b: string)
    ensures StripDots(a + b) == StripDots(a) + StripDots(b)
    decreases |b|
  {
    if |b| == 0 {
      assert a + b == a;
    } else {
      var b' := b[..|b| - 1];
      assert (a + b)[..|a + b| - 1] == a + b';
      StripDotsAppend(a, b');
    }
  }

  /** The laws that pin down removing dots: it distributes over concatenation, deletes a dot,
      and keeps any other character. */
  lemma StripDotsLaws(a: string, b: string, c: char)
    ensures StripDots(a + b) == StripDots(a) + StripDots(b)
    ensures StripDots([c]) == (if c == '.' then [] else [c])
    ensures StripDots([]) == []
  {
    StripDotsAppend(a, b);
    assert [c][..0] == [];
  }

  /** `(?:\.\d{3})*`: any number of groups, each a dot and exactly three digits. */
  ghost predicate DotGroups(t: string)
    decreases |t|
  {
    || |t| == 0
    || (&& |t| >= 4 && t[0] == '.' && IsDigit(t[1]) && IsDigit(t[2]) && IsDigit(t[3])
        && DotGroups(t[4..]))
  }

  /** `\d{1,3}(?:\.\d{3})*` read literally: digits and dots only, a leading group of one to
      three digits and then dot groups. */
  ghost predicate Grouped(g: string) {
    && (forall p :: 0 <= p < |g| ==> InClass(DigitOrDot, g[p]))
    && exists h :: 1 <= h <= 3 && h <= |g| && AllDigits(g[..h]) && DotGroups(g[h..])
  }

  /** The check the scanner runs: counting from the right, every fourth character is a dot
      and all others are digits, and the leftmost character is not a dot. */
  predicate IsGroupedToken(g: string) {
    && |g| % 4 != 0
    && forall p :: 0 <= p < |g| ==> if (|g| - p) % 4 == 0 then g[p] == '.' else IsDigit(g[p])
  }

  /** The positional reading of a dot-group tail. */
  lemma {:induction false} DotGroupsPositional(t: string)
    ensures DotGroups(t) <==>
      (|t| % 4 == 0 && forall p :: 0 <= p < |t| ==> if p % 4 == 0 then t[p] == '.' else IsDigit(t[p]))
    decreases |t|
  {
    if |t| >= 4 {
      var t' := t[4..];
      DotGroupsPositional(t');
      if DotGroups(t) {
        forall p | 0 <= p < |t| ensures if p % 4 == 0 then t[p] == '.' else IsDigit(t[p]) {
          if p >= 4 {
            assert t[p] == t'[p - 4];
            assert (p - 4) % 4 == p % 4;
          }
        }
      }
      if |t| % 4 == 0 && forall p :: 0 <= p < |t| ==> if p % 4 == 0 then t[p] == '.' else IsDigit(t[p]) {
        forall p | 0 <= p < |t'| ensures if p % 4 == 0 then t'[p] == '.' else IsDigit(t'[p]) {
          assert t'[p] == t[p + 4];
          assert (p + 4) % 4 == p % 4;
        }
        assert t[0] == '.' && IsDigit(t[1]) && IsDigit(t[2]) && IsDigit(t[3]);
      }
    } else if |t| > 0 {
      assert !DotGroups(t);
      assert |t| % 4 != 0;
    }
  }

  lemma ModHead(len: nat, h: nat, m: nat, p: nat)
    requires len == h + 4 * m && 1 <= h <= 3 && p < h
    ensures (len - p) % 4 != 0
  {
    assert len - p == (h - p) + 4 * m;
  }

  lemma ModTail(len: nat, h: nat, m: nat, p: nat)
    requires len == h + 4 * m && h <= p < len
    ensures (len - p) % 4 == 0 <==> (p - h) % 4 == 0
  {
    SumMod4(len - p, p - h, m);
  }

  /** Two naturals that add up to a multiple of four are both multiples of four or neither is. */
  lemma {:induction false} SumMod4(x: nat, y: nat, m: nat)
    requires x + y == 4 * m
    ensures x % 4 == 0 <==> y % 4 == 0
    decreases m
  {
    if x >= 4 {
      SumMod4(x - 4, y, m - 1);
    } else if y >= 4 {
      SumMod4(x, y - 4, m - 1);
    }
  }

  lemma GroupedToPositional(g: string)
    requires Grouped(g)
    ensures IsGroupedToken(g)
  {
    var h :| 1 <= h <= 3 && h <= |g| && AllDigits(g[..h]) && DotGroups(g[h..]);
    var t := g[h..];
    DotGroupsPositional(t);
    var m := |t| / 4;
    assert |g| == h + 4 * m;
    assert |g| % 4 == h;
    forall p | 0 <= p < |g| ensures if (|g| - p) % 4 == 0 then g[p] == '.' else IsDigit(g[p]) {
      if p < h {
        HeadPositional(g, h, m, p);
      } else {
        TailPositional(g, h, m, p);
      }
    }
  }

  lemma HeadPositional(g: string, h: nat, m: nat, p: nat)
    requires 1 <= h <= 3 && |g| == h + 4 * m && AllDigits(g[..h]) && p < h
    ensures (|g| - p) % 4 != 0 && IsDigit(g[p])
  {
    assert g[p] == g[..h][p];
    ModHead(|g|, h, m, p);
  }

  lemma TailPositional(g: string, h: nat, m: nat, p: nat)
    requires |g| == h + 4 * m && h <= p < |g|
    requires forall q :: 0 <= q < |g[h..]| ==> if q % 4 == 0 then g[h..][q] == '.' else IsDigit(g[h..][q])
    ensures if (|g| - p) % 4 == 0 then g[p] == '.' else IsDigit(g[p])
  {
    assert g[p] == g[h..][p - h];
    ModTail(|g|, h, m, p);
  }

  lemma PositionalToGrouped(g: string)
    requires IsGroupedToken(g)
    ensures Grouped(g)
  {
    var h := |g| % 4;
    PositionalChars(g);
    PositionalLead(g, h, |g| / 4);
    PositionalGroups(g, h, |g| / 4);
  }

  lemma PositionalChars(g: string)
    requires IsGroupedToken(g)
    ensures forall p :: 0 <= p < |g| ==> InClass(DigitOrDot, g[p])
  {
    forall p | 0 <= p < |g| ensures InClass(DigitOrDot, g[p]) {
      assert if (|g| - p) % 4 == 0 then g[p] == '.' else IsDigit(g[p]);
    }
  }

  /** The characters before the first dot group are one to three digits. */
  lemma PositionalLead(g: string, h: nat, m: nat)
    requires IsGroupedToken(g) && h == |g| % 4 && m == |g| / 4
    ensures 1 <= h <= 3 && h <= |g| && AllDigits(g[..h])
  {
    assert |g| == h + 4 * m;
    forall p | 0 <= p < h ensures IsDigit(g[..h][p]) {
      ModHead(|g|, h, m, p);
    }
  }

  /** The rest of a positional token is a sequence of dot groups. */
  lemma PositionalGroups(g: string, h: nat, m: nat)
    requires IsGroupedToken(g) && h == |g| % 4 && m == |g| / 4
    ensures DotGroups(g[h..])
  {
    assert |g| == h + 4 * m;
    var t := g[h..];
    forall p | 0 <= p < |t| ensures if p % 4 == 0 then t[p] == '.' else IsDigit(t[p]) {
      assert t[p] == g[p + h];
      ModTail(|g|, h, m, p + h);
    }
    DotGroupsPositional(t);
  }

  /** The grammar and the scanner's positional check accept the same tokens. */
  lemma GroupedIff(g: string)
    ensures Grouped(g) <==> IsGroupedToken(g)
  {
    if Grouped(g) {
      GroupedToPositional(g);
    }
    if IsGroupedToken(g) {
      PositionalToGrouped(g);
    }
  }

  /** The number a grouped token stands for: its digits with the dots removed. */
  function GroupedValue(g: string): nat
    requires forall p :: 0 <= p < |g| ==> InClass(DigitOrDot, g[p])
  {
    Value(StripDots(g))
  }

  /** Exactly three digits, zero-padded. */
  function Pad3(r: nat): (d: string)
    requires r < 1000
    ensures |d| == 3 && AllDigits(d) && Value(d) == r
  {
    var d := [DigitChar(r / 100), DigitChar(r / 10 % 10), DigitChar(r % 10)];
    ValueOfThree(d);
    ThreeDigitSplit(r);
    d
  }

  lemma ValueOfThree(d: string)
    requires |d| == 3 && AllDigits(d)
    ensures Value(d) == 100 * DigitValue(d[0]) + 10 * DigitValue(d[1]) + DigitValue(d[2])
  {
    assert d[..2][..1] == d[..1];
    assert d[..1][..0] == [];
    assert Value(d[..1]) == DigitValue(d[0]);
    assert Value(d[..2]) == 10 * DigitValue(d[0]) + DigitValue(d[1]);
  }

  lemma ThreeDigitSplit(r: nat)
    requires r < 1000
    ensures r / 100 < 10 && r / 10 % 10 < 10
    ensures 100 * (r / 100) + 10 * (r / 10 % 10) + r % 10 == r
  {
  }

  /** `n` written with `.` between thousands groups, e.g. 1000000 as `1.000.000`. */
  function FormatGrouped(n: nat): string
    decreases n
  {
    if n < 1000 then Decimal(n) else FormatGrouped(n / 1000) + "." + Pad3(n % 1000)
  }

  lemma {:induction false} DotGroupsAppend(t: string, d: string)
    requires DotGroups(t) && |d| == 3 && AllDigits(d)
    ensures DotGroups(t + "." + d)
    decreases |t|
  {
    var x := t + "." + d;
    if |t| == 0 {
      assert x[4..] == [];
    } else {
      assert x[4..] == t[4..] + "." + d;
      DotGroupsAppend(t[4..], d);
    }
  }

  lemma {:induction false} ShortDecimal(n: nat)
    requires n < 1000
    ensures |Decimal(n)| <= 3
  {
    if n >= 10 {
      if n >= 100 {
        assert |Decimal(n / 10 / 10)| == 1;
      }
    }
  }

  lemma SmallSpec(n: nat)
    requires n < 1000
    ensures Grouped(Decimal(n))
    ensures GroupedValue(Decimal(n)) == n
  {
    ShortDecimal(n);
    ShortDigitsGrouped(Decimal(n));
  }

  /** One to three digits form a grouped token with no dots. */
  lemma ShortDigitsGrouped(g: string)
    requires 1 <= |g| <= 3 && AllDigits(g)
    ensures Grouped(g)
    ensures GroupedValue(g) == Value(g)
  {
    assert g[..|g|] == g && g[|g|..] == [];
    assert forall p :: 0 <= p < |g| ==> InClass(DigitOrDot, g[p]);
    assert '.' !in g by {
      assert forall p :: 0 <= p < |g| ==> g[p] != '.';
    }
  }

  lemma GroupedExtend(a: string, d: string)
    requires Grouped(a) && |d| == 3 && AllDigits(d)
    ensures Grouped(a + "." + d)
  {
    var g := a + "." + d;
    var h :| 1 <= h <= 3 && h <= |a| && AllDigits(a[..h]) && DotGroups(a[h..]);
    DotGroupsAppend(a[h..], d);
    assert g[..h] == a[..h];
    assert g[h..] == a[h..] + "." + d;
    ExtendClass(a, d);
  }

  lemma ExtendClass(a: string, d: string)
    requires forall p :: 0 <= p < |a| ==> InClass(DigitOrDot, a[p])
    requires |d| == 3 && AllDigits(d)
    ensures forall p :: 0 <= p < |a + "." + d| ==> InClass(DigitOrDot, (a + "." + d)[p])
  {
    var g := a + "." + d;
    forall p | 0 <= p < |g| ensures InClass(DigitOrDot, g[p]) {
      if p < |a| { assert g[p] == a[p]; }
      else if p == |a| { assert g[p] == '.'; }
      else { assert g[p] == d[p - |a| - 1]; }
    }
  }

  lemma ExtendStripDots(a: string, d: string)
    requires |d| == 3 && AllDigits(d)
    ensures StripDots(a + "." + d) == StripDots(a) + d
  {
    assert StripDots(a + ".") == StripDots(a) by {
      StripDotsAppend(a, ".");
      assert StripDots(".") == [] by {
        assert "."[..0] == [];
      }
    }
    assert StripDots(d) == d by {
      NoDotInDigits(d);
    }
    StripDotsAppend(a + ".", d);
  }

  lemma ExtendValue(a: string, d: string)
    requires forall p :: 0 <= p < |a| ==> InClass(DigitOrDot, a[p])
    requires |d| == 3 && AllDigits(d)
    ensures forall p :: 0 <= p < |a + "." + d| ==> InClass(DigitOrDot, (a + "." + d)[p])
    ensures GroupedValue(a + "." + d) == GroupedValue(a) * 1000 + Value(d)
  {
    ExtendClass(a, d);
    ExtendStripDots(a, d);
    ValueAppend(StripDots(a), d);
    assert Pow10(3) == 1000;
  }

  /** Grouping then parsing gives the number back: the format is in the grammar and its
      digits, dots removed, denote `n`. */
  /** Removing the dots from the grouped form of `n` gives `str(n)`. */
  lemma {:induction false} FormatGroupedDigits(n: nat)
    ensures StripDots(FormatGrouped(n)) == Decimal(n)
    decreases n
  {
    if n < 1000 {
      NoDotInDigits(Decimal(n));
    } else {
      FormatGroupedDigits(n / 1000);
      GroupDigitsStep(n);
      DecimalSplit(n);
    }
  }

  /** The digits of the grouped form: the leading groups' digits, then the last group. */
  lemma GroupDigitsStep(n: nat)
    requires n >= 1000
    ensures StripDots(FormatGrouped(n)) == StripDots(FormatGrouped(n / 1000)) + Pad3(n % 1000)
  {
    FormatGroupedStep(n);
    ExtendStripDots(FormatGrouped(n / 1000), Pad3(n % 1000));
  }

  /** `str(n)` is `str(n / 1000)` followed by the last three digits, zero-padded. */
  lemma DecimalSplit(n: nat)
    requires n >= 1000
    ensures Decimal(n / 1000) + Pad3(n % 1000) == Decimal(n)
  {
    DivMod1000(n);
    DecimalThenGroup(n / 1000, Pad3(n % 1000), n);
  }

  lemma FormatGroupedStep(n: nat)
    requires n >= 1000
    ensures FormatGrouped(n) == FormatGrouped(n / 1000) + "." + Pad3(n % 1000)
  {
  }

  lemma DivMod1000(n: nat)
    ensures (n / 1000) * 1000 + n % 1000 == n
  {
  }

  lemma NoDotInDigits(d: string)
    requires AllDigits(d)
    ensures '.' !in d
  {
    forall p | 0 <= p < |d| ensures d[p] != '.' {
      assert IsDigit(d[p]);
    }
  }

  /** `str(m)` followed by three digits is `str` of the number they make together. */
  lemma DecimalThenGroup(m: nat, d: string, n: nat)
    requires m >= 1 && |d| == 3 && AllDigits(d) && n == m * 1000 + Value(d)
    ensures Decimal(m) + d == Decimal(n)
  {
    var t := Decimal(m) + d;
    LeadingDigit(m);
    ValueAppend(Decimal(m), d);
    assert Pow10(3) == 1000;
    assert t[0] == Decimal(m)[0];
    DecimalOfValue(t);
  }

  /** `str(m)` of a positive number does not start with `0`. */
  lemma LeadingDigit(m: nat)
    requires m >= 1
    ensures Decimal(m)[0] != '0'
  {
    var r := Decimal(m);
    if |r| == 1 {
      assert r[..0] == [];
      assert Value(r) == DigitValue(r[0]);
    }
  }

  /** `10^k` is written with `k + 1` digits. */
  lemma {:induction false} DecimalOfPower(k: nat)
    ensures |Decimal(Pow10(k))| == k + 1
    decreases k
  {
    if k > 0 {
      DecimalOfPower(k - 1);
      Pow10Grows(1, k);
      assert Pow10(k) / 10 == Pow10(k - 1);
    }
  }

  /** A number below `10^k` has at most `k` digits. */
  lemma {:induction false} DecimalLength(n: nat, k: nat)
    requires 1 <= k && n < Pow10(k)
    ensures |Decimal(n)| <= k
    decreases k
  {
    if n >= 10 {
      DecimalLength(n / 10, k - 1);
    }
  }

  lemma {:induction false} FormatGroupedSpec(n: nat)
    ensures Grouped(FormatGrouped(n))
    ensures GroupedValue(FormatGrouped(n)) == n
    decreases n
  {
    if n < 1000 {
      SmallSpec(n);
    } else {
      var a := FormatGrouped(n / 1000);
      var d := Pad3(n % 1000);
      FormatGroupedSpec(n / 1000);
      assert FormatGrouped(n) == a + "." + d;
      GroupedExtend(a, d);
      ExtendValue(a, d);
    }
  }
}

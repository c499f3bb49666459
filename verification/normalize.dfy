/** The strict text normalisers of the detail pass: a price in euros, a distance in km,
    a power in kW, a duration in minutes and a small count. Each returns the number or
    `None`; nothing raises. */
module Normalize {
  import opened Wrappers
  import opened Text
  import opened Numerals

  /** The unit a quantity parser expects after the number. */
  datatype Unit = Euro | Km | Kw | Minutes

  /** The unit word as the pattern spells it, lower-cased where the pattern ignores case: what
      matching compares against. `UnitLabel` below is the spelling the site prints. */
  function UnitWord(u: Unit): (w: string)
    ensures |w| >= 1
  {
    match u
    case Euro => "€"
    case Km => "km"
    case Kw => "kw"
    case Minutes => "min"
  }

  /** What may separate the number from the unit: `[ \xa0]+` before `€`, `\s+` elsewhere. */
  function SepClass(u: Unit): CharClass {
    if u == Euro then Blank else Space
  }

  /** The unit word occurs at `k`; `€` exactly, the others under ASCII case folding. */
  predicate UnitAt(u: Unit, s: string, k: nat) {
    && k + |UnitWord(u)| <= |s|
    && forall p :: 0 <= p < |UnitWord(u)| ==>
         if u == Euro then s[k + p] == UnitWord(u)[p] else LowerAscii(s[k + p]) == UnitWord(u)[p]
  }

  /** `\s*\(.*?\)\s*` with the parenthesis opening at `a` and closing at `b`; `.` does not
      match a newline. */
  ghost predicate ParenAt(t: string, a: nat, b: nat) {
    && a < b < |t|
    && AllIn(Space, t, 0, a)
    && t[a] == '('
    && AllIn(Except('\n'), t, a + 1, b)
    && t[b] == ')'
    && AllIn(Space, t, b + 1, |t|)
  }

  /** What the pattern allows after the unit word: `\s*` for `€` and `km`,
      `(?:\s*\(.*?\))?\s*` for `kW`, `\.?\s*` for `min`. */
  ghost predicate TailForm(u: Unit, t: string) {
    match u
    case Euro => AllIn(Space, t, 0, |t|)
    case Km => AllIn(Space, t, 0, |t|)
    case Kw => AllIn(Space, t, 0, |t|) || exists a: nat, b: nat :: ParenAt(t, a, b)
    case Minutes => AllIn(Space, t, 0, |t|) || (|t| >= 1 && t[0] == '.' && AllIn(Space, t, 1, |t|))
  }

  /** The scanner's check of the text after the unit word. For `kW` the parenthesis must open
      at the first non-space character and close at the last one. */
  predicate TailOk(u: Unit, t: string) {
    match u
    case Euro => AllIn(Space, t, 0, |t|)
    case Km => AllIn(Space, t, 0, |t|)
    case Kw =>
      var a := RunEnd(Space, t, 0);
      var b := RunStart(Space, t, |t|);
      a == |t| || (a + 1 < b && t[a] == '(' && t[b - 1] == ')' && AllIn(Except('\n'), t, a + 1, b - 1))
    case Minutes => AllIn(Space, t, 0, |t|) || (|t| >= 1 && t[0] == '.' && AllIn(Space, t, 1, |t|))
  }

  // The two directions of `TailOkIff` on their own, so that a caller that needs one of them
  // does not bring the other into its proof.
  lemma TailFormIsOk(u: Unit, t: string)
    requires TailForm(u, t)
    ensures TailOk(u, t)
  {
    TailOkIff(u, t);
  }

  lemma TailOkIsForm(u: Unit, t: string)
    requires TailOk(u, t)
    ensures TailForm(u, t)
  {
    TailOkIff(u, t);
  }

  lemma TailOkIff(u: Unit, t: string)
    ensures TailOk(u, t) <==> TailForm(u, t)
  {
    if u == Kw {
      var a := RunEnd(Space, t, 0);
      var b := RunStart(Space, t, |t|);
      if TailOk(u, t) && a < |t| {
        assert ParenAt(t, a, b - 1);
      }
      if TailForm(u, t) {
        if AllIn(Space, t, 0, |t|) {
          RunEndIs(Space, t, 0, |t|);
        } else {
          var a': nat, b': nat :| ParenAt(t, a', b');
          RunEndIs(Space, t, 0, a');
          RunStartIs(Space, t, |t|, b' + 1);
        }
      }
    }
  }

  /** The pattern `^\s*(\d{1,3}(?:\.\d{3})*)SEP+UNIT TAIL$` matches `s` with the number token
      at `s[i..j]`, the separators at `s[j..k]` and the unit word at `k`. */
  ghost predicate QuantitySplit(u: Unit, s: string, i: nat, j: nat, k: nat) {
    && i <= j < k
    && k + |UnitWord(u)| <= |s|
    && AllIn(Space, s, 0, i)
    && Grouped(s[i..j])
    && AllIn(SepClass(u), s, j, k)
    && UnitAt(u, s, k)
    && TailForm(u, s[k + |UnitWord(u)|..])
  }

  /** `s` matches the pattern for unit `u`, and its number token, dots removed, is a digit
      string `int()` converts, with value `n`. */
  ghost predicate Denotes(u: Unit, s: string, n: nat) {
    exists i: nat, j: nat, k: nat ::
      QuantitySplit(u, s, i, j, k) && IntReadable(StripDots(s[i..j])) && GroupedValue(s[i..j]) == n
  }

  /** The scanner shared by the four quantity parsers: skip leading space, take the longest
      run of digits and dots, then the longest run of separators, then the unit and the tail.
      A match whose digits are too many for `int()` is `None` as well. */
  function ParseQuantity(u: Unit, s: string): Option<nat> {
    var i := RunEnd(Space, s, 0);
    var j := RunEnd(DigitOrDot, s, i);
    var k := RunEnd(SepClass(u), s, j);
    if Accepts(u, s, i, j, k) && IntReadable(StripDots(s[i..j])) then Some(GroupedValue(s[i..j]))
    else None
  }

  /** The scanner's checks on the runs it took: a grouped token, at least one separator, the
      unit word, and an allowed tail. */
  predicate Accepts(u: Unit, s: string, i: nat, j: nat, k: nat)
    requires i <= j <= k <= |s|
  {
    IsGroupedToken(s[i..j]) && j < k && UnitAt(u, s, k) && TailOk(u, s[k + |UnitWord(u)|..])
  }

  /** A grouped token starts with a digit and holds only digits and dots. */
  lemma GroupedShape(s: string, i: nat, j: nat)
    requires i <= j <= |s| && Grouped(s[i..j])
    ensures i < j && IsDigit(s[i])
    ensures AllIn(DigitOrDot, s, i, j)
  {
    var g := s[i..j];
    GroupedIff(g);
    assert g[0] == s[i];
    forall p | i <= p < j ensures InClass(DigitOrDot, s[p]) {
      assert s[p] == g[p - i];
    }
  }

  lemma UnitStartsWithNonSeparator(u: Unit, s: string, k: nat)
    requires UnitAt(u, s, k)
    ensures !InClass(SepClass(u), s[k]) && !InClass(DigitOrDot, s[k])
  {
    assert UnitWord(u)[0] in "€km";
  }

  /** The three runs the scanner takes end where any match of the pattern puts them. */
  lemma ScanIndices(u: Unit, s: string, i: nat, j: nat, k: nat)
    requires QuantitySplit(u, s, i, j, k)
    ensures RunEnd(Space, s, 0) == i
    ensures RunEnd(DigitOrDot, s, i) == j
    ensures RunEnd(SepClass(u), s, j) == k
  {
    GroupedShape(s, i, j);
    RunEndIs(Space, s, 0, i);
    assert InClass(SepClass(u), s[j]);
    RunEndIs(DigitOrDot, s, i, j);
    UnitStartsWithNonSeparator(u, s, k);
    RunEndIs(SepClass(u), s, j, k);
  }

  lemma {:induction false} ParseQuantityComplete(u: Unit, s: string, i: nat, j: nat, k: nat)
    requires QuantitySplit(u, s, i, j, k) && IntReadable(StripDots(s[i..j]))
    ensures ParseQuantity(u, s) == Some(GroupedValue(s[i..j]))
  {
    ScanIndices(u, s, i, j, k);
    SplitAccepted(u, s, i, j, k);
  }

  /** A split of the pattern passes the scanner's checks. */
  lemma SplitAccepted(u: Unit, s: string, i: nat, j: nat, k: nat)
    requires QuantitySplit(u, s, i, j, k)
    ensures Accepts(u, s, i, j, k)
  {
    GroupedToPositional(s[i..j]);
    TailFormIsOk(u, s[k + |UnitWord(u)|..]);
  }

  lemma {:induction false} ParseQuantitySound(u: Unit, s: string)
    requires ParseQuantity(u, s).Some?
    ensures Denotes(u, s, ParseQuantity(u, s).value)
  {
    var i := RunEnd(Space, s, 0);
    var j := RunEnd(DigitOrDot, s, i);
    var k := RunEnd(SepClass(u), s, j);
    var e := k + |UnitWord(u)|;
    assert Accepts(u, s, i, j, k) && IntReadable(StripDots(s[i..j]));
    assert ParseQuantity(u, s).value == GroupedValue(s[i..j]);
    AcceptedSplits(u, s, i, j, k);
  }

  /** What the scanner accepts is a split of the pattern. */
  lemma AcceptedSplits(u: Unit, s: string, i: nat, j: nat, k: nat)
    requires i <= j <= k <= |s|
    requires AllIn(Space, s, 0, i) && AllIn(SepClass(u), s, j, k)
    requires Accepts(u, s, i, j, k)
    ensures QuantitySplit(u, s, i, j, k)
  {
    PositionalToGrouped(s[i..j]);
    TailOkIsForm(u, s[k + |UnitWord(u)|..]);
  }

  /** The scanner returns `n` exactly when `s` matches the unit's pattern with value `n`. */
  lemma ParseQuantitySpec(u: Unit, s: string)
    ensures forall n: nat :: ParseQuantity(u, s) == Some(n) <==> Denotes(u, s, n)
  {
    if ParseQuantity(u, s).Some? {
      ParseQuantitySound(u, s);
    }
    forall n | Denotes(u, s, n) ensures ParseQuantity(u, s) == Some(n) {
      var i: nat, j: nat, k: nat :|
        QuantitySplit(u, s, i, j, k) && IntReadable(StripDots(s[i..j])) && GroupedValue(s[i..j]) == n;
      ParseQuantityComplete(u, s, i, j, k);
    }
  }

  /** A match whose number has more digits than `int()` converts reads as `None`: the
      `ValueError` handler of each parser. */
  lemma TooManyDigits(u: Unit, s: string, i: nat, j: nat, k: nat)
    requires QuantitySplit(u, s, i, j, k) && !IntReadable(StripDots(s[i..j]))
    ensures ParseQuantity(u, s) == None
  {
    ScanIndices(u, s, i, j, k);
  }

  /** `_parse_price_eur`: `^\s*(\d{1,3}(?:\.\d{3})*)[ \xa0]+€\s*$`. */
  function ParsePriceEur(s: string): (r: Option<nat>)
    ensures forall n: nat :: r == Some(n) <==> Denotes(Euro, s, n)
  {
    ParseQuantitySpec(Euro, s);
    ParseQuantity(Euro, s)
  }

  /** `_parse_km`: `^\s*(\d{1,3}(?:\.\d{3})*)\s+km\s*$`, ignoring case. */
  function ParseKm(s: string): (r: Option<nat>)
    ensures forall n: nat :: r == Some(n) <==> Denotes(Km, s, n)
  {
    ParseQuantitySpec(Km, s);
    ParseQuantity(Km, s)
  }

  /** `_parse_kw`: `^\s*(\d{1,3}(?:\.\d{3})*)\s+kW(?:\s*\(.*?\))?\s*$`, ignoring case. */
  function ParseKw(s: string): (r: Option<nat>)
    ensures forall n: nat :: r == Some(n) <==> Denotes(Kw, s, n)
  {
    ParseQuantitySpec(Kw, s);
    ParseQuantity(Kw, s)
  }

  /** `_parse_minutes`: `^\s*(\d{1,3}(?:\.\d{3})*)\s+min\.?\s*$`, ignoring case. */
  function ParseMinutes(s: string): (r: Option<nat>)
    ensures forall n: nat :: r == Some(n) <==> Denotes(Minutes, s, n)
  {
    ParseQuantitySpec(Minutes, s);
    ParseQuantity(Minutes, s)
  }

  /** The unit as a site would print it. */
  function UnitLabel(u: Unit): string {
    match u
    case Euro => "€"
    case Km => "km"
    case Kw => "kW"
    case Minutes => "min"
  }

  /** `n` rendered with dot thousands grouping, one space and the unit. */
  function Render(u: Unit, n: nat): string {
    FormatGrouped(n) + " " + UnitLabel(u)
  }

  lemma LabelIsUnit(u: Unit, pre: string)
    ensures UnitAt(u, pre + UnitLabel(u), |pre|)
    ensures |pre + UnitLabel(u)| == |pre| + |UnitWord(u)|
  {
    var s := pre + UnitLabel(u);
    forall p | 0 <= p < |UnitWord(u)|
      ensures if u == Euro then s[|pre| + p] == UnitWord(u)[p] else LowerAscii(s[|pre| + p]) == UnitWord(u)[p]
    {
      assert s[|pre| + p] == UnitLabel(u)[p];
    }
  }

  /** A grouped token, one space and the unit label split as the pattern wants. */
  lemma RenderSplits(u: Unit, f: string, s: string)
    requires Grouped(f) && s == f + " " + UnitLabel(u)
    ensures QuantitySplit(u, s, 0, |f|, |f| + 1)
  {
    var k := |f| + 1;
    assert s == (f + " ") + UnitLabel(u);
    LabelIsUnit(u, f + " ");
    assert s[0..|f|] == f;
    assert AllIn(SepClass(u), s, |f|, k) by {
      assert s[|f|] == ' ';
    }
    assert s[k + |UnitWord(u)|..] == [];
    assert TailForm(u, s[k + |UnitWord(u)|..]);
  }

  /** A grouped token followed by one space and the unit label parses to the token's value. */
  lemma GroupedThenParse(u: Unit, f: string)
    requires Grouped(f) && IntReadable(StripDots(f))
    ensures ParseQuantity(u, f + " " + UnitLabel(u)) == Some(GroupedValue(f))
  {
    var s := f + " " + UnitLabel(u);
    assert GroupedValue(s[0..|f|]) == GroupedValue(f) by {
      assert s[0..|f|] == f;
    }
    assert ParseQuantity(u, s) == Some(GroupedValue(s[0..|f|])) by {
      assert s[0..|f|] == f;
      RenderSplits(u, f, s);
      ParseQuantityComplete(u, s, 0, |f|, |f| + 1);
    }
  }

  /** Every rendered quantity below `10^4300` parses back to its number. */
  lemma RenderThenParse(u: Unit, n: nat)
    requires n < Pow10(MaxStrDigits)
    ensures ParseQuantity(u, Render(u, n)) == Some(n)
  {
    FormatGroupedSpec(n);
    FormatGroupedDigits(n);
    DecimalLength(n, MaxStrDigits);
    GroupedThenParse(u, FormatGrouped(n));
  }

  /** `\s*(\d+)\s*` matches `s` with the digits at `s[i..j]`. */
  ghost predicate IntSplit(s: string, i: nat, j: nat) {
    && i < j <= |s|
    && AllIn(Space, s, 0, i)
    && AllDigits(s[i..j])
    && AllIn(Space, s, j, |s|)
  }

  /** The pattern matches, the digits have no redundant leading zero, `int()` converts them,
      and they denote `n`. */
  ghost predicate IntDenotes(s: string, n: nat) {
    exists i: nat, j: nat ::
      IntSplit(s, i, j) && (j - i > 1 ==> s[i] != '0') && IntReadable(s[i..j]) && Value(s[i..j]) == n
  }

  /** `_parse_int`: optional space, digits, optional space; `0` only as the number zero. */
  function ParseInt(s: string): (r: Option<nat>)
    ensures forall n: nat :: r == Some(n) <==> IntDenotes(s, n)
  {
    var i := RunEnd(Space, s, 0);
    var j := RunEnd(Digit, s, i);
    RunIsDigits(s, i, j);
    var r :=
      if i < j && AllIn(Space, s, j, |s|) && !(j - i > 1 && s[i] == '0') && IntReadable(s[i..j])
      then Some(Value(s[i..j]))
      else None;
    assert r.Some? ==> IntSplit(s, i, j);
    forall n | IntDenotes(s, n) ensures r == Some(n) {
      var i': nat, j': nat :|
        IntSplit(s, i', j') && (j' - i' > 1 ==> s[i'] != '0') && IntReadable(s[i'..j']) && Value(s[i'..j']) == n;
      IntScanFinds(s, i', j');
      assert s[i'] == s[i'..j'][0];
    }
    r
  }

  lemma RunIsDigits(s: string, i: nat, j: nat)
    requires i <= j <= |s| && AllIn(Digit, s, i, j)
    ensures AllDigits(s[i..j])
  {
    forall p | 0 <= p < j - i ensures IsDigit(s[i..j][p]) {
      assert s[i..j][p] == s[i + p];
    }
  }

  /** The scanner's runs end where any match of `\s*(\d+)\s*` puts them. */
  lemma IntScanFinds(s: string, i: nat, j: nat)
    requires IntSplit(s, i, j)
    ensures RunEnd(Space, s, 0) == i && RunEnd(Digit, s, i) == j
  {
    assert s[i] == s[i..j][0];
    RunEndIs(Space, s, 0, i);
    forall p | i <= p < j ensures IsDigit(s[p]) {
      assert s[p] == s[i..j][p - i];
    }
    RunEndIs(Digit, s, i, j);
  }

  lemma AcceptedIsCanonical(s: string, n: nat)
    requires ParseInt(s) == Some(n)
    ensures Strip(s) == Decimal(n) && IntReadable(Decimal(n))
  {
    var i: nat, j: nat :|
      IntSplit(s, i, j) && (j - i > 1 ==> s[i] != '0') && IntReadable(s[i..j]) && Value(s[i..j]) == n;
    var d := s[i..j];
    assert s[i] == d[0] && s[j - 1] == d[j - i - 1];
    assert IsDigit(s[i]) && IsDigit(s[j - 1]);
    RunEndIs(Space, s, 0, i);
    RunStartIs(Space, s, |s|, j);
    assert Strip(s) == d;
    DecimalOfValue(d);
  }

  lemma CanonicalIsAccepted(s: string, n: nat)
    requires Strip(s) == Decimal(n) && IntReadable(Decimal(n))
    ensures ParseInt(s) == Some(n)
  {
    var d := Decimal(n);
    var a: nat, b: nat :| a <= b <= |s| && d == s[a..b] && AllIn(Space, s, 0, a) && AllIn(Space, s, b, |s|);
    assert IntSplit(s, a, b);
    assert b - a > 1 ==> s[a] != '0' by {
      assert s[a] == d[0];
    }
    assert IntReadable(s[a..b]) && Value(s[a..b]) == n;
    assert IntDenotes(s, n);
  }

  /** What `_parse_int` accepts is exactly `str(n)` with optional surrounding space, for every
      `n` of at most 4300 digits. */
  lemma ParseIntCanonical(s: string, n: nat)
    ensures ParseInt(s) == Some(n) <==> Strip(s) == Decimal(n) && IntReadable(Decimal(n))
  {
    if ParseInt(s) == Some(n) {
      AcceptedIsCanonical(s, n);
    }
    if Strip(s) == Decimal(n) && IntReadable(Decimal(n)) {
      CanonicalIsAccepted(s, n);
    }
  }

  /** `str(n)` with more digits than `int()` converts is rejected. */
  lemma TooLongCountRejected(n: nat)
    requires !IntReadable(Decimal(n))
    ensures ParseInt(Decimal(n)) == None
  {
    var s := Decimal(n);
    assert IsDigit(s[0]) && IsDigit(s[|s| - 1]);
    StripKeeps(s);
    if ParseInt(s).Some? {
      var m := ParseInt(s).value;
      ParseIntCanonical(s, m);
      assert false;
    }
  }
}

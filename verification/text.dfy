/** Characters and strings as the crawler's Python code sees them. */
module Text {

  /** Python's `str.isspace()`: the characters `\s` matches in a str pattern and
      the ones `str.strip()` removes (the no-break space U+00A0 among them). */
  predicate IsSpace(c: char) {
    || ('\t' <= c <= '\r')
    || ('\U{1c}' <= c <= '\U{1f}')
    || c == ' ' || c == '\U{85}' || c == '\U{a0}' || c == '\U{1680}'
    || ('\U{2000}' <= c <= '\U{200a}')
    || c == '\U{2028}' || c == '\U{2029}' || c == '\U{202f}' || c == '\U{205f}' || c == '\U{3000}'
  }

  /** An ASCII decimal digit. */
  predicate IsDigit(c: char) {
    '0' <= c <= '9'
  }

  function DigitValue(c: char): (d: nat)
    requires IsDigit(c)
    ensures d < 10
  {
    c as int - '0' as int
  }

  function DigitChar(d: nat): (c: char)
    requires d < 10
    ensures IsDigit(c) && DigitValue(c) == d
    ensures c == '0' <==> d == 0
  {
    ('0' as int + d) as char
  }

  /** ASCII lower-casing, the case folding the unit words are compared under. */
  function LowerAscii(c: char): (l: char)
    ensures 'A' <= c <= 'Z' ==> 'a' <= l <= 'z' && l as int == c as int + 32
    ensures !('A' <= c <= 'Z') ==> l == c
  {
    if 'A' <= c <= 'Z' then (c as int + 32) as char else c
  }

  /** The character classes the scanners step over. */
  datatype CharClass =
    | Space              // `\s`
    | Blank              // `[ \xa0]`
    | DigitOrDot         // the characters of a dot-grouped number
    | Digit              // `\d`
    | Except(stop: char) // anything but `stop`

  predicate InClass(cls: CharClass, c: char) {
    match cls
    case Space => IsSpace(c)
    case Blank => c == ' ' || c == '\U{a0}'
    case DigitOrDot => IsDigit(c) || c == '.'
    case Digit => IsDigit(c)
    case Except(stop) => c != stop
  }

  /** Every character of `s[lo..hi]` is in `cls`. */
  predicate AllIn(cls: CharClass, s: string, lo: nat, hi: nat) {
    forall p :: lo <= p < hi && p < |s| ==> InClass(cls, s[p])
  }

  /** The end of the longest run of `cls` characters starting at `i`. */
  function RunEnd(cls: CharClass, s: string, i: nat): (r: nat)
    requires i <= |s|
    ensures i <= r <= |s|
    ensures AllIn(cls, s, i, r)
    ensures r == |s| || !InClass(cls, s[r])
    decreases |s| - i
  {
    if i == |s| || !InClass(cls, s[i]) then i else RunEnd(cls, s, i + 1)
  }

  /** The start of the longest run of `cls` characters ending at `j`. */
  function RunStart(cls: CharClass, s: string, j: nat): (r: nat)
    requires j <= |s|
    ensures r <= j
    ensures AllIn(cls, s, r, j)
    ensures r == 0 || !InClass(cls, s[r - 1])
    decreases j
  {
    if j == 0 || !InClass(cls, s[j - 1]) then j else RunStart(cls, s, j - 1)
  }

  /** A run is determined by where it starts and the first character outside it. */
  lemma RunEndIs(cls: CharClass, s: string, i: nat, r: nat)
    requires i <= r <= |s|
    requires AllIn(cls, s, i, r)
    requires r == |s| || !InClass(cls, s[r])
    ensures RunEnd(cls, s, i) == r
  {
  }

  lemma RunStartIs(cls: CharClass, s: string, j: nat, r: nat)
    requires r <= j <= |s|
    requires AllIn(cls, s, r, j)
    requires r == 0 || !InClass(cls, s[r - 1])
    ensures RunStart(cls, s, j) == r
  {
  }

  /** Python's `s.strip()`: `s` without its leading and trailing whitespace. */
  function Strip(s: string): (r: string)
    ensures exists a, b :: 0 <= a <= b <= |s| && r == s[a..b] && AllIn(Space, s, 0, a) && AllIn(Space, s, b, |s|)
    ensures |r| > 0 ==> !IsSpace(r[0]) && !IsSpace(r[|r| - 1])
  {
    var a := RunEnd(Space, s, 0);
    var b := RunStart(Space, s, |s|);
    if a < b then s[a..b]
    else
      assert a == |s|;
      assert s[|s|..|s|] == [];
      []
  }

  /** Text that starts and ends with a non-space character is left alone by `Strip`. */
  lemma StripKeeps(s: string)
    requires |s| > 0 ==> !IsSpace(s[0]) && !IsSpace(s[|s| - 1])
    ensures Strip(s) == s
  {
    if |s| > 0 {
      RunEndIs(Space, s, 0, 0);
      RunStartIs(Space, s, |s|, |s|);
    }
  }

  /** Python's `sep.join(parts)`. */
  function Join(parts: seq<string>, sep: char): string
    decreases |parts|
  {
    if |parts| == 0 then ""
    else if |parts| == 1 then parts[0]
    else parts[0] + [sep] + Join(parts[1..], sep)
  }

  /** A join begins with its first piece, followed by the separator when there are more. */
  lemma JoinStartsWithFirst(parts: seq<string>, sep: char)
    requires |parts| >= 1
    ensures |Join(parts, sep)| >= |parts[0]|
    ensures Join(parts, sep)[..|parts[0]|] == parts[0]
    ensures |parts| > 1 ==> |Join(parts, sep)| > |parts[0]| && Join(parts, sep)[|parts[0]|] == sep
  {
  }

  /** Python's `s.split(sep)` for a one-character separator: the pieces between separators,
      empty ones included; it always has at least one piece. */
  function Split(s: string, sep: char): (parts: seq<string>)
    ensures |parts| >= 1
    ensures forall k :: 0 <= k < |parts| ==> sep !in parts[k]
    ensures Join(parts, sep) == s
    decreases |s|
  {
    var i := RunEnd(Except(sep), s, 0);
    if i == |s| then
      assert sep !in s by { assert AllIn(Except(sep), s, 0, |s|); }
      [s]
    else
      assert sep !in s[..i] by { assert AllIn(Except(sep), s, 0, i); }
      var rest := Split(s[i + 1..], sep);
      assert s == s[..i] + [sep] + s[i + 1..];
      [s[..i]] + rest
  }

  /** Splitting undoes joining when no piece holds the separator. */
  lemma {:induction false} SplitJoin(parts: seq<string>, sep: char)
    requires |parts| >= 1
    requires forall k :: 0 <= k < |parts| ==> sep !in parts[k]
    ensures Split(Join(parts, sep), sep) == parts
    decreases |parts|
  {
    var s := Join(parts, sep);
    var p := parts[0];
    if |parts| == 1 {
      RunEndIs(Except(sep), s, 0, |s|);
    } else {
      assert s == p + [sep] + Join(parts[1..], sep);
      assert s[|p|] == sep;
      assert AllIn(Except(sep), s, 0, |p|) by {
        forall q | 0 <= q < |p| ensures s[q] != sep {
          assert s[q] == p[q];
        }
      }
      RunEndIs(Except(sep), s, 0, |p|);
      assert s[..|p|] == p;
      assert s[|p| + 1..] == Join(parts[1..], sep);
      SplitJoin(parts[1..], sep);
      assert parts == [p] + parts[1..];
    }
  }
}

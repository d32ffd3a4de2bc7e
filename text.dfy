// String helpers the blog page relies on: JavaScript's `trim`, the
// zero-padded decimal formatting behind dayjs' `YYYY`/`MM`/`DD` and
// `padStart(2, '0')`, `split('-W')`, `Number(...)` on digit strings, and
// the plain lexicographic order that stands in for `localeCompare`.
module Text {

  datatype Option<T> = None | Some(value: T)

  // ---------------------------------------------------------------------
  // Lexicographic order (the model of `localeCompare`)
  // ---------------------------------------------------------------------

  /** `a` sorts strictly before `b`, character by character; a proper prefix sorts first. */
  predicate StrLess(a: string, b: string)
  {
    if a == [] then b != []
    else if b == [] then false
    else if a[0] != b[0] then a[0] < b[0]
    else StrLess(a[1..], b[1..])
  }

  lemma {:induction false} StrLessIrreflexive(a: string)
    ensures !StrLess(a, a)
  {
    if a != [] {
      StrLessIrreflexive(a[1..]);
    }
  }

  lemma {:induction false} StrLessTransitive(a: string, b: string, c: string)
    requires StrLess(a, b) && StrLess(b, c)
    ensures StrLess(a, c)
  {
    if a != [] && b != [] && c != [] && a[0] == b[0] && b[0] == c[0] {
      StrLessTransitive(a[1..], b[1..], c[1..]);
    }
  }

  /** Two different strings are always ordered one way or the other. */
  lemma {:induction false} StrLessTotal(a: string, b: string)
    requires a != b
    ensures StrLess(a, b) || StrLess(b, a)
  {
    if a != [] && b != [] && a[0] == b[0] {
      assert a == [a[0]] + a[1..] && b == [b[0]] + b[1..];
      StrLessTotal(a[1..], b[1..]);
    }
  }

  lemma StrLessAsymmetric(a: string, b: string)
    requires StrLess(a, b)
    ensures !StrLess(b, a)
  {
    if StrLess(b, a) {
      StrLessTransitive(a, b, a);
      StrLessIrreflexive(a);
    }
  }

  // ---------------------------------------------------------------------
  // String.prototype.trim
  // ---------------------------------------------------------------------

  /** The characters ECMAScript's `trim` strips: WhiteSpace and LineTerminator. */
  predicate IsSpace(c: char)
  {
    || c == '\t' || c == '\U{000B}' || c == '\U{000C}' || c == ' '
    || c == '\U{00A0}' || c == '\U{FEFF}' || c == '\U{1680}'
    || ('\U{2000}' <= c <= '\U{200A}')
    || c == '\U{202F}' || c == '\U{205F}' || c == '\U{3000}'
    || c == '\n' || c == '\r' || c == '\U{2028}' || c == '\U{2029}'
  }

  predicate AllSpace(s: string)
  {
    forall k :: 0 <= k < |s| ==> IsSpace(s[k])
  }

  /** The first position at or after `i` that does not hold white space (or `|s|`). */
  function SkipSpaceFrom(s: string, i: nat): (n: nat)
    requires i <= |s|
    ensures i <= n <= |s|
    ensures forall k :: i <= k < n ==> IsSpace(s[k])
    ensures n == |s| || !IsSpace(s[n])
    decreases |s| - i
  {
    if i < |s| && IsSpace(s[i]) then SkipSpaceFrom(s, i + 1) else i
  }

  /** The end of `s[..j]` once the white space before `j` is dropped. */
  function SkipSpaceBefore(s: string, j: nat): (n: nat)
    requires j <= |s|
    ensures n <= j
    ensures forall k :: n <= k < j ==> IsSpace(s[k])
    ensures n == 0 || !IsSpace(s[n - 1])
  {
    if j > 0 && IsSpace(s[j - 1]) then SkipSpaceBefore(s, j - 1) else j
  }

  /** Drops leading white space: the result is a suffix of `s` that does not start with a space. */
  function TrimStart(s: string): (r: string)
    ensures |r| <= |s| && r == s[|s| - |r|..]
    ensures AllSpace(s[..|s| - |r|])
    ensures r == [] || !IsSpace(r[0])
  {
    s[SkipSpaceFrom(s, 0)..]
  }

  /** Drops trailing white space: the result is a prefix of `s` that does not end with a space. */
  function TrimEnd(s: string): (r: string)
    ensures |r| <= |s| && r == s[..|r|]
    ensures AllSpace(s[|r|..])
    ensures r == [] || !IsSpace(r[|r| - 1])
  {
    s[..SkipSpaceBefore(s, |s|)]
  }

  /** `String.prototype.trim`. */
  function Trim(s: string): string
  {
    TrimEnd(TrimStart(s))
  }

  /** `trim` keeps a contiguous middle part of `s`. */
  lemma TrimIsSlice(s: string)
    ensures var i := |s| - |TrimStart(s)|; i + |Trim(s)| <= |s| && Trim(s) == s[i..i + |Trim(s)|]
  {
    var t := TrimStart(s);
    var r := TrimEnd(t);
    var i := |s| - |t|;
    assert r == s[i..][..|r|];
  }

  /** Everything `trim` drops is white space. */
  lemma TrimDropsOnlySpace(s: string)
    ensures var i := |s| - |TrimStart(s)|;
      i + |Trim(s)| <= |s| && AllSpace(s[..i]) && AllSpace(s[i + |Trim(s)|..])
  {
    var t := TrimStart(s);
    var i := |s| - |t|;
    var n := |Trim(s)|;
    assert t == s[i..];
    assert s[i + n..] == t[n..];
  }

  /** What `trim` keeps neither starts nor ends with white space. */
  lemma TrimHasNoOuterSpace(s: string)
    ensures Trim(s) == [] || (!IsSpace(Trim(s)[0]) && !IsSpace(Trim(s)[|Trim(s)| - 1]))
  {
    var t := TrimStart(s);
    var r := TrimEnd(t);
    if r != [] {
      assert r[0] == t[0];
    }
  }

  /** Trimming the end of a string that starts with a non-space keeps at least that character. */
  lemma TrimEndKeepsFirst(t: string)
    requires t != [] && !IsSpace(t[0])
    ensures TrimEnd(t) != []
  {
    var r := TrimEnd(t);
    assert t == r + t[|r|..];
  }

  /** The result of `trim` is empty exactly when the input is all white space. */
  lemma TrimEmptyIff(s: string)
    ensures Trim(s) == [] <==> AllSpace(s)
  {
    var t := TrimStart(s);
    if t != [] {
      assert t[0] == s[|s| - |t|];
      assert !AllSpace(s);
      TrimEndKeepsFirst(t);
    } else {
      assert s[..|s|] == s;
    }
  }

  /** Trimming twice is trimming once. */
  lemma TrimIdempotent(s: string)
    ensures Trim(Trim(s)) == Trim(s)
  {
    TrimHasNoOuterSpace(s);
    var r := Trim(s);
    if r != [] {
      assert TrimStart(r) == r;
    }
  }

  // ---------------------------------------------------------------------
  // Decimal digits, padStart and Number()
  // ---------------------------------------------------------------------

  predicate IsDigit(c: char)
  {
    '0' <= c <= '9'
  }

  predicate AllDigits(s: string)
  {
    forall k :: 0 <= k < |s| ==> IsDigit(s[k])
  }

  function DigitChar(d: nat): (c: char)
    requires d < 10
    ensures IsDigit(c)
  {
    ['0', '1', '2', '3', '4', '5', '6', '7', '8', '9'][d]
  }

  function DigitValue(c: char): (d: nat)
    requires IsDigit(c)
    ensures d < 10
  {
    (c as int) - ('0' as int)
  }

  /** The number a string of decimal digits denotes (leading zeros allowed). */
  function Value(s: string): nat
    requires AllDigits(s)
  {
    if s == [] then 0 else Value(s[..|s| - 1]) * 10 + DigitValue(s[|s| - 1])
  }

  /** `n.toString()`: the shortest decimal representation of `n`. */
  function Digits(n: nat): (r: string)
    ensures |r| >= 1 && AllDigits(r)
    ensures Value(r) == n
    ensures r[0] != '0' || r == "0"
  {
    if n < 10 then
      var r := [DigitChar(n)];
      assert r[..0] == [];
      r
    else
      var r := Digits(n / 10) + [DigitChar(n % 10)];
      assert r[..|r| - 1] == Digits(n / 10);
      r
  }

  function Zeros(k: nat): (r: string)
    ensures |r| == k && AllDigits(r)
    ensures forall i :: 0 <= i < k ==> r[i] == '0'
  {
    if k == 0 then [] else Zeros(k - 1) + ['0']
  }

  /** `String(n).padStart(width, '0')`: zero-padded on the left to at least `width` characters. */
  function Pad(n: nat, width: nat): (r: string)
    ensures AllDigits(r) && |r| >= width && |r| >= 1
    ensures |r| == if |Digits(n)| < width then width else |Digits(n)|
    ensures Value(r) == n
  {
    var d := Digits(n);
    var r := Zeros(if |d| < width then width - |d| else 0) + d;
    LeadingZeros(Zeros(if |d| < width then width - |d| else 0), d);
    r
  }

  lemma {:induction false} ZerosValue(z: string)
    requires forall i :: 0 <= i < |z| ==> z[i] == '0'
    ensures AllDigits(z) && Value(z) == 0
  {
    if z != [] {
      ZerosValue(z[..|z| - 1]);
    }
  }

  /** Leading zeros do not change the value, as `Number("05") === 5`. */
  lemma {:induction false} LeadingZeros(z: string, d: string)
    requires forall i :: 0 <= i < |z| ==> z[i] == '0'
    requires AllDigits(d)
    ensures AllDigits(z + d) && Value(z + d) == Value(d)
  {
    if d == [] {
      assert z + d == z;
      ZerosValue(z);
    } else {
      var d' := d[..|d| - 1];
      assert (z + d)[..|z + d| - 1] == z + d';
      LeadingZeros(z, d');
    }
  }

  function Pow10(k: nat): (r: nat)
    ensures r >= 1
  {
    if k == 0 then 1 else 10 * Pow10(k - 1)
  }

  /** A number below `10^k` (for `k >= 1`) has at most `k` decimal digits. */
  lemma {:induction false} DigitsFit(n: nat, k: nat)
    requires k >= 1 && n < Pow10(k)
    ensures |Digits(n)| <= k
  {
    if n >= 10 {
      assert n / 10 < Pow10(k - 1);
      DigitsFit(n / 10, k - 1);
    }
  }

  /** A number below `10^width` pads to exactly `width` characters. */
  lemma PadWidth(n: nat, width: nat)
    requires width >= 1 && n < Pow10(width)
    ensures |Pad(n, width)| == width
  {
    DigitsFit(n, width);
  }

  /** `k` digits denote a number below `10^k`. */
  lemma {:induction false} ValueBelow(s: string)
    requires AllDigits(s)
    ensures Value(s) < Pow10(|s|)
  {
    if s != [] {
      ValueBelow(s[..|s| - 1]);
    }
  }

  lemma ShiftDigit(d: nat, p: nat, rest: nat, last: nat)
    ensures (d * p + rest) * 10 + last == d * (10 * p) + (rest * 10 + last)
  {
  }

  /** Reading digits from the front: the first digit counts `10^(|s| - 1)` times. */
  lemma {:induction false} ValueFront(s: string)
    requires AllDigits(s) && s != []
    ensures Value(s) == DigitValue(s[0]) * Pow10(|s| - 1) + Value(s[1..])
  {
    if |s| == 1 {
      assert s[..0] == [] && s[1..] == [];
    } else {
      var init, tail := s[..|s| - 1], s[1..];
      ValueFront(init);
      assert init[0] == s[0];
      assert init[1..] == tail[..|tail| - 1];
      assert tail[|tail| - 1] == s[|s| - 1];
      ShiftDigit(DigitValue(s[0]), Pow10(|s| - 2), Value(init[1..]), DigitValue(s[|s| - 1]));
    }
  }

  /** A smaller leading digit decides, whatever the digits after it are. */
  lemma LeadingDigitDecides(da: nat, db: nat, p: nat, va: nat, vb: nat)
    requires da < db && va < p
    ensures da * p + va < db * p + vb
  {
    assert (da + 1) * p <= db * p;
  }

  /** On digit strings of one length, string order is numeric order. */
  lemma {:induction false} StrLessDigits(a: string, b: string)
    requires AllDigits(a) && AllDigits(b) && |a| == |b|
    ensures StrLess(a, b) <==> Value(a) < Value(b)
  {
    if a != [] {
      assert AllDigits(a[1..]) && AllDigits(b[1..]);
      ValueFront(a);
      ValueFront(b);
      var p := Pow10(|a| - 1);
      var da, db := DigitValue(a[0]), DigitValue(b[0]);
      if a[0] == b[0] {
        StrLessDigits(a[1..], b[1..]);
      } else if da < db {
        ValueBelow(a[1..]);
        LeadingDigitDecides(da, db, p, Value(a[1..]), Value(b[1..]));
      } else {
        ValueBelow(b[1..]);
        LeadingDigitDecides(db, da, p, Value(b[1..]), Value(a[1..]));
      }
    }
  }

  /** Strings that start with prefixes of one length are equal exactly when the prefixes and the rests are. */
  lemma ConcatEqual(a: string, r: string, b: string, t: string)
    requires |a| == |b|
    ensures a + r == b + t <==> a == b && r == t
  {
    if a + r == b + t {
      assert a == (a + r)[..|a|] && b == (b + t)[..|b|];
      assert r == (a + r)[|a|..] && t == (b + t)[|b|..];
    }
  }

  /** Two numbers padded to a width both fit: string order and equality are those of the numbers. */
  lemma PadOrder(x: nat, y: nat, width: nat)
    requires width >= 1 && x < Pow10(width) && y < Pow10(width)
    ensures |Pad(x, width)| == width && |Pad(y, width)| == width
    ensures StrLess(Pad(x, width), Pad(y, width)) <==> x < y
    ensures Pad(x, width) == Pad(y, width) <==> x == y
  {
    PadWidth(x, width);
    PadWidth(y, width);
    StrLessDigits(Pad(x, width), Pad(y, width));
  }

  /** Comparing two strings that start with prefixes of one length compares the prefixes first. */
  lemma {:induction false} StrLessAfterPrefix(a: string, r: string, b: string, t: string)
    requires |a| == |b|
    ensures StrLess(a + r, b + t) <==> StrLess(a, b) || (a == b && StrLess(r, t))
  {
    if a == [] {
      assert a + r == r && b + t == t;
    } else {
      assert (a + r)[0] == a[0] && (b + t)[0] == b[0];
      assert (a + r)[1..] == a[1..] + r && (b + t)[1..] == b[1..] + t;
      StrLessAfterPrefix(a[1..], r, b[1..], t);
      assert a == b <==> a[0] == b[0] && a[1..] == b[1..] by {
        assert a == [a[0]] + a[1..] && b == [b[0]] + b[1..];
      }
    }
  }

  /** A string led by a padded number compares by the number first, then by the rest. */
  lemma PaddedThen(x: nat, y: nat, width: nat, r: string, t: string)
    requires width >= 1 && x < Pow10(width) && y < Pow10(width)
    ensures StrLess(Pad(x, width) + r, Pad(y, width) + t) <==> x < y || (x == y && StrLess(r, t))
    ensures Pad(x, width) + r == Pad(y, width) + t <==> x == y && r == t
  {
    PadOrder(x, y, width);
    StrLessAfterPrefix(Pad(x, width), r, Pad(y, width), t);
    ConcatEqual(Pad(x, width), r, Pad(y, width), t);
  }

  /** A common separator in front changes neither order nor equality. */
  lemma SeparatorThen(sep: string, r: string, t: string)
    ensures StrLess(sep + r, sep + t) <==> StrLess(r, t)
    ensures sep + r == sep + t <==> r == t
  {
    StrLessAfterPrefix(sep, r, sep, t);
    ConcatEqual(sep, r, sep, t);
    StrLessIrreflexive(sep);
  }

  /** `Number(s)` on non-empty digit strings, the only strings the page's keys split into; None stands for every other string. */
  function ToNumber(s: string): (r: Option<nat>)
    ensures r.Some? <==> s != [] && AllDigits(s)
  {
    if s != [] && AllDigits(s) then Some(Value(s)) else None
  }

  /** No string occurs twice in the list. */
  predicate NoDuplicates(s: seq<string>)
  {
    forall i, j :: 0 <= i < j < |s| ==> s[i] != s[j]
  }

  // ---------------------------------------------------------------------
  // String.prototype.split
  // ---------------------------------------------------------------------

  /** `s.split(sep)` for a non-empty separator: the pieces between the occurrences of `sep`. */
  function Split(s: string, sep: string): (r: seq<string>)
    requires sep != []
    ensures |r| >= 1
    decreases |s|
  {
    if |s| < |sep| then [s]
    else if s[..|sep|] == sep then [[]] + Split(s[|sep|..], sep)
    else
      var rest := Split(s[1..], sep);
      [[s[0]] + rest[0]] + rest[1..]
  }

  /** A string without a '-' contains no "-W", so splitting on it leaves the string whole. */
  lemma {:induction false} SplitNoSeparator(s: string)
    requires forall k :: 0 <= k < |s| ==> s[k] != '-'
    ensures Split(s, "-W") == [s]
    decreases |s|
  {
    if |s| >= 2 {
      assert s[..2] != "-W" by { assert s[0] != '-'; }
      SplitNoSeparator(s[1..]);
      assert [s[0]] + s[1..] == s;
    }
  }

  /** Splitting `a + "-W" + b` on "-W", for digit strings `a` and `b`, gives back `[a, b]`. */
  lemma {:induction false} SplitJoined(a: string, b: string)
    requires AllDigits(a) && AllDigits(b)
    ensures Split(a + "-W" + b, "-W") == [a, b]
    decreases |a|
  {
    var s := a + "-W" + b;
    SplitNoSeparator(b);
    if a == [] {
      assert s == "-W" + b;
      assert s[..2] == "-W" && s[2..] == b;
    } else {
      assert s[..2] != "-W" by {
        assert s[0] == a[0];
      }
      assert s[1..] == a[1..] + "-W" + b;
      SplitJoined(a[1..], b);
      assert [a[0]] + a[1..] == a;
    }
  }
}

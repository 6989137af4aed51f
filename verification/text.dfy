/** String normalisation used on the phone and email columns: stripping
    non-digits, regrouping digits with Python slice semantics, and ASCII
    lower-casing. */
module Text {
  import opened Seqs

  predicate IsDigit(c: char) {
    '0' <= c <= '9'
  }

  predicate AllDigits(s: string) {
    forall k :: 0 <= k < |s| ==> IsDigit(s[k])
  }

  /** `re.sub(r'[^0-9]', '', s)`: the digits of `s`, in order. */
  function Digits(s: string): (d: string)
    ensures AllDigits(d)
    ensures |d| <= |s|
    ensures AllDigits(s) ==> d == s
  {
    FilterKeepsAll(s, IsDigit);
    Filter(s, IsDigit)
  }

  /** Stripping works piece by piece. */
  lemma DigitsAppend(a: string, b: string)
    ensures Digits(a + b) == Digits(a) + Digits(b)
  {
    FilterAppend(a, b, IsDigit);
  }

  /** A single non-digit strips to nothing. */
  lemma NonDigitStrips(c: char)
    requires !IsDigit(c)
    ensures Digits([c]) == []
  {
    assert [c][1..] == [];
  }

  function Min(a: int, b: int): int {
    if a <= b then a else b
  }

  /** Python's `s[lo:hi]` for non-negative bounds: both bounds are clamped to
      the length of `s`, and a reversed range is empty. */
  function Slice(s: string, lo: nat, hi: nat): (r: string)
    ensures |r| == if Min(lo, |s|) <= Min(hi, |s|) then Min(hi, |s|) - Min(lo, |s|) else 0
    ensures forall k :: 0 <= k < |r| ==> r[k] == s[Min(lo, |s|) + k]
  {
    var a := Min(lo, |s|);
    var b := Min(hi, |s|);
    if a <= b then s[a..b] else []
  }

  /** `f'{x[:3]}-{x[3:6]}-{x[6:]}'`. No length check: fewer than six digits
      leave short or empty groups, more than ten all go to the last group. */
  function FormatPhone(x: string): string {
    Slice(x, 0, 3) + "-" + Slice(x, 3, 6) + "-" + Slice(x, 6, |x|)
  }

  /** Where the two dashes of a regrouped number of `|p| - 2` digits sit:
      after the third and the sixth digit, or earlier when there are fewer
      digits; every other character is a digit. */
  predicate PhoneShape(p: string) {
    && |p| >= 2
    && var n := |p| - 2;
       var i := Min(3, n);
       var j := Min(6, n) + 1;
       && p[i] == '-'
       && p[j] == '-'
       && forall k :: 0 <= k < |p| && k != i && k != j ==> IsDigit(p[k])
  }

  lemma DashFree(s: string)
    requires AllDigits(s)
    ensures Filter(s, IsDigit) == s
    ensures Count(s, '-') == 0
  {
    FilterKeepsAll(s, IsDigit);
    assert !IsDigit('-');
  }

  /** Dropping the non-digits of three digit groups joined by dashes gives
      the groups back, run together. */
  lemma DashesDropped(a: string, b: string, c: string)
    requires AllDigits(a) && AllDigits(b) && AllDigits(c)
    ensures Digits(a + "-" + b + "-" + c) == a + b + c
  {
    var dash := "-";
    assert Filter(dash, IsDigit) == [] by {
      assert dash[1..] == [];
    }
    var s1 := a + dash;
    var s2 := s1 + b;
    var s3 := s2 + dash;
    var s4 := s3 + c;
    DashFree(a);
    FilterAppend(a, dash, IsDigit);
    assert Filter(s1, IsDigit) == a;
    DashFree(b);
    FilterAppend(s1, b, IsDigit);
    assert Filter(s2, IsDigit) == a + b;
    FilterAppend(s2, dash, IsDigit);
    assert Filter(s3, IsDigit) == a + b;
    DashFree(c);
    FilterAppend(s3, c, IsDigit);
    assert Filter(s4, IsDigit) == a + b + c;
    assert s4 == a + "-" + b + "-" + c;
  }

  /** The three digit groups of a phone-shaped string. */
  lemma ShapeParts(p: string) returns (a: string, b: string, c: string)
    requires PhoneShape(p)
    ensures p == a + "-" + b + "-" + c
    ensures AllDigits(a) && AllDigits(b) && AllDigits(c)
    ensures |a| == Min(3, |p| - 2) && |b| == Min(6, |p| - 2) - Min(3, |p| - 2)
  {
    var n := |p| - 2;
    var i, j := Min(3, n), Min(6, n) + 1;
    a, b, c := p[..i], p[i + 1..j], p[j + 1..];
    assert p == a + [p[i]] + b + [p[j]] + c;
    forall k | 0 <= k < |a| ensures IsDigit(a[k]) { assert a[k] == p[k]; }
    forall k | 0 <= k < |b| ensures IsDigit(b[k]) { assert b[k] == p[i + 1 + k]; }
    forall k | 0 <= k < |c| ensures IsDigit(c[k]) { assert c[k] == p[j + 1 + k]; }
  }

  /** Three digit groups of the regrouped lengths, joined by dashes, make
      the phone shape. */
  lemma JoinShape(a: string, b: string, c: string)
    requires AllDigits(a) && AllDigits(b) && AllDigits(c)
    requires |a| == Min(3, |a| + |b| + |c|)
    requires |b| == Min(6, |a| + |b| + |c|) - |a|
    ensures PhoneShape(a + "-" + b + "-" + c)
  {
    var p := a + "-" + b + "-" + c;
    var i, j := |a|, |a| + |b| + 1;
    assert p[i] == '-' && p[j] == '-';
    forall k | 0 <= k < |p| && k != i && k != j
      ensures IsDigit(p[k])
    {
      if k < i {
        assert p[k] == a[k];
      } else if k < j {
        assert p[k] == b[k - i - 1];
      } else {
        assert p[k] == c[k - j - 1];
      }
    }
  }

  /** Regrouping a digit string yields the phone shape, two characters longer,
      whose digits are the input again. */
  lemma FormatPhoneShape(d: string)
    requires AllDigits(d)
    ensures PhoneShape(FormatPhone(d))
    ensures |FormatPhone(d)| == |d| + 2
    ensures Digits(FormatPhone(d)) == d
  {
    var n := |d|;
    var i, j := Min(3, n), Min(6, n);
    var a, b, c := d[..i], d[i..j], d[j..];
    assert Slice(d, 0, 3) == a && Slice(d, 3, 6) == b && Slice(d, 6, n) == c;
    assert FormatPhone(d) == a + "-" + b + "-" + c;
    assert a + b + c == d;
    assert AllDigits(a) && AllDigits(b) && AllDigits(c);
    JoinShape(a, b, c);
    DashesDropped(a, b, c);
  }

  /** Reading the digits out of a phone-shaped string and regrouping them
      gives the same string back. */
  lemma ShapeIsFormatted(p: string)
    requires PhoneShape(p)
    ensures FormatPhone(Digits(p)) == p
  {
    var a, b, c := ShapeParts(p);
    DashesDropped(a, b, c);
    var d := a + b + c;
    assert Slice(d, 0, 3) == a;
    assert Slice(d, 3, 6) == b;
    assert Slice(d, 6, |d|) == c;
  }

  /** A phone-shaped string holds exactly two dashes. */
  lemma ShapeHasTwoDashes(p: string)
    requires PhoneShape(p)
    ensures Count(p, '-') == 2
  {
    var a, b, c := ShapeParts(p);
    DashFree(a);
    DashFree(b);
    DashFree(c);
    assert Count("-", '-') == 1 by {
      assert "-"[1..] == [];
    }
    CountAppend(a, "-", '-');
    CountAppend(a + "-", b, '-');
    CountAppend(a + "-" + b, "-", '-');
    CountAppend(a + "-" + b + "-", c, '-');
  }

  /** Lines 33-34 of the script on one text cell: strip, then regroup. */
  function NormalizePhone(s: string): (p: string)
    ensures PhoneShape(p)
    ensures |p| == |Digits(s)| + 2
    ensures Digits(p) == Digits(s)
  {
    FormatPhoneShape(Digits(s));
    FormatPhone(Digits(s))
  }

  /** The phone shape is exactly the set of strings normalisation leaves
      alone. */
  lemma NormalizePhoneFixpoints(p: string)
    ensures NormalizePhone(p) == p <==> PhoneShape(p)
  {
    if PhoneShape(p) {
      ShapeIsFormatted(p);
    }
  }

  lemma NormalizePhoneIdempotent(s: string)
    ensures NormalizePhone(NormalizePhone(s)) == NormalizePhone(s)
  {
    NormalizePhoneFixpoints(NormalizePhone(s));
  }

  predicate IsUpper(c: char) {
    'A' <= c <= 'Z'
  }

  /** `str.lower` on one character, restricted to ASCII letters. */
  function LowerChar(c: char): (r: char)
    ensures !IsUpper(r)
    ensures IsUpper(c) ==> 'a' <= r <= 'z' && r as int - 'a' as int == c as int - 'A' as int
    ensures !IsUpper(c) ==> r == c
  {
    if IsUpper(c) then (c as int - 'A' as int + 'a' as int) as char else c
  }

  /** `str.lower` on a string (ASCII letters only). */
  function Lower(s: string): (r: string)
    ensures |r| == |s|
    ensures NoUpper(r)
    ensures forall k :: 0 <= k < |s| && IsUpper(s[k]) ==> r[k] as int - 'a' as int == s[k] as int - 'A' as int
    ensures forall k :: 0 <= k < |s| && !IsUpper(s[k]) ==> r[k] == s[k]
  {
    seq(|s|, k requires 0 <= k < |s| => LowerChar(s[k]))
  }

  predicate NoUpper(s: string) {
    forall k :: 0 <= k < |s| ==> !IsUpper(s[k])
  }

  /** Lower-casing changes a string exactly when it has an upper-case letter. */
  lemma LowerFixpoints(s: string)
    ensures Lower(s) == s <==> NoUpper(s)
  {
  }

  lemma LowerIdempotent(s: string)
    ensures Lower(Lower(s)) == Lower(s)
  {
    LowerFixpoints(Lower(s));
  }
}

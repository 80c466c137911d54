/** The text that converting a cell to a floating-point number accepts: an
    optional sign, digits with at most one decimal point (at least one
    digit in all), and an optional exponent. The numeric value itself is
    not modelled. */
module Numbers {
  import opened Seqs

  predicate IsDigit(c: char) {
    '0' <= c <= '9'
  }

  predicate HasDigit(s: string) {
    exists i :: 0 <= i < |s| && IsDigit(s[i])
  }

  /** The length of the longest all-digit prefix of `s`. */
  function LeadingDigits(s: string): (n: nat)
    ensures n <= |s|
    ensures forall i :: 0 <= i < n ==> IsDigit(s[i])
    ensures n < |s| ==> !IsDigit(s[n])
  {
    if s == [] || !IsDigit(s[0]) then 0 else 1 + LeadingDigits(s[1..])
  }

  function DropSign(s: string): (t: string)
    ensures |t| <= |s|
  {
    if |s| > 0 && (s[0] == '+' || s[0] == '-') then s[1..] else s
  }

  /** The part after 'e' or 'E': an optional sign and at least one digit. */
  predicate IsExponent(e: string) {
    var u := DropSign(e);
    |u| > 0 && LeadingDigits(u) == |u|
  }

  /** Nothing, or an exponent marker followed by an exponent. */
  predicate IsExponentPart(tail: string) {
    tail == [] || ((tail[0] == 'e' || tail[0] == 'E') && IsExponent(tail[1..]))
  }

  /** What follows the integer digits: an optional point with fraction
      digits, then the exponent part; `seen` says whether the integer part
      had digits. */
  predicate IsFractionPart(rest: string, seen: bool) {
    if |rest| > 0 && rest[0] == '.' then
      var frac := LeadingDigits(rest[1..]);
      (seen || frac > 0) && IsExponentPart(rest[1 + frac..])
    else
      seen && IsExponentPart(rest)
  }

  predicate IsUnsignedNumber(t: string) {
    var whole := LeadingDigits(t);
    IsFractionPart(t[whole..], whole > 0)
  }

  predicate IsNumeric(s: string) {
    IsUnsignedNumber(DropSign(s))
  }

  /** A number has at least one digit: text without digits never converts. */
  lemma NumericHasDigit(s: string)
    requires IsNumeric(s)
    ensures HasDigit(s)
  {
    var off := |s| - |DropSign(s)|;
    var t := DropSign(s);
    assert t == s[off..];
    var whole := LeadingDigits(t);
    if whole > 0 {
      assert IsDigit(s[off]);
    } else {
      var rest := t[whole..];
      assert rest == t;
      assert LeadingDigits(rest[1..]) > 0;
      assert IsDigit(t[1]);
      assert IsDigit(s[off + 1]);
    }
  }

  /** A non-empty run of digits is a number. */
  lemma AllDigitsNumeric(s: string)
    requires |s| > 0
    requires forall j :: 0 <= j < |s| ==> IsDigit(s[j])
    ensures IsNumeric(s)
  {
    assert DropSign(s) == s;
    AllDigitsLead(s);
    assert s[|s|..] == [];
  }

  /** Text made only of digits and commas, with at least one digit, is a
      number once its commas are stripped ("1,234" becomes "1234"). */
  lemma DigitsAndCommasAreNumeric(s: string)
    requires forall i :: 0 <= i < |s| ==> IsDigit(s[i]) || s[i] == ','
    requires HasDigit(s)
    ensures IsNumeric(RemoveAll(s, ','))
  {
    var r := RemoveAll(s, ',');
    var i :| 0 <= i < |s| && IsDigit(s[i]);
    RemoveAllKeepsOthers(s, ',', s[i]);
    assert s[i] in multiset(s);
    assert s[i] in r;
    forall j | 0 <= j < |r|
      ensures IsDigit(r[j])
    {
      assert r[j] in s && r[j] != ',';
    }
    AllDigitsNumeric(r);
  }

  lemma {:induction false} AllDigitsLead(s: string)
    requires forall j :: 0 <= j < |s| ==> IsDigit(s[j])
    ensures LeadingDigits(s) == |s|
  {
    if s != [] {
      AllDigitsLead(s[1..]);
    }
  }

  /** Stripping commas never removes a digit, so a column cell without
      digits still has none afterwards and cannot convert. */
  lemma DigitlessNeverNumeric(s: string)
    requires !HasDigit(s)
    ensures !IsNumeric(RemoveAll(s, ','))
  {
    var r := RemoveAll(s, ',');
    assert !HasDigit(r) by {
      forall j | 0 <= j < |r|
        ensures !IsDigit(r[j])
      {
        assert r[j] in s;
      }
    }
    if IsNumeric(r) {
      NumericHasDigit(r);
    }
  }

  /** Stripping a thousands separator joins the groups on either side. */
  lemma StripSeparator(a: string, b: string)
    requires ',' !in a && ',' !in b
    ensures RemoveAll(a + [','] + b, ',') == a + b
  {
    var head := a + [','];
    RemoveAllAppend(head, b, ',');
    RemoveAllAppend(a, [','], ',');
    assert RemoveAll([','], ',') == [];
    assert RemoveAll(head, ',') == a;
  }

  predicate AllDigits(s: string) {
    forall j :: 0 <= j < |s| ==> IsDigit(s[j])
  }

  /** The digit run at the front of `w + rest` is exactly `w` when `rest`
      does not start with a digit. */
  lemma {:induction false} LeadingDigitsStop(w: string, rest: string)
    requires AllDigits(w)
    requires rest == [] || !IsDigit(rest[0])
    ensures LeadingDigits(w + rest) == |w|
  {
    if w == [] {
      assert w + rest == rest;
    } else {
      assert (w + rest)[1..] == w[1..] + rest;
      LeadingDigitsStop(w[1..], rest);
    }
  }

  /** Digits, a point and digits make a number ("1234.50"). */
  lemma DecimalNumeric(w: string, f: string)
    requires |w| > 0 && AllDigits(w) && AllDigits(f)
    ensures IsNumeric(w + ['.'] + f)
  {
    var rest := ['.'] + f;
    var t := w + rest;
    assert w + ['.'] + f == t;
    assert DropSign(t) == t;
    LeadingDigitsStop(w, rest);
    assert t[|w|..] == rest;
    assert rest[1..] == f;
    AllDigitsLead(f);
    assert rest[1 + |f|..] == [];
  }

  lemma DigitsHaveNoComma(s: string)
    requires AllDigits(s)
    ensures ',' !in s
  {
    forall j | 0 <= j < |s|
      ensures s[j] != ','
    {
      assert IsDigit(s[j]);
    }
  }

  lemma DigitsJoin(a: string, b: string)
    requires AllDigits(a) && AllDigits(b)
    ensures AllDigits(a + b)
  {
    forall j | 0 <= j < |a + b|
      ensures IsDigit((a + b)[j])
    {
      if j >= |a| {
        assert (a + b)[j] == b[j - |a|];
      }
    }
  }

  /** An amount with a thousands separator and a decimal part, such as
      "1,234.50": stripping the comma joins the groups, and what remains is
      a number. */
  lemma GroupedDecimal(a: string, b: string, f: string)
    requires |a| > 0 && AllDigits(a) && AllDigits(b) && AllDigits(f)
    ensures RemoveAll(a + [','] + b + ['.'] + f, ',') == a + b + ['.'] + f
    ensures IsNumeric(RemoveAll(a + [','] + b + ['.'] + f, ','))
  {
    var tail := b + ['.'] + f;
    assert a + [','] + b + ['.'] + f == a + [','] + tail;
    assert a + tail == a + b + ['.'] + f;
    DigitsHaveNoComma(a);
    DigitsHaveNoComma(b);
    DigitsHaveNoComma(f);
    assert ',' !in tail;
    StripSeparator(a, tail);
    DigitsJoin(a, b);
    DecimalNumeric(a + b, f);
  }
}

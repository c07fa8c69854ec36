/** Decimal rendering of integers as Python's `str` and JavaScript's
    `Number.prototype.toString` produce it for integer values, the parsers
    that invert it, and the few string helpers the rest of the model needs. */
module Text {

  datatype Option<+T> = None | Some(value: T)

  predicate IsDigit(c: char) {
    '0' <= c <= '9'
  }

  predicate AllDigits(s: string) {
    forall i :: 0 <= i < |s| ==> IsDigit(s[i])
  }

  function DigitChar(d: nat): (c: char)
    requires d < 10
    ensures IsDigit(c) && c as int - '0' as int == d
  {
    ('0' as int + d) as char
  }

  function DigitValue(c: char): nat
    requires IsDigit(c)
  {
    c as int - '0' as int
  }

  /** The decimal digits of `n`, most significant first, without leading zeros. */
  function NatToString(n: nat): (s: string)
    ensures |s| >= 1 && AllDigits(s)
    decreases n
  {
    if n < 10 then [DigitChar(n)] else NatToString(n / 10) + [DigitChar(n % 10)]
  }

  /** `str(i)` in Python, `i.toString()` in JavaScript: a minus sign for negative values. */
  function IntToString(i: int): (s: string)
    ensures |s| >= 1
    ensures (s[0] == '-') == (i < 0)
    ensures i >= 0 ==> AllDigits(s)
    ensures i < 0 ==> AllDigits(s[1..])
  {
    if i < 0 then "-" + NatToString(-i) else NatToString(i)
  }

  /** The value of a string of decimal digits (the empty string reads as 0). */
  function ParseNat(s: string): nat
    requires AllDigits(s)
  {
    if s == [] then 0 else ParseNat(s[..|s| - 1]) * 10 + DigitValue(s[|s| - 1])
  }

  /** Reads an optional minus sign followed by at least one decimal digit. */
  function ParseInt(s: string): Option<int> {
    if |s| >= 2 && s[0] == '-' && AllDigits(s[1..]) then Some(-(ParseNat(s[1..]) as int))
    else if |s| >= 1 && AllDigits(s) then Some(ParseNat(s))
    else None
  }

  lemma {:induction false} ParseNatToString(n: nat)
    ensures ParseNat(NatToString(n)) == n
    decreases n
  {
    if n >= 10 {
      var s := NatToString(n);
      assert s[..|s| - 1] == NatToString(n / 10);
      ParseNatToString(n / 10);
    }
  }

  lemma ParseIntToString(i: int)
    ensures ParseInt(IntToString(i)) == Some(i)
  {
    var s := IntToString(i);
    if i < 0 {
      var d := NatToString(-i);
      assert s == "-" + d;
      assert s[1..] == d;
      assert |s| >= 2 && s[0] == '-' && AllDigits(s[1..]);
      ParseNatToString(-i);
    } else {
      assert s == NatToString(i);
      assert s[0] != '-';
      ParseNatToString(i);
    }
  }

  /** The position of the last occurrence of `c` in `s` (Python's `rfind`, None for -1). */
  function LastIndexOf(s: string, c: char): (r: Option<nat>)
    ensures r.Some? ==> r.value < |s| && s[r.value] == c
    ensures r.Some? ==> forall j :: r.value < j < |s| ==> s[j] != c
    ensures r.None? ==> forall j :: 0 <= j < |s| ==> s[j] != c
  {
    if s == [] then None
    else if s[|s| - 1] == c then Some(|s| - 1)
    else LastIndexOf(s[..|s| - 1], c)
  }

  lemma {:induction false} LastIndexOfJoin(a: string, c: char, b: string)
    requires forall j :: 0 <= j < |b| ==> b[j] != c
    ensures LastIndexOf(a + [c] + b, c) == Some(|a|)
    decreases |b|
  {
    var s := a + [c] + b;
    if b != [] {
      var b' := b[..|b| - 1];
      assert s[..|s| - 1] == a + [c] + b';
      LastIndexOfJoin(a, c, b');
    }
  }

  /** `n` copies of `c`. */
  function Repeat(c: char, n: nat): (r: string)
    ensures |r| == n && forall j :: 0 <= j < n ==> r[j] == c
  {
    if n == 0 then [] else Repeat(c, n - 1) + [c]
  }

  /** JavaScript's `s.padStart(width, fill)` for a one-character `fill`. */
  function PadStart(s: string, width: nat, fill: char): (r: string)
    ensures |r| == if |s| >= width then |s| else width
    ensures r[|r| - |s|..] == s
    ensures forall j :: 0 <= j < |r| - |s| ==> r[j] == fill
  {
    if |s| >= width then s else Repeat(fill, width - |s|) + s
  }
}

/** Printing a number in a base into a bounded buffer. */
module NumberText {

  /** What a digit looks like; digits from 16 on are not printed. */
  function DigitChar(d: nat): char {
    if d < 10 then '0' + d as char else if d < 16 then 'a' + (d - 10) as char else '\0'
  }

  /** The digits from the least significant one, up to the first that cannot be printed. */
  function Backwards(a: nat, base: nat): (s: seq<char>)
    requires base >= 2
    ensures s != []
    decreases a
  {
    if a % base > 15 then ['\0']
    else if a / base == 0 then [DigitChar(a % base)]
    else
      Smaller(a, base);
      [DigitChar(a % base)] + Backwards(a / base, base)
  }

  lemma Smaller(a: nat, base: nat)
    requires base >= 2 && a / base > 0
    ensures a / base < a
  {
    var q := a / base;
    assert a == q * base + a % base;
    assert q * base == q * 2 + q * (base - 2);
    assert q * (base - 2) >= 0;
  }

  function Reversed(s: seq<char>): (r: seq<char>)
    ensures |r| == |s| && forall i :: 0 <= i < |s| ==> r[i] == s[|s| - 1 - i]
  {
    seq(|s|, i requires 0 <= i < |s| => s[|s| - 1 - i])
  }

  /** The number as text, most significant digit first. */
  function Text(a: nat, base: nat): (s: seq<char>)
    requires base >= 2
  {
    Reversed(Backwards(a, base))
  }

  function Min(x: int, y: int): int {
    if x < y then x else y
  }

  /** `sprint_uint32_base_safe` and `sprint_uint64_base_safe`, which differ in the width of `a` only.  Both need the
      digits to fit their 36-character scratch buffer, of which they clear 34 characters and print at most 34. */
  method SprintBase(out: array<char>, length: nat, a: nat, base: nat) returns (h: nat)
    requires base >= 2 && 1 <= length <= out.Length
    requires |Backwards(a, base)| <= if base <= 16 then 36 else 34
    modifies out
    ensures h == Min(|Text(a, base)|, Min(length - 1, 34))
    ensures out[..h] == Text(a, base)[..h]
    ensures forall j :: h <= j < out.Length ==> out[j] == old(out[j])
  {
    var buff := new char[36](_ => '\0');
    var digit := FillBuffer(buff, a, base);
    ghost var digits := Backwards(a, base);
    ghost var text := Text(a, base);
    h := 0;
    var i: int := digit;
    while i >= 0
      invariant -1 <= i <= digit == |digits| - 1 && h == digit - i && h <= Min(length - 1, 34)
      invariant buff[..digit + 1] == digits
      invariant out[..h] == text[..h]
      invariant forall j :: h <= j < out.Length ==> out[j] == old(out[j])
      decreases i
    {
      if h >= length - 1 || h >= 34 {
        return;
      }
      assert buff[i] == buff[..digit + 1][i] == text[h];
      out[h] := buff[i];
      assert out[..h + 1] == out[..h] + [out[h]];
      h := h + 1;
      i := i - 1;
    }
  }

  /** The digit loop; returns the index of the last digit. */
  method FillBuffer(buff: array<char>, n: nat, base: nat) returns (digit: nat)
    requires base >= 2 && buff.Length == 36 && forall i :: 0 <= i < 34 ==> buff[i] == '\0'
    requires |Backwards(n, base)| <= if base <= 16 then 36 else 34
    modifies buff
    ensures digit + 1 == |Backwards(n, base)| && buff[..digit + 1] == Backwards(n, base)
  {
    ghost var all := Backwards(n, base);
    var a: nat := n;
    digit := 0;
    while true
      invariant digit < |all| && digit < 36 && all == buff[..digit] + Backwards(a, base)
      invariant forall i :: digit <= i < 34 ==> buff[i] == '\0'
      decreases |all| - digit
    {
      var tmp, rest := LastDigit(a, base);
      if tmp > 15 {
        assert buff[..digit + 1] == buff[..digit] + [buff[digit]];
        break;
      }
      PutDigit(buff, digit, DigitChar(tmp));
      if rest == 0 {
        break;
      }
      a := rest;
      digit := digit + 1;
    }
  }

  method PutDigit(buff: array<char>, digit: nat, c: char)
    requires digit < buff.Length
    modifies buff
    ensures buff[..digit + 1] == old(buff[..digit]) + [c]
    ensures forall i :: digit < i < buff.Length ==> buff[i] == old(buff[i])
  {
    buff[digit] := c;
  }

  /** The last digit of a, and what is left without it. */
  method LastDigit(a: nat, base: nat) returns (last: nat, rest: nat)
    requires base >= 2
    ensures last > 15 ==> base > 16 && Backwards(a, base) == ['\0']
    ensures last <= 15 && rest == 0 ==> Backwards(a, base) == [DigitChar(last)]
    ensures last <= 15 && rest > 0 ==> Backwards(a, base) == [DigitChar(last)] + Backwards(rest, base)
  {
    return a % base, a / base;
  }

  // ----- reading back

  /** Value of a digit character, or -1. */
  function DigitValue(c: char): int {
    if '0' <= c <= '9' then c as int - '0' as int
    else if 'a' <= c <= 'f' then c as int - 'a' as int + 10
    else -1
  }

  predicate Readable(s: seq<char>, base: nat) {
    forall i :: 0 <= i < |s| ==> 0 <= DigitValue(s[i]) < base
  }

  /** Value of a text, most significant digit first. */
  function Value(s: seq<char>, base: nat): int {
    if s == [] then 0 else Value(s[..|s| - 1], base) * base + DigitValue(s[|s| - 1])
  }

  /** Some digit of a does not go into one hexadecimal character. */
  predicate HasBigDigit(a: nat, base: nat)
    requires base >= 2
    decreases a
  {
    a % base > 15 || (a / base > 0 && (Smaller(a, base); HasBigDigit(a / base, base)))
  }

  lemma DigitCharIs(d: nat)
    requires d < 16
    ensures DigitChar(d) == "0123456789abcdef"[d]
  {
  }

  lemma DigitCharValue(d: nat)
    requires d < 16
    ensures DigitValue(DigitChar(d)) == d
  {
  }

  lemma TextStep(a: nat, base: nat)
    requires base >= 2 && a % base <= 15 && a / base > 0
    ensures Text(a, base) == Text(a / base, base) + [DigitChar(a % base)]
  {
  }

  lemma Recombine(a: nat, base: nat)
    requires base >= 2
    ensures a / base * base + a % base == a
  {
  }

  lemma ReadStep(s: seq<char>, c: char, base: nat, a: nat)
    requires base >= 2 && Value(s, base) == a / base && DigitValue(c) == a % base
    ensures Value(s + [c], base) == a
  {
    assert (s + [c])[..|s|] == s;
    Recombine(a, base);
  }

  /** Printing and reading is the identity for every number whose digits can all be printed. */
  lemma {:induction false} PrintThenRead(a: nat, base: nat)
    requires base >= 2 && !HasBigDigit(a, base)
    ensures Readable(Text(a, base), base) && Value(Text(a, base), base) == a
    decreases a
  {
    var c := DigitChar(a % base);
    DigitCharValue(a % base);
    if a / base == 0 {
      ReadStep([], c, base, a);
      assert [] + [c] == [c] == Text(a, base);
    } else {
      Smaller(a, base);
      PrintThenRead(a / base, base);
      TextStep(a, base);
      ReadStep(Text(a / base, base), c, base, a);
    }
  }

  /** And it is for no other. */
  lemma {:induction false} BigDigitIsLost(a: nat, base: nat)
    requires base >= 2
    ensures Readable(Text(a, base), base) <==> !HasBigDigit(a, base)
    decreases a
  {
    if !HasBigDigit(a, base) {
      PrintThenRead(a, base);
    } else if a % base > 15 {
      assert Text(a, base) == ['\0'];
      assert DigitValue(Text(a, base)[0]) == -1;
    } else {
      Smaller(a, base);
      BigDigitIsLost(a / base, base);
      TextStep(a, base);
      assert forall i :: 0 <= i < |Text(a / base, base)| ==> Text(a, base)[i] == Text(a / base, base)[i];
    }
  }

  /** Up to base 16 every digit can be printed. */
  lemma {:induction false} SmallBasesPrint(a: nat, base: nat)
    requires 2 <= base <= 16
    ensures !HasBigDigit(a, base)
    decreases a
  {
    if a / base > 0 {
      Smaller(a, base);
      SmallBasesPrint(a / base, base);
    }
  }

  // ----- room in the scratch buffer

  function Power(b: nat, n: nat): nat {
    if n == 0 then 1 else b * Power(b, n - 1)
  }

  /** A number below least^n has at most n digits in every base from `least` on. */
  lemma {:induction false} DigitCount(a: nat, base: nat, least: nat, n: nat)
    requires 2 <= least <= base && n >= 1 && a < Power(least, n)
    ensures |Backwards(a, base)| <= n
    decreases n
  {
    QuotientBelow(a, base, least, Power(least, n - 1));
    if n > 1 {
      DigitCount(a / base, base, least, n - 1);
    }
  }

  lemma QuotientBelow(a: nat, base: nat, least: nat, p: nat)
    requires 2 <= least <= base && a < least * p
    ensures a / base < p
  {
    Recombine(a, base);
    if a / base >= p {
      ProductsGrow(p, a / base, least, base);
    }
  }

  lemma ProductsGrow(p: nat, q: nat, m: nat, n: nat)
    requires p <= q && m <= n
    ensures m * p <= q * n
  {
    assert q * n == p * n + (q - p) * n;
    assert p * n == m * p + p * (n - m);
  }

  /** In the bases that print, exactly these numbers do: from Power(base, 36) on the scratch buffer is overrun. */
  lemma {:induction false} FitsExactlyWhen(a: nat, base: nat, n: nat)
    requires 2 <= base <= 16 && n >= 1
    ensures |Backwards(a, base)| <= n <==> a < Power(base, n)
    decreases n
  {
    if a < Power(base, n) {
      DigitCount(a, base, base, n);
    } else {
      PowerPositive(base, n - 1);
      QuotientAbove(a, base, Power(base, n - 1));
      if n > 1 {
        FitsExactlyWhen(a / base, base, n - 1);
      }
    }
  }

  lemma QuotientAbove(a: nat, base: nat, p: nat)
    requires base >= 2 && p >= 1 && a >= base * p
    ensures a / base >= p
  {
    Recombine(a, base);
    if a / base < p {
      ProductsGrow(a / base + 1, p, base, base);
      assert false;
    }
  }

  lemma {:induction false} PowerPositive(b: nat, n: nat)
    requires b >= 1
    ensures Power(b, n) >= 1
  {
    if n > 0 {
      PowerPositive(b, n - 1);
      assert b * Power(b, n - 1) >= 1;
    }
  }

  /** So both routines have room: 32-bit numbers from base 2 on, 64-bit numbers from base 4 on. */
  lemma RoomFor32(a: nat, base: nat)
    requires base >= 2 && a < 0x1_0000_0000
    ensures |Backwards(a, base)| <= 32
  {
    assert Power(2, 8) == 256;
    PowerAdd(2, 8, 8);
    PowerAdd(2, 16, 16);
    DigitCount(a, base, 2, 32);
  }

  lemma RoomFor64(a: nat, base: nat)
    requires base >= 4 && a < 0x1_0000_0000_0000_0000
    ensures |Backwards(a, base)| <= 32
  {
    assert Power(4, 8) == 65536;
    PowerAdd(4, 8, 8);
    PowerAdd(4, 16, 16);
    DigitCount(a, base, 4, 32);
  }

  lemma {:induction false} PowerAdd(b: nat, m: nat, n: nat)
    ensures Power(b, m + n) == Power(b, m) * Power(b, n)
  {
    if m > 0 {
      PowerAdd(b, m - 1, n);
      assert b * (Power(b, m - 1) * Power(b, n)) == b * Power(b, m - 1) * Power(b, n);
    }
  }
}

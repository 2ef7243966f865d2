/** The C library's reading of decimal numbers, as atoi and atol do it. */
module CNumbers {

  predicate IsSpace(c: char) {
    c == ' ' || '\t' <= c <= '\r'
  }

  predicate IsDigit(c: char) {
    '0' <= c <= '9'
  }

  function SkipSpace(s: string): string {
    if s != "" && IsSpace(s[0]) then SkipSpace(s[1..]) else s
  }

  /** The value of the digits s starts with, continuing a number that reads `sofar`. */
  function LeadingDigits(s: string, sofar: nat): nat {
    if s != "" && IsDigit(s[0]) then LeadingDigits(s[1..], sofar * 10 + (s[0] as int - '0' as int)) else sofar
  }

  /** atol: saturates at the limits of a 64-bit long. */
  function Atol(s: string): (r: int)
    ensures -0x8000_0000_0000_0000 <= r < 0x8000_0000_0000_0000
  {
    var t := SkipSpace(s);
    if t != "" && t[0] == '-' then
      var v: int := LeadingDigits(t[1..], 0);
      if v > 0x8000_0000_0000_0000 then -0x8000_0000_0000_0000 else -v
    else
      var v := LeadingDigits(if t != "" && t[0] == '+' then t[1..] else t, 0);
      if v >= 0x8000_0000_0000_0000 then 0x7fff_ffff_ffff_ffff else v
  }

  /** atoi: the low 32 bits of atol, as a signed number. */
  function Atoi(s: string): (r: int)
    ensures -0x8000_0000 <= r < 0x8000_0000
  {
    (Atol(s) + 0x8000_0000) % 0x1_0000_0000 - 0x8000_0000
  }

  function Find(s: string, c: char): (i: nat)
    ensures i <= |s| && (i < |s| ==> s[i] == c)
  {
    if s == "" || s[0] == c then 0 else 1 + Find(s[1..], c)
  }

  lemma {:induction false} FindAt(s: string, c: char, i: nat)
    requires i <= |s| && c !in s[..i] && (i < |s| ==> s[i] == c)
    ensures Find(s, c) == i
  {
    if i == 0 {
    } else {
      assert s[0] == s[..i][0];
      assert s[1..][..i - 1] == s[..i][1..];
      FindAt(s[1..], c, i - 1);
    }
  }

  /** The decimal numeral of n. */
  function Decimal(n: nat): (s: string)
    ensures s != "" && forall i :: 0 <= i < |s| ==> IsDigit(s[i])
  {
    var last := [(n % 10 + '0' as int) as char];
    if n < 10 then last else Decimal(n / 10) + last
  }

  lemma {:induction false} LeadingDigitsConcat(s: string, t: string, sofar: nat)
    requires forall i :: 0 <= i < |s| ==> IsDigit(s[i])
    ensures LeadingDigits(s + t, sofar) == LeadingDigits(t, LeadingDigits(s, sofar))
  {
    if s == "" {
      assert s + t == t;
    } else {
      assert (s + t)[1..] == s[1..] + t;
      LeadingDigitsConcat(s[1..], t, sofar * 10 + (s[0] as int - '0' as int));
    }
  }

  lemma {:induction false} DecimalReads(n: nat)
    ensures LeadingDigits(Decimal(n), 0) == n
  {
    var last := [(n % 10 + '0' as int) as char];
    if n < 10 {
      assert LeadingDigits(last, 0) == LeadingDigits(last[1..], n);
    } else {
      DecimalReads(n / 10);
      LeadingDigitsConcat(Decimal(n / 10), last, 0);
      assert LeadingDigits(last, n / 10) == LeadingDigits(last[1..], n);
    }
  }

  lemma AtolDecimal(n: nat)
    ensures Atol(Decimal(n)) == if n >= 0x8000_0000_0000_0000 then 0x7fff_ffff_ffff_ffff else n
  {
    DecimalReads(n);
    assert IsDigit(Decimal(n)[0]);
  }

  /** atoi reads a numeral as written exactly if it fits into an int. */
  lemma AtoiDecimal(n: nat)
    requires n < 0x8000_0000_0000_0000
    ensures Atoi(Decimal(n)) == n <==> n < 0x8000_0000
  {
    AtolDecimal(n);
  }
}

/**
 * The few pieces of java.lang the link shortener relies on: 32-bit int
 * arithmetic, Math.abs on an int, String.hashCode, String.startsWith and
 * Integer.toString. A Java String is a seq<char>, one char per UTF-16 unit.
 */
module JavaLang {

  const TWO_32: int := 0x1_0000_0000
  const INT_MIN: int := -0x8000_0000
  const INT_MAX: int := 0x7FFF_FFFF

  predicate IsInt32(x: int) {
    INT_MIN <= x <= INT_MAX
  }

  /** The int a Java expression of type int evaluates to when the exact result is x. */
  function Wrap32(x: int): (r: int)
    ensures IsInt32(r)
    ensures (r - x) % TWO_32 == 0
  {
    var u := x % TWO_32;
    if u <= INT_MAX then u else u - TWO_32
  }

  lemma ModShift(y: int, q: int)
    ensures (y + q * TWO_32) % TWO_32 == y % TWO_32
  {
  }

  /** One Horner step of hashCode may wrap before or after: the int is the same. */
  lemma HornerStepWraps(h: int, c: int)
    ensures Wrap32(31 * Wrap32(h) + c) == Wrap32(31 * h + c)
  {
    var w := Wrap32(h);
    var q := (w - h) / TWO_32;
    assert w == h + q * TWO_32;
    var a := 31 * w + c;
    var b := 31 * h + c;
    assert a == b + (31 * q) * TWO_32;
    ModShift(b, 31 * q);
  }

  /** Math.abs(int): the negation of a negative argument, computed in int, so INT_MIN stays INT_MIN. */
  function AbsInt(x: int): (r: int)
    requires IsInt32(x)
    ensures IsInt32(r)
    ensures x != INT_MIN ==> 0 <= r && (r == x || r == -x)
    ensures x == INT_MIN ==> r == INT_MIN
  {
    if x < 0 then Wrap32(-x) else x
  }

  function Pow31(k: nat): (p: nat)
    ensures 1 <= p
  {
    if k == 0 then 1 else 31 * Pow31(k - 1)
  }

  /** The value hashCode is defined to have, s[0]*31^(n-1) + ... + s[n-1], before reduction to an int. */
  function PolynomialHash(s: string): int
  {
    if |s| == 0 then 0 else (s[0] as int) * Pow31(|s| - 1) + PolynomialHash(s[1..])
  }

  /** String.hashCode: h = 31*h + c over the characters, in int arithmetic. */
  function HashCode(s: string): (h: int)
    ensures IsInt32(h)
  {
    if |s| == 0 then 0 else Wrap32(31 * HashCode(s[..|s| - 1]) + s[|s| - 1] as int)
  }

  /** Appending a character to the polynomial multiplies the old value by 31 and adds the character. */
  lemma {:induction false} PolynomialHashSnoc(p: string, c: char)
    ensures PolynomialHash(p + [c]) == 31 * PolynomialHash(p) + c as int
    decreases |p|
  {
    if |p| == 0 {
      assert p + [c] == [c];
      assert [c][1..] == [];
    } else {
      var s := p + [c];
      assert s[0] == p[0];
      assert s[1..] == p[1..] + [c];
      PolynomialHashSnoc(p[1..], c);
      var a := p[0] as int;
      assert Pow31(|s| - 1) == 31 * Pow31(|p| - 1);
      assert a * Pow31(|s| - 1) == 31 * (a * Pow31(|p| - 1));
    }
  }

  /** hashCode is the defining polynomial reduced to an int. */
  lemma {:induction false} HashCodeIsPolynomial(s: string)
    ensures HashCode(s) == Wrap32(PolynomialHash(s))
    decreases |s|
  {
    if |s| == 0 {
    } else {
      var p := s[..|s| - 1];
      var c := s[|s| - 1];
      assert s == p + [c];
      HashCodeIsPolynomial(p);
      PolynomialHashSnoc(p, c);
      HornerStepWraps(PolynomialHash(p), c as int);
    }
  }

  /** The loop of String.hashCode, with its int accumulator. */
  method ComputeHashCode(s: string) returns (h: int)
    ensures IsInt32(h)
    ensures h == Wrap32(PolynomialHash(s))
  {
    h := 0;
    var i := 0;
    while i < |s|
      invariant 0 <= i <= |s|
      invariant h == HashCode(s[..i])
    {
      assert s[..i + 1][..i] == s[..i];
      h := Wrap32(31 * h + s[i] as int);
      i := i + 1;
    }
    assert s[..|s|] == s;
    HashCodeIsPolynomial(s);
  }

  /** String.startsWith. */
  function StartsWith(s: string, prefix: string): (b: bool)
    ensures b <==> exists t :: s == prefix + t
  {
    if |prefix| <= |s| && s[..|prefix|] == prefix then
      assert s == prefix + s[|prefix|..];
      true
    else
      assert forall t: string :: (prefix + t)[..|prefix|] == prefix;
      false
  }

  function DecimalDigit(d: nat): (c: char)
    requires d < 10
    ensures '0' <= c <= '9'
  {
    ('0' as int + d) as char
  }

  /** Integer.toString for a non-negative int. */
  function DecimalString(n: nat): (s: string)
    ensures 0 < |s|
    ensures forall i :: 0 <= i < |s| ==> '0' <= s[i] <= '9'
  {
    if n < 10 then [DecimalDigit(n)] else DecimalString(n / 10) + [DecimalDigit(n % 10)]
  }

  function DecimalValue(s: string): nat
    requires forall i :: 0 <= i < |s| ==> '0' <= s[i] <= '9'
  {
    if |s| == 0 then 0 else 10 * DecimalValue(s[..|s| - 1]) + (s[|s| - 1] as int - '0' as int)
  }

  /** Integer.toString writes n's decimal digits, most significant first, with no leading zero. */
  lemma {:induction false} DecimalStringRoundTrip(n: nat)
    ensures DecimalValue(DecimalString(n)) == n
    ensures 1 < |DecimalString(n)| ==> DecimalString(n)[0] != '0'
  {
    var s := DecimalString(n);
    if n >= 10 {
      DecimalStringRoundTrip(n / 10);
      assert s[..|s| - 1] == DecimalString(n / 10);
    }
  }

  /** StringBuilder.reverse on a string of single UTF-16 units. */
  function Reverse(s: string): (r: string)
    ensures |r| == |s|
    ensures forall i :: 0 <= i < |s| ==> r[i] == s[|s| - 1 - i]
  {
    if |s| == 0 then [] else [s[|s| - 1]] + Reverse(s[..|s| - 1])
  }
}

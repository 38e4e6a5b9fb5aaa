/**
 * encodeAlphabetBase: base-62 over ALPHABET, most significant digit first.
 * The digit with value 0 is 'A'; the character '0' is the digit with value 52.
 * Digits are computed from their value by character arithmetic; AlphabetAt
 * shows that this is exactly ALPHABET.charAt.
 */
module Base62 {
  import JavaLang

  const ALPHABET: string := "ABCDEFGHIJKLMNOPQRSTUVWXYZabcdefghijklmnopqrstuvwxyz0123456789"
  const BASE: nat := 62

  const UPPER: string := "ABCDEFGHIJKLMNOPQRSTUVWXYZ"
  const LOWER: string := "abcdefghijklmnopqrstuvwxyz"
  const DIGITS: string := "0123456789"

  /** The character of digit value d: upper case for 0-25, lower case for 26-51, decimal digits for 52-61. */
  function DigitChar(d: nat): (c: char)
    requires d < BASE
    ensures IsAlphabetChar(c)
    ensures c == 'A' <==> d == 0
  {
    if d < 26 then ('A' as int + d) as char
    else if d < 52 then ('a' as int + (d - 26)) as char
    else ('0' as int + (d - 52)) as char
  }

  predicate IsAlphabetChar(c: char) {
    ('A' <= c <= 'Z') || ('a' <= c <= 'z') || ('0' <= c <= '9')
  }

  /** Every character is a digit: the encoding uses ALPHABET only. */
  predicate AllInAlphabet(s: string) {
    forall i :: 0 <= i < |s| ==> IsAlphabetChar(s[i])
  }

  /** The value of one base-62 digit: its index in ALPHABET. */
  function DigitValue(c: char): (v: nat)
    requires IsAlphabetChar(c)
    ensures v < BASE && DigitChar(v) == c
  {
    if 'A' <= c <= 'Z' then c as int - 'A' as int
    else if 'a' <= c <= 'z' then 26 + (c as int - 'a' as int)
    else 52 + (c as int - '0' as int)
  }

  /** DigitValue undoes DigitChar, so no two values share a character. */
  lemma DigitValueOfChar(d: nat)
    requires d < BASE
    ensures DigitValue(DigitChar(d)) == d
  {
  }

  lemma UpperRun(i: nat)
    requires i < 26
    ensures UPPER[i] as int == 'A' as int + i
  {
  }

  lemma LowerRun(i: nat)
    requires i < 26
    ensures LOWER[i] as int == 'a' as int + i
  {
  }

  lemma DigitRun(i: nat)
    requires i < 10
    ensures DIGITS[i] as int == '0' as int + i
  {
  }

  lemma AlphabetParts()
    ensures ALPHABET == UPPER + LOWER + DIGITS
  {
  }

  lemma ConcatIndex(a: string, b: string, c: string, i: nat)
    requires i < |a| + |b| + |c|
    ensures i < |a| ==> (a + b + c)[i] == a[i]
    ensures |a| <= i < |a| + |b| ==> (a + b + c)[i] == b[i - |a|]
    ensures |a| + |b| <= i ==> (a + b + c)[i] == c[i - |a| - |b|]
  {
  }

  /** ALPHABET.charAt(d) is DigitChar(d). */
  lemma AlphabetAt(d: nat)
    requires d < BASE
    ensures |ALPHABET| == BASE
    ensures ALPHABET[d] == DigitChar(d)
  {
    AlphabetParts();
    ConcatIndex(UPPER, LOWER, DIGITS, d);
    if d < 26 {
      UpperRun(d);
    } else if d < 52 {
      LowerRun(d - 26);
    } else {
      DigitRun(d - 52);
    }
  }

  /** The characters of ALPHABET are exactly the alphabet characters. */
  lemma AlphabetMembership(c: char)
    ensures c in ALPHABET <==> IsAlphabetChar(c)
  {
    AlphabetAt(0);
    if c in ALPHABET {
      var i :| 0 <= i < |ALPHABET| && ALPHABET[i] == c;
      AlphabetAt(i);
    }
    if IsAlphabetChar(c) {
      var v := DigitValue(c);
      AlphabetAt(v);
      assert ALPHABET[v] == c;
    }
  }

  /** The base-62 digits of n, most significant first; no digits at all for 0. */
  function Digits(n: nat): (s: string)
    ensures AllInAlphabet(s)
    ensures n > 0 ==> 0 < |s| && s[0] != 'A'
    decreases n
  {
    if n == 0 then [] else Digits(n / BASE) + [DigitChar(n % BASE)]
  }

  /** encodeAlphabetBase on a long: "0" for zero, nothing for a negative number, the digits otherwise. */
  function EncodeAlphabetBase(number: int): (r: string)
    ensures AllInAlphabet(r)
    ensures number == 0 ==> r == "0"
    ensures number < 0 ==> r == ""
    ensures number > 0 ==> 0 < |r| && r[0] != 'A'
  {
    if number == 0 then "0" else if number < 0 then "" else Digits(number)
  }

  /** The number a string of base-62 digits denotes, most significant first. */
  function DecodeDigits(s: string): nat
    requires AllInAlphabet(s)
  {
    if |s| == 0 then 0 else DecodeDigits(s[..|s| - 1]) * BASE + DigitValue(s[|s| - 1])
  }

  lemma DivModBase(q: nat, v: nat)
    requires v < BASE
    ensures (q * BASE + v) / BASE == q
    ensures (q * BASE + v) % BASE == v
  {
  }

  /** The digits recombine to the number they encode. */
  lemma {:induction false} DecodeEncode(n: nat)
    ensures DecodeDigits(Digits(n)) == n
    decreases n
  {
    if n > 0 {
      var s := Digits(n);
      var q, v := n / BASE, n % BASE;
      assert s == Digits(q) + [DigitChar(v)];
      assert s[..|s| - 1] == Digits(q);
      DecodeEncode(q);
      DigitValueOfChar(v);
      assert DecodeDigits(s) == q * BASE + v;
    }
  }

  /** A positive number's encoding reads back as that number. */
  lemma EncodeRoundTrip(number: int)
    requires 0 < number
    ensures DecodeDigits(EncodeAlphabetBase(number)) == number
  {
    DecodeEncode(number);
  }

  /** A digit string with no leading 'A' is the encoding of the number it denotes. */
  lemma {:induction false} EncodeDecode(s: string)
    requires AllInAlphabet(s)
    requires 0 < |s| ==> s[0] != 'A'
    ensures 0 < |s| ==> 0 < DecodeDigits(s)
    ensures Digits(DecodeDigits(s)) == s
    decreases |s|
  {
    if 0 < |s| {
      var p := s[..|s| - 1];
      var c := s[|s| - 1];
      assert s == p + [c];
      assert AllInAlphabet(p);
      assert 0 < |p| ==> p[0] == s[0];
      EncodeDecode(p);
      var q := DecodeDigits(p);
      var v := DigitValue(c);
      var n := DecodeDigits(s);
      assert n == q * BASE + v;
      assert 0 < n by {
        if |p| == 0 {
          assert c == s[0];
        }
      }
      DivModBase(q, v);
      assert Digits(n) == Digits(q) + [DigitChar(v)];
    }
  }

  /** Positive numbers have pairwise different encodings. */
  lemma EncodeInjective(m: int, n: int)
    requires 0 < m && 0 < n
    requires EncodeAlphabetBase(m) == EncodeAlphabetBase(n)
    ensures m == n
  {
    EncodeRoundTrip(m);
    EncodeRoundTrip(n);
  }

  /** Zero is written "0", the digit 52 on its own, so 0 and 52 share an encoding. */
  lemma ZeroSharesEncodingWith52()
    ensures EncodeAlphabetBase(0) == EncodeAlphabetBase(52) == "0"
    ensures DecodeDigits("0") == 52
  {
    assert Digits(52 / BASE) == [];
    assert DigitChar(52) == '0';
  }

  function Pow62(k: nat): (p: nat)
    ensures 1 <= p
  {
    if k == 0 then 1 else BASE * Pow62(k - 1)
  }

  /** n has at most k digits exactly when n < 62^k. */
  lemma {:induction false} DigitsLength(n: nat, k: nat)
    ensures |Digits(n)| <= k <==> n < Pow62(k)
    decreases n
  {
    if n > 0 {
      if k == 0 {
      } else {
        DigitsLength(n / BASE, k - 1);
        assert |Digits(n)| == |Digits(n / BASE)| + 1;
        assert n / BASE < Pow62(k - 1) <==> n < BASE * Pow62(k - 1);
      }
    }
  }

  /** A non-negative int encodes to at most 6 characters, and INT_MAX needs all 6. */
  lemma EncodedIntLength(n: int)
    requires 0 <= n <= JavaLang.INT_MAX
    ensures |EncodeAlphabetBase(n)| <= 6
    ensures n == JavaLang.INT_MAX ==> |EncodeAlphabetBase(n)| == 6
  {
    assert Pow62(6) == 56800235584 by {
      assert Pow62(5) == 916132832 by {
        assert Pow62(3) == 238328;
      }
    }
    if n > 0 {
      DigitsLength(n, 6);
      if n == JavaLang.INT_MAX {
        DigitsLength(n, 5);
      }
    }
  }

  /** The loop of encodeAlphabetBase: append ALPHABET.charAt of the low digit, divide, and reverse at the end. */
  method EncodeLoop(number: int) returns (r: string)
    ensures r == EncodeAlphabetBase(number)
  {
    if number == 0 {
      return "0";
    }
    var sb: string := [];
    var rest := number;
    while rest > 0
      invariant number > 0 ==> 0 <= rest && Digits(number) == Digits(rest) + JavaLang.Reverse(sb)
      invariant number < 0 ==> rest == number && sb == []
    {
      AlphabetAt(rest % BASE);
      var c := ALPHABET[rest % BASE];
      assert JavaLang.Reverse(sb + [c]) == [c] + JavaLang.Reverse(sb);
      sb := sb + [c];
      rest := rest / BASE;
    }
    r := JavaLang.Reverse(sb);
  }
}

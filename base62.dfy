/** Re-expressing the 256-bit SHA-256 value of a long URL in base 62, most
    significant digit first: the digest whose prefixes become short codes. */
module Base62 {

  /** The digit alphabet: position `d` holds the digit of value `d`
      (decimal digits, then lower case, then upper case letters). */
  const Chars: string := "0123456789" + "abcdefghijklmnopqrstuvwxyz" + "ABCDEFGHIJKLMNOPQRSTUVWXYZ"

  const TwoTo256: nat := 0x1_0000_0000_0000_0000_0000_0000_0000_0000_0000_0000_0000_0000_0000_0000_0000_0000

  /** A SHA-256 digest read as an unsigned big integer. */
  type Word256 = v: nat | v < 0x1_0000_0000_0000_0000_0000_0000_0000_0000_0000_0000_0000_0000_0000_0000_0000_0000

  /** A character of the alphabet. */
  predicate IsDigit(c: char) {
    '0' <= c <= '9' || 'a' <= c <= 'z' || 'A' <= c <= 'Z'
  }

  predicate AllDigits(s: string) {
    forall i :: 0 <= i < |s| ==> IsDigit(s[i])
  }

  /** The digit of value `d`, by character arithmetic on the three ranges. */
  function DigitChar(d: nat): (c: char)
    requires d < 62
    ensures IsDigit(c)
  {
    if d < 10 then ('0' as int + d) as char
    else if d < 36 then ('a' as int + d - 10) as char
    else ('A' as int + d - 36) as char
  }

  /** The alphabet string holds at position `d` the digit of value `d`. */
  lemma AlphabetAt(d: nat)
    requires d < 62
    ensures Chars[d] == DigitChar(d)
  {
    if d < 10 {
      assert Chars[d] == "0123456789"[d];
    } else if d < 36 {
      assert Chars[d] == "abcdefghijklmnopqrstuvwxyz"[d - 10];
    } else {
      assert Chars[d] == "ABCDEFGHIJKLMNOPQRSTUVWXYZ"[d - 36];
    }
  }

  /** The value of a digit: its position in the alphabet. */
  function DigitValue(c: char): (d: nat)
    requires IsDigit(c)
    ensures d < 62 && DigitChar(d) == c
  {
    if c <= '9' then c as int - '0' as int
    else if c >= 'a' then c as int - 'a' as int + 10
    else c as int - 'A' as int + 36
  }

  /** Every position of the alphabet string holds a digit whose value is that
      position: the alphabet is a bijection onto 0..61. */
  lemma CharsDecode(d: nat)
    requires d < 62
    ensures IsDigit(Chars[d]) && DigitValue(Chars[d]) == d
  {
    AlphabetAt(d);
  }

  /** Reading back the digit of value `d` gives `d`. */
  lemma DigitCharValue(d: nat)
    requires d < 62
    ensures DigitValue(DigitChar(d)) == d
  {
  }

  /** The digits of `v > 0` without leading zeros; empty for 0. */
  function Digits(v: nat): (s: string)
    decreases v
  {
    if v == 0 then "" else Digits(v / 62) + [DigitChar(v % 62)]
  }

  /** The base-62 text of `v`: its digits, or "0" for zero. */
  function ToBase62(v: nat): (s: string)
  {
    if v == 0 then "0" else Digits(v)
  }

  /** The value of a digit string read most significant digit first. */
  function FromBase62(s: string): (v: nat)
    requires AllDigits(s)
  {
    if s == [] then 0 else FromBase62(s[..|s| - 1]) * 62 + DigitValue(s[|s| - 1])
  }

  /** The digits of a positive value are non-empty alphabet characters with no leading '0'. */
  lemma {:induction false} DigitsWellFormed(v: nat)
    ensures AllDigits(Digits(v))
    ensures v > 0 ==> |Digits(v)| > 0 && Digits(v)[0] != '0'
    decreases v
  {
    if v > 0 {
      DigitsWellFormed(v / 62);
      if v / 62 == 0 {
        assert Digits(v) == [DigitChar(v % 62)];
      }
    }
  }

  /** Decoding the digits of `v` gives `v` back. */
  lemma {:induction false} DigitsRoundTrip(v: nat)
    ensures AllDigits(Digits(v)) && FromBase62(Digits(v)) == v
    decreases v
  {
    DigitsWellFormed(v);
    if v > 0 {
      var s := Digits(v);
      DigitsRoundTrip(v / 62);
      DigitCharValue(v % 62);
      assert s[..|s| - 1] == Digits(v / 62);
    }
  }

  /** The conversion as the digest promises it: "0" for zero, and otherwise a
      non-empty string of alphabet characters, with no leading '0', that
      decodes back to the value. */
  lemma ToBase62Spec(v: nat)
    ensures v == 0 ==> ToBase62(v) == "0"
    ensures |ToBase62(v)| > 0 && AllDigits(ToBase62(v))
    ensures v > 0 ==> ToBase62(v)[0] != '0'
    ensures FromBase62(ToBase62(v)) == v
  {
    DigitsRoundTrip(v);
    DigitsWellFormed(v);
    if v == 0 {
      assert ToBase62(v)[..0] == [];
    }
  }

  /** The other direction: every canonical digit string (no leading '0', or
      "0" itself) is the base-62 text of its value. */
  lemma {:induction false} DigitsOfValue(s: string)
    requires AllDigits(s) && (s == [] || s[0] != '0')
    ensures Digits(FromBase62(s)) == s
    decreases |s|
  {
    if s != [] {
      var p, c := s[..|s| - 1], s[|s| - 1];
      var x, d := FromBase62(p), DigitValue(c);
      assert FromBase62(s) == x * 62 + d;
      if p == [] {
        assert c == s[0];
        assert Digits(x) == p;
      } else {
        assert p[0] == s[0];
        DigitsOfValue(p);
        assert x != 0;
      }
      DigitsStep(x, d);
      assert s == p + [c];
    }
  }

  /** Appending digit `d` to the digits of `x` gives the digits of `x * 62 + d`. */
  lemma DigitsStep(x: nat, d: nat)
    requires d < 62 && x * 62 + d > 0
    ensures Digits(x * 62 + d) == Digits(x) + [DigitChar(d)]
  {
    MulDiv62(x, d);
  }

  lemma ToBase62Canonical(s: string)
    requires AllDigits(s) && |s| > 0 && (s == "0" || s[0] != '0')
    ensures ToBase62(FromBase62(s)) == s
  {
    if s == "0" {
      assert s[..0] == [];
    } else {
      DigitsOfValue(s);
    }
  }

  /** Distinct values have distinct base-62 texts. */
  lemma ToBase62Injective(v: nat, w: nat)
    requires ToBase62(v) == ToBase62(w)
    ensures v == w
  {
    ToBase62Spec(v);
    ToBase62Spec(w);
  }

  lemma MulDiv62(x: nat, d: nat)
    requires d < 62
    ensures (x * 62 + d) / 62 == x && (x * 62 + d) % 62 == d
  {
  }

  function Pow62(k: nat): (p: nat)
    ensures p >= 1
  {
    if k == 0 then 1 else 62 * Pow62(k - 1)
  }

  lemma {:induction false} Pow62Add(a: nat, b: nat)
    ensures Pow62(a + b) == Pow62(a) * Pow62(b)
  {
    if a > 0 {
      Pow62Add(a - 1, b);
      assert Pow62(a + b) == 62 * Pow62(a - 1 + b);
    }
  }

  /** 2^256 lies below 62^43. */
  lemma TwoTo256Below()
    ensures TwoTo256 < Pow62(43)
  {
    assert Pow62(3) == 238328;
    assert Pow62(5) == 916132832;
    Pow62Add(5, 5);
    assert Pow62(10) == 839299365868340224;
    Pow62Add(10, 10);
    assert Pow62(20) == 704423425546998022968330264616370176;
    Pow62Add(20, 20);
    assert Pow62(40) == 496212362459367066914366580195701544604991251555593230875525121862270976;
    Pow62Add(40, 3);
  }

  /** A value below 62^k has at most k digits. */
  lemma {:induction false} DigitsLength(v: nat, k: nat)
    requires v < Pow62(k)
    ensures |Digits(v)| <= k
  {
    if v > 0 {
      DigitsLength(v / 62, k - 1);
    }
  }

  /** A SHA-256 value has a base-62 text of at most 43 characters. */
  lemma DigestLength(v: Word256)
    ensures 1 <= |ToBase62(v)| <= 43
  {
    TwoTo256Below();
    DigitsLength(v, 43);
  }

  /** `sha256ToBase62`: hash the input, then emit base-62 digits least
      significant first, prepending each one, until the value is used up. */
  method Sha256ToBase62(input: string, sha256: string -> Word256) returns (out: string)
    ensures out == ToBase62(sha256(input))
  {
    var value: nat := sha256(input);
    if value == 0 {
      AlphabetAt(0);
      return [Chars[0]];
    }
    ghost var v := value;
    out := "";
    while value > 0
      invariant Digits(value) + out == Digits(v)
      decreases value
    {
      var rem := value % 62;
      AlphabetAt(rem);
      assert Digits(value) == Digits(value / 62) + [Chars[rem]];
      out := [Chars[rem]] + out;
      value := value / 62;
    }
  }
}

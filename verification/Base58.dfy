/** Base conversion of big-endian digit strings, and base58 with the Bitcoin alphabet. */
module Base58 {
  import opened Machine
  import opened Arithmetic

  type Digits = seq<nat>

  predicate InBase(base: nat, s: Digits) {
    forall i :: 0 <= i < |s| ==> s[i] < base
  }

  /** The number a big-endian digit string denotes. */
  function Value(base: nat, s: Digits): nat {
    if s == [] then 0 else Value(base, s[..|s| - 1]) * base + s[|s| - 1]
  }

  /** The digits of `n`, none for zero, so never a leading zero. */
  function ToDigits(base: nat, n: nat): Digits
    requires base >= 2
    decreases n
  {
    if n == 0 then []
    else
      Shrinks(n, base);
      ToDigits(base, n / base) + [n % base]
  }

  lemma Shrinks(n: nat, base: nat)
    requires n > 0 && base >= 2
    ensures 0 <= n / base < n
  {
    QuotientBelow(n, base);
    DivBounds(n, base);
    MulLe(2, base, n / base);
  }

  function Zeros(k: nat): (r: Digits)
    ensures |r| == k && forall i :: 0 <= i < k ==> r[i] == 0
  {
    seq(k, _ => 0)
  }

  function LeadingZeros(s: Digits): (r: nat)
    ensures r <= |s|
  {
    if s == [] || s[0] != 0 then 0 else 1 + LeadingZeros(s[1..])
  }

  /** Re-express a digit string in another base; each leading zero stays a leading zero. */
  function Convert(from: nat, to: nat, s: Digits): Digits
    requires to >= 2
  {
    Zeros(LeadingZeros(s)) + ToDigits(to, Value(from, s))
  }

  lemma ValueSnoc(base: nat, s: Digits, d: nat)
    ensures Value(base, s + [d]) == Value(base, s) * base + d
  {
    assert (s + [d])[..|s|] == s;
  }

  lemma DivMod(n: nat, base: nat)
    requires base >= 2
    ensures n == (n / base) * base + n % base && 0 <= n % base < base
  {
  }

  lemma {:induction false} ToDigitsValue(base: nat, n: nat)
    requires base >= 2
    ensures Value(base, ToDigits(base, n)) == n
    decreases n
  {
    if n > 0 {
      Shrinks(n, base);
      ToDigitsValue(base, n / base);
      ValueSnoc(base, ToDigits(base, n / base), n % base);
      DivMod(n, base);
    }
  }

  lemma {:induction false} ToDigitsShape(base: nat, n: nat)
    requires base >= 2
    ensures InBase(base, ToDigits(base, n))
    ensures n > 0 ==> ToDigits(base, n) != [] && ToDigits(base, n)[0] != 0
    decreases n
  {
    if n > 0 {
      Shrinks(n, base);
      ToDigitsShape(base, n / base);
      DivMod(n, base);
    }
  }

  lemma QuotientOf(v: nat, d: nat, base: nat)
    requires d < base
    ensures (v * base + d) / base == v && (v * base + d) % base == d
  {
    DivIs(v * base + d, base, v);
  }

  /** The value of a string without a leading zero is positive. */
  lemma {:induction false} ValuePositive(base: nat, s: Digits)
    requires base >= 2 && s != [] && s[0] != 0
    ensures Value(base, s) > 0
  {
    if |s| > 1 {
      ValuePositive(base, s[..|s| - 1]);
      MulLe(1, Value(base, s[..|s| - 1]), base);
    }
  }

  lemma {:induction false} ValueDigits(base: nat, s: Digits)
    requires base >= 2 && InBase(base, s) && (s != [] ==> s[0] != 0)
    ensures ToDigits(base, Value(base, s)) == s
  {
    if s != [] {
      var n := |s| - 1;
      ValuePositive(base, s);
      QuotientOf(Value(base, s[..n]), s[n], base);
      ValueDigits(base, s[..n]);
      assert s == s[..n] + [s[n]];
    }
  }

  lemma {:induction false} ZerosValue(base: nat, k: nat, s: Digits)
    ensures Value(base, Zeros(k) + s) == Value(base, s)
  {
    var whole := Zeros(k) + s;
    if s != [] {
      var n := |s| - 1;
      ZerosValue(base, k, s[..n]);
      assert whole[..|whole| - 1] == Zeros(k) + s[..n];
    } else if k > 0 {
      ZerosValue(base, k - 1, []);
      assert whole[..k - 1] == Zeros(k - 1) + [];
    }
  }

  lemma {:induction false} LeadingZerosOf(k: nat, s: Digits)
    requires s != [] ==> s[0] != 0
    ensures LeadingZeros(Zeros(k) + s) == k
  {
    if k == 0 {
      assert Zeros(0) + s == s;
    } else {
      LeadingZerosOf(k - 1, s);
      assert (Zeros(k) + s)[1..] == Zeros(k - 1) + s;
    }
  }

  lemma {:induction false} StripZeros(s: Digits)
    ensures var k := LeadingZeros(s);
            s == Zeros(k) + s[k..] && (s[k..] != [] ==> s[k..][0] != 0)
  {
    if s != [] && s[0] == 0 {
      StripZeros(s[1..]);
      var k := LeadingZeros(s);
      assert s[1..][k - 1..] == s[k..];
      assert s == [0] + (Zeros(k - 1) + s[k..]);
      assert [0] + Zeros(k - 1) == Zeros(k);
    }
  }

  /** Conversion is undone by converting back: a bijection between digit strings of any two bases. */
  lemma ConvertBack(from: nat, to: nat, s: Digits)
    requires from >= 2 && to >= 2 && InBase(from, s)
    ensures InBase(to, Convert(from, to, s))
    ensures Convert(to, from, Convert(from, to, s)) == s
  {
    var k := LeadingZeros(s);
    var v := Value(from, s);
    var digits := ToDigits(to, v);
    StripZeros(s);
    ZerosValue(from, k, s[k..]);
    ToDigitsValue(to, v);
    ToDigitsShape(to, v);
    ZerosValue(to, k, digits);
    if v == 0 {
      assert digits == [];
    }
    LeadingZerosOf(k, digits);
    ValueDigits(from, s[k..]);
  }

  // ----- the alphabet -----

  /** Digit to character, in the order 1-9, A-H, J-N, P-Z, a-k, m-z: no 0, O, I or l. */
  function CharOf(d: nat): char
    requires d < 58
  {
    if d < 9 then '1' + d as char
    else if d < 17 then 'A' + (d - 9) as char
    else if d < 22 then 'J' + (d - 17) as char
    else if d < 33 then 'P' + (d - 22) as char
    else if d < 44 then 'a' + (d - 33) as char
    else 'm' + (d - 44) as char
  }

  function DigitOf(c: char): Option<nat> {
    if '1' <= c <= '9' then Some((c - '1') as nat)
    else if 'A' <= c <= 'H' then Some((c - 'A') as nat + 9)
    else if 'J' <= c <= 'N' then Some((c - 'J') as nat + 17)
    else if 'P' <= c <= 'Z' then Some((c - 'P') as nat + 22)
    else if 'a' <= c <= 'k' then Some((c - 'a') as nat + 33)
    else if 'm' <= c <= 'z' then Some((c - 'm') as nat + 44)
    else None
  }

  lemma DigitChar(d: nat)
    requires d < 58
    ensures DigitOf(CharOf(d)) == Some(d)
  {
  }

  lemma CharDigit(c: char)
    requires DigitOf(c).Some?
    ensures DigitOf(c).value < 58 && CharOf(DigitOf(c).value) == c
  {
  }

  // ----- base58 strings -----

  function ToChars(s: Digits): string
    requires InBase(58, s)
  {
    seq(|s|, i requires 0 <= i < |s| => CharOf(s[i]))
  }

  predicate InAlphabet(s: string) {
    forall i :: 0 <= i < |s| ==> DigitOf(s[i]).Some?
  }

  function FromChars(s: string): (r: Digits)
    requires InAlphabet(s)
    ensures |r| == |s| && InBase(58, r)
  {
    forall i | 0 <= i < |s| ensures DigitOf(s[i]).value < 58 {
      CharDigit(s[i]);
    }
    seq(|s|, i requires 0 <= i < |s| => DigitOf(s[i]).value)
  }

  lemma CharsRoundTrip(s: Digits)
    requires InBase(58, s)
    ensures InAlphabet(ToChars(s)) && FromChars(ToChars(s)) == s
  {
    forall i | 0 <= i < |s| ensures DigitOf(ToChars(s)[i]) == Some(s[i]) {
      DigitChar(s[i]);
    }
  }

  lemma DigitsRoundTrip(s: string)
    requires InAlphabet(s)
    ensures ToChars(FromChars(s)) == s
  {
    forall i | 0 <= i < |s| ensures CharOf(FromChars(s)[i]) == s[i] {
      CharDigit(s[i]);
    }
  }

  /** `bs58::encode(bytes).into_string()`. */
  function Encode(bytes: seq<U8>): string {
    ConvertBack(256, 58, bytes);
    ToChars(Convert(256, 58, bytes))
  }

  /** `bs58::decode(s).into_vec()`; `None` is a character outside the alphabet. */
  function Decode(s: string): Option<seq<U8>> {
    if InAlphabet(s) then
      ConvertBack(58, 256, FromChars(s));
      Some(Convert(58, 256, FromChars(s)))
    else None
  }

  /** Decoding inverts encoding on every byte string. */
  lemma DecodeEncode(bytes: seq<U8>)
    ensures Decode(Encode(bytes)) == Some(bytes)
  {
    ConvertBack(256, 58, bytes);
    CharsRoundTrip(Convert(256, 58, bytes));
  }

  /** And encoding inverts decoding on every string that decodes: base58 is canonical. */
  lemma EncodeDecode(s: string)
    requires Decode(s).Some?
    ensures Encode(Decode(s).value) == s
  {
    ConvertBack(58, 256, FromChars(s));
    DigitsRoundTrip(s);
  }

  /** A non-empty byte string encodes to a non-empty string over the alphabet. */
  lemma EncodeShape(bytes: seq<U8>)
    ensures InAlphabet(Encode(bytes))
    ensures bytes != [] ==> Encode(bytes) != []
  {
    DecodeEncode(bytes);
    ConvertBack(256, 58, bytes);
    CharsRoundTrip(Convert(256, 58, bytes));
  }
}

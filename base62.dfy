/** Model of utils.py: the BASE62 alphabet and the positional base-62
    encoder that turns an allocation counter into a short token. */
module Base62 {

  /** The 62 symbols, in digit order: decimal digits, then lower case, then
      upper case. Same value as the single literal in utils.py, written in
      three pieces so that the verifier can index it symbolically. */
  const Alphabet: string := "0123456789" + "abcdefghijklmnopqrstuvwxyz" + "ABCDEFGHIJKLMNOPQRSTUVWXYZ"


  /** A character of the alphabet, described by its ranges. */
  predicate IsDigit(c: char) {
    '0' <= c <= '9' || 'a' <= c <= 'z' || 'A' <= c <= 'Z'
  }

  /** The digit value of an alphabet character: its index in Alphabet. */
  function DigitValue(c: char): nat
    requires IsDigit(c)
  {
    if c <= '9' then c as int - '0' as int
    else if 'a' <= c then c as int - 'a' as int + 10
    else c as int - 'A' as int + 36
  }

  /** The symbol of digit value d, by arithmetic on character codes. */
  function Symbol(d: nat): char
    requires d < 62
  {
    if d < 10 then ('0' as int + d) as char
    else if d < 36 then ('a' as int + d - 10) as char
    else ('A' as int + d - 36) as char
  }

  lemma SymbolAt(d: nat)
    requires d < 62
    ensures Alphabet[d] == Symbol(d)
  {
    if d < 10 {
      var digits := "0123456789";
      assert Alphabet[d] == digits[d];
    } else if d < 36 {
      var lower := "abcdefghijklmnopqrstuvwxyz";
      assert Alphabet[d] == lower[d - 10];
    } else {
      var upper := "ABCDEFGHIJKLMNOPQRSTUVWXYZ";
      assert Alphabet[d] == upper[d - 36];
    }
  }

  lemma SymbolValue(d: nat)
    requires d < 62
    ensures IsDigit(Symbol(d)) && DigitValue(Symbol(d)) == d
  {
  }

  lemma DigitSymbol(c: char)
    requires IsDigit(c)
    ensures DigitValue(c) < 62 && Symbol(DigitValue(c)) == c
  {
  }

  /** IsDigit is exactly membership in the alphabet. */
  lemma AlphabetMembers(c: char)
    ensures c in Alphabet <==> IsDigit(c)
  {
    if c in Alphabet {
      var i :| 0 <= i < |Alphabet| && Alphabet[i] == c;
      SymbolAt(i);
      SymbolValue(i);
    } else if IsDigit(c) {
      DigitSymbol(c);
      SymbolAt(DigitValue(c));
    }
  }

  /** A string over the alphabet. */
  predicate IsToken(s: string) {
    forall i :: 0 <= i < |s| ==> IsDigit(s[i])
  }

  /** The shape every encoder output has: non-empty, over the alphabet,
      and without a leading '0' unless it is the single digit "0". */
  predicate IsCanonical(s: string) {
    |s| > 0 && IsToken(s) && (|s| > 1 ==> s[0] != '0')
  }

  function Pow(b: nat, k: nat): nat {
    if k == 0 then 1 else b * Pow(b, k - 1)
  }

  /** Positional reading of a token, most significant digit first. */
  function Decode(s: string): nat
    requires IsToken(s)
  {
    if s == [] then 0 else Decode(s[..|s| - 1]) * 62 + DigitValue(s[|s| - 1])
  }

  /** Reference definition of the standard base-62 representation: the
      quotient's representation followed by the symbol of the remainder
      (Symbol(d) is Alphabet[d], by SymbolAt). */
  function ToBase62(n: nat): string
    decreases n
  {
    (if n < 62 then [] else ToBase62(n / 62)) + [Symbol(n % 62)]
  }

  /** base62_encoder: the `while number:` loop that prepends the symbol of
      `number % 62` and divides by 62, with the special case for zero. */
  method Encode(number: nat) returns (token: string)
    ensures token == ToBase62(number)
    ensures IsToken(token) && Decode(token) == number
  {
    if number == 0 {
      return "0";
    }
    token := "";
    var n: nat := number;
    while n != 0
      invariant IsToken(token)
      invariant number == n * Pow(62, |token|) + Decode(token)
      invariant n > 0 ==> ToBase62(number) == ToBase62(n) + token
      invariant n == 0 ==> ToBase62(number) == token
      decreases n
    {
      Split(n);
      StepValue(n, token);
      StepShape(n);
      var rem := n % 62;
      SymbolAt(rem);
      if n / 62 > 0 {
        Associative(ToBase62(n / 62), [Symbol(rem)], token);
      }
      n := n / 62;
      token := [Alphabet[rem]] + token;
    }
  }

  /** The value part: the quotient moves up one weight, the digit is prepended. */
  lemma StepValue(n: nat, token: string)
    requires IsToken(token)
    ensures n % 62 < 62
    ensures IsToken([Symbol(n % 62)] + token)
    ensures n * Pow(62, |token|) + Decode(token)
         == (n / 62) * Pow(62, |token| + 1) + Decode([Symbol(n % 62)] + token)
  {
    Split(n);
    SymbolValue(n % 62);
    PrependValue(n, token, Symbol(n % 62));
  }

  lemma PrependValue(n: nat, token: string, c: char)
    requires IsToken(token) && IsDigit(c) && DigitValue(c) == n % 62
    ensures IsToken([c] + token)
    ensures n * Pow(62, |token|) + Decode(token)
         == (n / 62) * Pow(62, |token| + 1) + Decode([c] + token)
  {
    DecodePrepend(c, token);
    var w := Pow(62, |token|);
    assert Pow(62, |token| + 1) == 62 * w;
    ScaleStep(n, w);
  }

  /** The shape part: the representation of n is that of n / 62 and one more symbol. */
  lemma StepShape(n: nat)
    ensures n / 62 == 0 ==> ToBase62(n) == [Symbol(n % 62)]
    ensures n / 62 > 0 ==> ToBase62(n) == ToBase62(n / 62) + [Symbol(n % 62)]
  {
    Split(n);
  }

  lemma Split(n: nat)
    ensures n == (n / 62) * 62 + n % 62 && n % 62 < 62
    ensures n / 62 == 0 <==> n < 62
  {
  }

  /** A string is its prefix followed by its last symbol. */
  lemma LastSplit(p: string, c: char)
    ensures (p + [c])[..|p|] == p && (p + [c])[|p|] == c && |p + [c]| == |p| + 1
  {
  }

  lemma Associative(a: string, b: string, c: string)
    ensures (a + b) + c == a + (b + c)
  {
  }

  /** Appending digit d to the representation of q represents q * 62 + d. */
  lemma AppendDigit(q: nat, d: nat)
    requires d < 62
    ensures q == 0 ==> ToBase62(q * 62 + d) == [Symbol(d)]
    ensures q > 0 ==> ToBase62(q * 62 + d) == ToBase62(q) + [Symbol(d)]
  {
    DivMod(q, d);
    StepShape(q * 62 + d);
  }

  /** Division and remainder by 62 recover quotient and digit. */
  lemma DivMod(q: nat, r: nat)
    requires r < 62
    ensures (q * 62 + r) / 62 == q && (q * 62 + r) % 62 == r
    ensures q * 62 + r >= 62 <==> q > 0
  {
  }

  lemma ScaleStep(n: nat, w: nat)
    ensures n * w == (n / 62) * (62 * w) + (n % 62) * w
  {
    Split(n);
  }

  /** Prepending a digit adds its value at the weight of the current length. */
  lemma {:induction false} DecodePrepend(c: char, t: string)
    requires IsDigit(c) && IsToken(t)
    ensures IsToken([c] + t)
    ensures Decode([c] + t) == DigitValue(c) * Pow(62, |t|) + Decode(t)
  {
    var s := [c] + t;
    assert IsToken(s) by {
      forall i | 0 <= i < |s| ensures IsDigit(s[i]) {
        if i > 0 { assert s[i] == t[i - 1]; }
      }
    }
    if t != [] {
      var p := t[..|t| - 1];
      var e := DigitValue(t[|t| - 1]);
      assert s[..|s| - 1] == [c] + p;
      assert s[|s| - 1] == t[|t| - 1];
      assert IsToken(p);
      DecodePrepend(c, p);
      var a: int, w: int, dp: int := DigitValue(c), Pow(62, |p|), Decode(p);
      assert Decode(s) == (a * w + dp) * 62 + e;
      assert Pow(62, |t|) == 62 * w;
      assert Decode(t) == dp * 62 + e;
      ShiftDigit(a, w, dp, e);
    }
  }

  lemma ShiftDigit(a: int, w: int, d: int, e: int)
    ensures (a * w + d) * 62 + e == a * (62 * w) + (d * 62 + e)
  {
  }

  /** Every output is canonical: over the alphabet, non-empty, and with no
      leading zero digit when the input is positive. */
  lemma {:induction false} EncodingCanonical(n: nat)
    ensures IsCanonical(ToBase62(n))
    ensures n > 0 ==> ToBase62(n)[0] != '0'
    decreases n
  {
    StepShape(n);
    Split(n);
    SymbolValue(n % 62);
    if n >= 62 {
      EncodingCanonical(n / 62);
      assert ToBase62(n)[0] == ToBase62(n / 62)[0];
    } else {
      assert ToBase62(n)[0] == Symbol(n);
    }
  }

  /** Every symbol of an output is a member of the alphabet. */
  lemma EncodingInAlphabet(n: nat)
    ensures forall i :: 0 <= i < |ToBase62(n)| ==> ToBase62(n)[i] in Alphabet
  {
    var s := ToBase62(n);
    EncodingCanonical(n);
    forall i | 0 <= i < |s| ensures s[i] in Alphabet {
      AlphabetMembers(s[i]);
    }
  }

  /** Round trip: reading the output positionally gives back the input. */
  lemma {:induction false} DecodeEncoding(n: nat)
    ensures IsToken(ToBase62(n)) && Decode(ToBase62(n)) == n
    decreases n
  {
    EncodingCanonical(n);
    StepShape(n);
    Split(n);
    SymbolValue(n % 62);
    if n < 62 {
      LastSplit([], Symbol(n % 62));
    } else {
      DecodeEncoding(n / 62);
      LastSplit(ToBase62(n / 62), Symbol(n % 62));
    }
  }

  /** Zero, and only zero, is encoded as "0". */
  lemma EncodingZero(n: nat)
    ensures ToBase62(n) == "0" <==> n == 0
  {
    StepShape(0);
    assert Symbol(0) == '0';
    if ToBase62(n) == "0" {
      DecodeEncoding(n);
      DecodeLast("0");
      assert "0"[..0] == [];
    }
  }

  /** Distinct inputs give distinct tokens. */
  lemma EncodingInjective(a: nat, b: nat)
    ensures ToBase62(a) == ToBase62(b) ==> a == b
  {
    DecodeEncoding(a);
    DecodeEncoding(b);
  }

  /** A canonical token of length k > 1 does not start with the zero digit,
      so its value is at least 62^(k-1). */
  lemma {:induction false} CanonicalLowerBound(s: string)
    requires IsCanonical(s) && s[0] != '0'
    ensures Decode(s) >= Pow(62, |s| - 1) && Decode(s) > 0
    decreases |s|
  {
    if |s| > 1 {
      var p := s[..|s| - 1];
      assert p[0] == s[0];
      assert IsCanonical(p);
      CanonicalLowerBound(p);
    }
  }

  /** Uniqueness: the encoder's output is the only canonical token with its
      value, so encoding is exactly the canonical base-62 representation. */
  lemma {:induction false} CanonicalIsEncoding(s: string)
    requires IsCanonical(s)
    ensures ToBase62(Decode(s)) == s
    decreases |s|
  {
    var p, c := s[..|s| - 1], s[|s| - 1];
    DecodeLast(s);
    if |s| > 1 {
      PrefixCanonical(s);
      CanonicalIsEncoding(p);
    }
    ExtendEncoding(p, c);
  }

  /** Decoding splits off the last symbol. */
  lemma DecodeLast(s: string)
    requires IsToken(s) && |s| > 0
    ensures IsToken(s[..|s| - 1]) && IsDigit(s[|s| - 1])
    ensures Decode(s) == Decode(s[..|s| - 1]) * 62 + DigitValue(s[|s| - 1])
    ensures s == s[..|s| - 1] + [s[|s| - 1]]
  {
    var p, c := s[..|s| - 1], s[|s| - 1];
    forall i | 0 <= i < |p| ensures IsDigit(p[i]) {
      assert p[i] == s[i];
    }
    assert IsToken(p);
    assert Decode(s) == Decode(p) * 62 + DigitValue(c);
    assert s == p + [c];
  }

  /** Dropping the last symbol of a canonical token of length > 1 leaves a
      canonical token with no leading zero, hence a positive value. */
  lemma PrefixCanonical(s: string)
    requires IsCanonical(s) && |s| > 1
    ensures IsCanonical(s[..|s| - 1]) && Decode(s[..|s| - 1]) > 0
  {
    var p := s[..|s| - 1];
    assert p[0] == s[0];
    assert IsCanonical(p);
    CanonicalLowerBound(p);
  }

  /** Appending a symbol to an encoding gives the encoding of the extended value. */
  lemma ExtendEncoding(p: string, c: char)
    requires IsDigit(c) && IsToken(p)
    requires p == [] || (Decode(p) > 0 && ToBase62(Decode(p)) == p)
    ensures ToBase62(Decode(p) * 62 + DigitValue(c)) == p + [c]
  {
    var q, d := Decode(p), DigitValue(c);
    DigitSymbol(c);
    AppendDigit(q, d);
    assert Symbol(d) == c;
    if p == [] {
      assert q == 0;
    } else {
      assert ToBase62(q) == p;
    }
  }

  /** Length bound: a k-symbol output for n > 0 means 62^(k-1) <= n < 62^k. */
  lemma {:induction false} EncodingLength(n: nat)
    requires n > 0
    ensures Pow(62, |ToBase62(n)| - 1) <= n < Pow(62, |ToBase62(n)|)
    decreases n
  {
    if n >= 62 {
      var q := n / 62;
      EncodingLength(q);
      var k := |ToBase62(q)|;
      assert |ToBase62(n)| == k + 1;
      assert n == q * 62 + n % 62;
      assert Pow(62, k) == 62 * Pow(62, k - 1);
      assert q + 1 <= Pow(62, k);
      assert n < (q + 1) * 62;
    }
  }
}

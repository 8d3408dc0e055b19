/**
 The transform engine of routes/cipher.js: `cifrarCesar` rotates every
 character of a text inside its own cyclic alphabet (a-z and A-Z of size 26,
 0-9 of size 10) and leaves every other character alone; `decifrarCesar` is the
 same rotation with the shift negated.
 */
module Caesar {

  /** Sizes of the two kinds of alphabet. */
  const Letters: int := 26
  const Digits: int := 10

  predicate IsLower(c: char) { 'a' <= c <= 'z' }
  predicate IsUpper(c: char) { 'A' <= c <= 'Z' }
  predicate IsDigit(c: char) { '0' <= c <= '9' }
  predicate IsAlnum(c: char) { IsLower(c) || IsUpper(c) || IsDigit(c) }

  /** The text holds only letters of the two alphabets: shifts repeat every 26. */
  predicate LettersOnly(text: string) { forall i :: 0 <= i < |text| ==> IsLower(text[i]) || IsUpper(text[i]) }

  /** The text holds only decimal digits: shifts repeat every 10. */
  predicate DigitsOnly(text: string) { forall i :: 0 <= i < |text| ==> IsDigit(text[i]) }

  /**
   JavaScript's `a % n`: the remainder of the division truncated toward zero,
   which takes the sign of `a` (unlike Dafny's `%`, which is never negative).
   The contract pins it down: strictly smaller than `n` in magnitude, of the
   sign of `a`, and congruent to `a` modulo `n`.
   */
  function JsRem(a: int, n: int): (r: int)
    requires n > 0
    ensures -n < r < n
    ensures a >= 0 ==> r >= 0
    ensures a <= 0 ==> r <= 0
    ensures (a - r) % n == 0
  {
    if a >= 0 then
      DivModUnique(a - a % n, a / n, 0, n);
      a % n
    else
      var q := (-a) / n;
      assert -a == q * n + (-a) % n;
      DivModUnique(a + (-a) % n, -q, 0, n);
      -((-a) % n)
  }

  /**
   The double modulo `((p + shift) % n + n) % n` of cipher.js:15,18,21, with
   JavaScript's truncating `%`. Whatever the sign or size of `shift`, the new
   position lies in the alphabet and is `p + shift` reduced modulo `n`.
   */
  function Rotate(p: int, shift: int, n: int): (r: int)
    requires n > 0
    ensures 0 <= r < n
    ensures r == (p + shift) % n
  {
    var inner := JsRem(p + shift, n);
    var r := JsRem(inner + n, n);
    MultipleShift(inner + n - r, 1, n);
    MultipleSum(p + shift - inner, inner - r, n);
    CongruentIsEqualMod(r, p + shift, n);
    r
  }

  /** Two numbers whose difference is a multiple of `n` leave the same remainder. */
  lemma CongruentIsEqualMod(r: int, x: int, n: int)
    requires n > 0 && 0 <= r < n
    requires (x - r) % n == 0
    ensures r == x % n
  {
    var k := (x - r) / n;
    assert x - r == k * n;
    assert x == k * n + r;
    DivModUnique(x, k, r, n);
  }

  /** Division by `n` has one quotient and one remainder in `[0, n)`. */
  lemma DivModUnique(x: int, k: int, r: int, n: int)
    requires n > 0 && 0 <= r < n && x == k * n + r
    ensures x % n == r
  {
    var q, m := x / n, x % n;
    assert x == q * n + m;
    assert (k - q) * n == m - r;
    if k > q {
      MulAtLeast(k - q, n);
    } else if k < q {
      MulAtLeast(q - k, n);
    }
  }

  lemma {:induction false} MulAtLeast(d: int, n: int)
    requires d >= 1 && n > 0
    ensures d * n >= n
  {
    if d > 1 {
      MulAtLeast(d - 1, n);
      assert d * n == (d - 1) * n + n;
    }
  }

  /**
   One character of `cifrarCesar`: lower-case letters rotate in a-z,
   upper-case letters in A-Z, digits in 0-9, anything else is returned as is.
   */
  function ShiftChar(c: char, shift: int): (r: char)
    ensures IsLower(r) <==> IsLower(c)
    ensures IsUpper(r) <==> IsUpper(c)
    ensures IsDigit(r) <==> IsDigit(c)
    ensures !IsAlnum(c) ==> r == c
  {
    if IsLower(c) then (Rotate(c as int - 'a' as int, shift, Letters) + 'a' as int) as char
    else if IsUpper(c) then (Rotate(c as int - 'A' as int, shift, Letters) + 'A' as int) as char
    else if IsDigit(c) then (Rotate(c as int - '0' as int, shift, Digits) + '0' as int) as char
    else c
  }

  /**
   `cifrarCesar(texto, shift)`: the text split into characters, each one
   shifted, joined again; the result is as long as the text and its i-th
   character is the i-th character of the text, shifted.
   */
  function Encipher(text: string, shift: int): (r: string)
    ensures |r| == |text|
    ensures forall i :: 0 <= i < |text| ==> r[i] == ShiftChar(text[i], shift)
  {
    if text == [] then []
    else [ShiftChar(text[0], shift)] + Encipher(text[1..], shift)
  }

  /**
   `decifrarCesar(texto, shift)`, which cipher.js defines as
   `cifrarCesar(texto, -shift)`; it undoes `Encipher` with the same shift.
   */
  function Decipher(text: string, shift: int): (r: string)
    ensures Encipher(r, shift) == text
  {
    EncipherCompose(text, -shift, shift);
    EncipherZero(text);
    Encipher(text, -shift)
  }

  /** Two rotations of one character add up: the shifts form a cyclic group. */
  lemma ShiftCharCompose(c: char, a: int, b: int)
    ensures ShiftChar(ShiftChar(c, a), b) == ShiftChar(c, a + b)
  {
    if IsLower(c) {
      RotateCompose(c as int - 'a' as int, a, b, Letters);
    } else if IsUpper(c) {
      RotateCompose(c as int - 'A' as int, a, b, Letters);
    } else if IsDigit(c) {
      RotateCompose(c as int - '0' as int, a, b, Digits);
    }
  }

  lemma RotateCompose(p: int, a: int, b: int, n: int)
    requires n > 0
    ensures Rotate(Rotate(p, a, n), b, n) == Rotate(p, a + b, n)
  {
    var x, r := Rotate(p, a, n), Rotate(p, a + b, n);
    RemainderCongruent(p + a, n);
    RemainderCongruent(p + a + b, n);
    MultipleDiff(p + a + b - r, p + a - x, n);
    assert (p + a + b - r) - (p + a - x) == x + b - r;
    CongruentIsEqualMod(r, x + b, n);
  }

  /** A number and its remainder differ by a multiple of `n`. */
  lemma RemainderCongruent(y: int, n: int)
    requires n > 0
    ensures (y - y % n) % n == 0
  {
    DivModUnique(y - y % n, y / n, 0, n);
  }

  /** Subtracting a multiple of `n` keeps a multiple of `n` a multiple of `n`. */
  lemma MultipleShift(y: int, q: int, n: int)
    requires n > 0 && y % n == 0
    ensures (y - q * n) % n == 0
  {
    var k := y / n;
    assert y == k * n;
    assert y - q * n == (k - q) * n;
    DivModUnique(y - q * n, k - q, 0, n);
  }

  /** The sum of two multiples of `n` is a multiple of `n`. */
  lemma MultipleSum(x: int, y: int, n: int)
    requires n > 0 && x % n == 0 && y % n == 0
    ensures (x + y) % n == 0
  {
    var i, j := x / n, y / n;
    assert x == i * n && y == j * n;
    assert x + y == (i + j) * n;
    DivModUnique(x + y, i + j, 0, n);
  }

  /** The difference of two multiples of `n` is a multiple of `n`. */
  lemma MultipleDiff(x: int, y: int, n: int)
    requires n > 0 && x % n == 0 && y % n == 0
    ensures (x - y) % n == 0
  {
    var i, j := x / n, y / n;
    assert x == i * n && y == j * n;
    assert x - y == (i - j) * n;
    DivModUnique(x - y, i - j, 0, n);
  }

  /** Shifting a whole text twice is shifting it once by the sum of the shifts. */
  lemma {:induction false} EncipherCompose(text: string, a: int, b: int)
    ensures Encipher(Encipher(text, a), b) == Encipher(text, a + b)
  {
    var lhs, rhs := Encipher(Encipher(text, a), b), Encipher(text, a + b);
    forall i | 0 <= i < |text|
      ensures lhs[i] == rhs[i]
    {
      ShiftCharCompose(text[i], a, b);
    }
  }

  /** A shift of 0 leaves every character, and so the text, as it is. */
  lemma {:induction false} EncipherZero(text: string)
    ensures Encipher(text, 0) == text
  {
    forall i | 0 <= i < |text|
      ensures Encipher(text, 0)[i] == text[i]
    {
      ShiftCharZero(text[i]);
    }
  }

  lemma ShiftCharZero(c: char)
    ensures ShiftChar(c, 0) == c
  {
    if IsLower(c) {
      RotateZero(c as int - 'a' as int, Letters);
    } else if IsUpper(c) {
      RotateZero(c as int - 'A' as int, Letters);
    } else if IsDigit(c) {
      RotateZero(c as int - '0' as int, Digits);
    }
  }

  lemma RotateZero(p: int, n: int)
    requires 0 <= p < n
    ensures Rotate(p, 0, n) == p
  {
    DivModUnique(p, 0, p, n);
  }

  /** Round trip of the service: deciphering what was enciphered with the same shift gives the text back. */
  lemma {:induction false} DecipherEncipher(text: string, shift: int)
    ensures Decipher(Encipher(text, shift), shift) == text
  {
    EncipherCompose(text, shift, -shift);
    EncipherZero(text);
  }

  /** A shift by a whole turn of the alphabet changes nothing. */
  lemma RotatePeriod(p: int, shift: int, n: int, k: int)
    requires n > 0
    ensures Rotate(p, shift + k * n, n) == Rotate(p, shift, n)
  {
    var r := Rotate(p, shift, n);
    var q := (p + shift) / n;
    assert p + shift == q * n + r;
    assert p + shift + k * n == (q + k) * n + r;
    DivModUnique(p + shift + k * n, q + k, r, n);
  }

  /** A letter comes back to itself after a whole turn of 26, a digit after a whole turn of 10. */
  lemma ShiftCharPeriod(c: char, shift: int, k: int)
    ensures (IsLower(c) || IsUpper(c)) ==> ShiftChar(c, shift + k * Letters) == ShiftChar(c, shift)
    ensures IsDigit(c) ==> ShiftChar(c, shift + k * Digits) == ShiftChar(c, shift)
  {
    if IsLower(c) {
      LowerPeriod(c, shift, shift + k * Letters, k);
    } else if IsUpper(c) {
      UpperPeriod(c, shift, shift + k * Letters, k);
    } else if IsDigit(c) {
      DigitCharPeriod(c, shift, shift + k * Digits, k);
    }
  }

  lemma LowerPeriod(c: char, shift: int, s: int, k: int)
    requires IsLower(c) && s == shift + k * Letters
    ensures ShiftChar(c, s) == ShiftChar(c, shift)
  {
    RotatePeriod(c as int - 'a' as int, shift, Letters, k);
  }

  lemma UpperPeriod(c: char, shift: int, s: int, k: int)
    requires IsUpper(c) && s == shift + k * Letters
    ensures ShiftChar(c, s) == ShiftChar(c, shift)
  {
    RotatePeriod(c as int - 'A' as int, shift, Letters, k);
  }

  lemma DigitCharPeriod(c: char, shift: int, s: int, k: int)
    requires IsDigit(c) && s == shift + k * Digits
    ensures ShiftChar(c, s) == ShiftChar(c, shift)
  {
    RotatePeriod(c as int - '0' as int, shift, Digits, k);
  }

  /** On a text of letters only, shifts `s` and `s + 26` agree. */
  lemma {:induction false} LetterPeriod(text: string, shift: int)
    requires LettersOnly(text)
    ensures Encipher(text, shift + Letters) == Encipher(text, shift)
  {
    forall i | 0 <= i < |text|
      ensures Encipher(text, shift + Letters)[i] == Encipher(text, shift)[i]
    {
      ShiftCharPeriod(text[i], shift, 1);
    }
  }

  /** On a text of digits only, shifts `s` and `s + 10` agree. */
  lemma {:induction false} DigitPeriod(text: string, shift: int)
    requires DigitsOnly(text)
    ensures Encipher(text, shift + Digits) == Encipher(text, shift)
  {
    forall i | 0 <= i < |text|
      ensures Encipher(text, shift + Digits)[i] == Encipher(text, shift)[i]
    {
      ShiftCharPeriod(text[i], shift, 1);
    }
  }

  /** On any text, shifts `s` and `s + 130` (26 and 10 both divide 130) agree. */
  lemma {:induction false} CommonPeriod(text: string, shift: int)
    ensures Encipher(text, shift + Letters * Digits) == Encipher(text, shift)
  {
    forall i | 0 <= i < |text|
      ensures Encipher(text, shift + Letters * Digits)[i] == Encipher(text, shift)[i]
    {
      ShiftCharPeriod(text[i], shift, Digits);
      ShiftCharPeriod(text[i], shift, Letters);
    }
  }

  /** Upper-case letters wrap from Z back to A. */
  lemma UpperWrapExample()
    ensures Encipher("XYZ", 3) == "ABC"
  {
    var r := Encipher("XYZ", 3);
    assert r[0] == 'A' && r[1] == 'B' && r[2] == 'C';
  }

  /** Digits wrap from 9 back to 0. */
  lemma DigitWrapExample()
    ensures Encipher("789", 5) == "234"
  {
    var r := Encipher("789", 5);
    assert r[0] == '2' && r[1] == '3' && r[2] == '4';
  }

  /** Each character is shifted on its own, so enciphering distributes over concatenation. */
  lemma {:induction false} EncipherConcat(x: string, y: string, shift: int)
    ensures Encipher(x + y, shift) == Encipher(x, shift) + Encipher(y, shift)
  {
    var lhs, rhs := Encipher(x + y, shift), Encipher(x, shift) + Encipher(y, shift);
    forall i | 0 <= i < |x + y|
      ensures lhs[i] == rhs[i]
    {
      if i < |x| {
        assert (x + y)[i] == x[i];
      } else {
        assert (x + y)[i] == y[i - |x|];
      }
    }
  }

  /** A mixed text of letters and digits, enciphered piece by piece. */
  lemma MixedExample()
    ensures Encipher("hello123", 3) == "khoor456"
  {
    MixedSplits();
    MixedPieces();
  }

  lemma MixedSplits()
    ensures "hello123" == "hello" + "123" && "khoor456" == "khoor" + "456"
  {
  }

  lemma MixedPieces()
    ensures Encipher("hello" + "123", 3) == "khoor" + "456"
  {
    EncipherConcat("hello", "123", 3);
    LettersExample();
    DigitsExample();
  }

  lemma LettersExample()
    ensures Encipher("hello", 3) == "khoor"
  {
    var r := Encipher("hello", 3);
    assert r[0] == 'k' && r[1] == 'h' && r[2] == 'o';
    assert r[3] == 'o' && r[4] == 'r';
  }

  lemma DigitsExample()
    ensures Encipher("123", 3) == "456"
  {
    var r := Encipher("123", 3);
    assert r[0] == '4' && r[1] == '5' && r[2] == '6';
  }

  /** ... and its way back with the same shift. */
  lemma MixedExampleBack()
    ensures Decipher("khoor456", 3) == "hello123"
  {
    MixedExample();
    DecipherEncipher("hello123", 3);
  }

  /** A negative shift wraps from a back to z. */
  lemma NegativeShiftExample()
    ensures Encipher("abc", -1) == "zab"
  {
    assert ShiftChar('a', -1) == (Rotate(0, -1, Letters) + 'a' as int) as char == 'z';
    assert ShiftChar('b', -1) == (Rotate(1, -1, Letters) + 'a' as int) as char == 'a';
    assert ShiftChar('c', -1) == (Rotate(2, -1, Letters) + 'a' as int) as char == 'b';
    var r := Encipher("abc", -1);
    assert r[0] == 'z' && r[1] == 'a' && r[2] == 'b';
  }

}

/** src/ascii.py: a string packed into one integer, little-endian in base
    256 (the first character is the lowest digit), and the inverse that
    unpacks an integer digit by digit. */
module Ascii {
  import opened NumberTheory

  /** the code point of a character (Python's ord) */
  function Code(c: char): nat
  {
    c as int
  }

  /** the integer text_to_int computes: the sum of Code(s[i]) * 256^i,
      written in Horner form (ValueAppend gives the term of each position) */
  function Value(s: string): (r: nat)
    ensures |s| == 0 ==> r == 0
  {
    if |s| == 0 then 0 else Code(s[0]) + 256 * Value(s[1..])
  }

  /** appending a character adds its code times 256^|s| */
  lemma {:induction false} ValueAppend(s: string, c: char)
    ensures Value(s + [c]) == Value(s) + Code(c) * Pow(256, |s|)
  {
    if |s| > 0 {
      assert (s + [c])[1..] == s[1..] + [c];
      ValueAppend(s[1..], c);
      assert Pow(256, |s|) == 256 * Pow(256, |s| - 1);
      assert 256 * (Code(c) * Pow(256, |s| - 1)) == Code(c) * Pow(256, |s|);
    } else {
      assert s + [c] == [c];
    }
  }

  /** every code is a byte */
  predicate Bytes(s: string)
  {
    forall i :: 0 <= i < |s| ==> Code(s[i]) < 256
  }

  /** the strings intToText can produce: bytes only, and no trailing NUL */
  predicate Canonical(s: string)
  {
    Bytes(s) && (|s| > 0 ==> Code(s[|s| - 1]) != 0)
  }

  /** a string of bytes encodes below 256^|s| */
  lemma {:induction false} ValueBound(s: string)
    requires Bytes(s)
    ensures Value(s) < Pow(256, |s|)
  {
    if |s| > 0 {
      assert Bytes(s[1..]);
      ValueBound(s[1..]);
      assert Value(s[1..]) + 1 <= Pow(256, |s| - 1);
      assert 256 * (Value(s[1..]) + 1) <= 256 * Pow(256, |s| - 1);
    }
  }

  /** a trailing NUL adds nothing to the encoding, so it cannot be recovered */
  lemma TrailingNulLost(s: string)
    ensures Value(s + ['\0']) == Value(s)
  {
    ValueAppend(s, '\0');
  }

  /** a nonempty canonical string encodes to a positive number */
  lemma {:induction false} CanonicalPositive(s: string)
    requires Canonical(s) && |s| > 0
    ensures Value(s) > 0
  {
    if |s| > 1 {
      assert Canonical(s[1..]);
      CanonicalPositive(s[1..]);
    }
  }

  /** two canonical strings with the same encoding are equal */
  lemma {:induction false} CanonicalUnique(s: string, t: string)
    requires Canonical(s) && Canonical(t) && Value(s) == Value(t)
    ensures s == t
  {
    if |s| == 0 || |t| == 0 {
      if |s| > 0 { CanonicalPositive(s); }
      if |t| > 0 { CanonicalPositive(t); }
    } else {
      DivModUnique(Value(s), 256, Value(s[1..]), Code(s[0]));
      DivModUnique(Value(t), 256, Value(t[1..]), Code(t[0]));
      assert Canonical(s[1..]) && Canonical(t[1..]);
      CanonicalUnique(s[1..], t[1..]);
      assert s == [s[0]] + s[1..] && t == [t[0]] + t[1..];
    }
  }

  /** text_to_int: adds ord(character) * 256^i over the positions i */
  method TextToInt(text: string) returns (number: int)
    ensures number == Value(text)
    ensures Bytes(text) ==> number < Pow(256, |text|)
  {
    number := 0;
    var i := 0;
    var weight := 1;
    while i < |text|
      invariant 0 <= i <= |text|
      invariant weight == Pow(256, i)
      invariant number == Value(text[..i])
    {
      ValueAppend(text[..i], text[i]);
      assert text[..i + 1] == text[..i] + [text[i]];
      number := number + Code(text[i]) * weight;
      weight := weight * 256;
      i := i + 1;
    }
    assert text[..i] == text;
    if Bytes(text) {
      ValueBound(text);
    }
  }

  /** one step of intToText removes the low digit: (n - n % 256) // 256 is
      n // 256, which is smaller than n for n > 0 */
  lemma DropDigit(n: int)
    requires n > 0
    ensures (n - n % 256) / 256 == n / 256 && 0 <= n / 256 < n
  {
    DivModUnique(n - n % 256, 256, n / 256, 0);
  }

  /** one step of intToText keeps the digits already emitted plus the
      remaining number, scaled past them, equal to the original number */
  lemma IntToTextStep(text: string, n: int, number: int)
    requires n > 0 && Value(text) + Pow(256, |text|) * n == number
    ensures Value(text + [(n % 256) as char]) + Pow(256, |text| + 1) * ((n - n % 256) / 256) == number
  {
    var next, m := n % 256, n / 256;
    var p := Pow(256, |text|);
    ValueAppend(text, next as char);
    assert Code(next as char) == next;
    DropDigit(n);
    assert Pow(256, |text| + 1) == 256 * p;
    DigitAlgebra(Value(text), p, n, next, m);
  }

  lemma DigitAlgebra(v: int, p: int, n: int, next: int, m: int)
    requires n == next + 256 * m
    ensures (v + next * p) + (256 * p) * m == v + p * n
  {
    Distribute(p, next, 256 * m);
  }

  /** intToText: appends chr(number % 256) and divides by 256 until the
      number is no longer positive */
  method IntToText(number: int) returns (text: string)
    ensures number <= 0 ==> text == ""
    ensures number >= 0 ==> Value(text) == number
    ensures Canonical(text)
  {
    text := "";
    var n := number;
    while n > 0
      invariant number <= 0 ==> n == number && text == ""
      invariant number >= 0 ==> n >= 0 && Value(text) + Pow(256, |text|) * n == number
      invariant Bytes(text)
      invariant |text| > 0 ==> (n > 0 || Code(text[|text| - 1]) != 0)
      decreases n
    {
      var next := n % 256;
      IntToTextStep(text, n, number);
      DropDigit(n);
      text := text + [next as char];
      n := (n - next) / 256;
    }
  }

  /** decoding then encoding gives the number back (for number >= 0), and
      encoding a canonical string then decoding gives the string back */
  method RoundTrip(s: string, number: int) returns (back: int, text: string)
    requires number >= 0 && Canonical(s)
    ensures back == number
    ensures text == s
  {
    var t := IntToText(number);
    back := TextToInt(t);
    var v := TextToInt(s);
    text := IntToText(v);
    CanonicalUnique(text, s);
  }
}

/**
 * The encoder: a word becomes one row of binary digits per character,
 * most significant bit first, left-padded with '0' to at least eight
 * digits.  Words longer than sixty characters give no rows at all.
 *
 * Padding never truncates: a character whose code point needs more than
 * eight binary digits yields a longer row (see CharBitsWide).
 */
module Encoder {

  /** Longest word that still produces a pattern. */
  const MaxWordLength: int := 60

  /** Width the rows are padded to. */
  const RowWidth: nat := 8

  function Digit(odd: bool): char {
    if odd then '1' else '0'
  }

  /** The binary digits of n without prefix or padding (Python's bin(n)[2:]). */
  function Binary(n: nat): (s: string)
    ensures |s| >= 1
    decreases n
  {
    if n < 2 then [Digit(n == 1)] else Binary(n / 2) + [Digit(n % 2 == 1)]
  }

  /** n zero characters. */
  function Zeros(n: nat): (s: string)
    ensures |s| == n && forall i :: 0 <= i < n ==> s[i] == '0'
  {
    seq(n, _ => '0')
  }

  /**
   * Left-pads s with '0' up to width (Python's str.zfill for a string
   * without sign); a string already that wide is returned unchanged.
   */
  function ZFill(s: string, width: nat): (r: string)
    ensures |r| == if |s| < width then width else |s|
    ensures r[|r| - |s|..] == s
    ensures forall i :: 0 <= i < |r| - |s| ==> r[i] == '0'
  {
    if |s| < width then Zeros(width - |s|) + s else s
  }

  /** The row for one character. */
  function CharBits(c: char): string {
    ZFill(Binary(c as int), RowWidth)
  }

  /** The rows for a whole word. */
  function Bitmask(word: string): seq<string> {
    if |word| <= MaxWordLength then seq(|word|, i requires 0 <= i < |word| => CharBits(word[i])) else []
  }

  predicate IsBits(s: string) {
    forall i :: 0 <= i < |s| ==> s[i] == '0' || s[i] == '1'
  }

  /** The number a row of binary digits denotes, most significant first. */
  function BinaryValue(s: string): nat {
    if s == [] then 0 else 2 * BinaryValue(s[..|s| - 1]) + (if s[|s| - 1] == '1' then 1 else 0)
  }

  function Pow2(k: nat): (p: nat)
    ensures p >= 1
  {
    if k == 0 then 1 else 2 * Pow2(k - 1)
  }

  /** Reading back the digits of Binary(n) gives n. */
  lemma {:induction false} BinaryRoundTrip(n: nat)
    ensures IsBits(Binary(n))
    ensures BinaryValue(Binary(n)) == n
    decreases n
  {
    if n >= 2 {
      BinaryRoundTrip(n / 2);
      var s := Binary(n);
      assert s[..|s| - 1] == Binary(n / 2);
    }
  }

  /** Binary(n) uses the fewest digits: n fits them, and (for n > 0) needs all of them. */
  lemma {:induction false} BinaryLength(n: nat)
    ensures n < Pow2(|Binary(n)|)
    ensures n > 0 ==> Pow2(|Binary(n)| - 1) <= n
    ensures n > 0 ==> Binary(n)[0] == '1'
    decreases n
  {
    if n >= 2 {
      BinaryLength(n / 2);
    }
  }

  lemma {:induction false} ZerosValue(k: nat)
    ensures BinaryValue(Zeros(k)) == 0
  {
    if k > 0 {
      ZerosValue(k - 1);
      assert Zeros(k)[..k - 1] == Zeros(k - 1);
    }
  }

  /** Leading zeros do not change the value of a row. */
  lemma {:induction false} LeadingZerosValue(k: nat, s: string)
    ensures BinaryValue(Zeros(k) + s) == BinaryValue(s)
    decreases |s|
  {
    if s == [] {
      assert Zeros(k) + s == Zeros(k);
      ZerosValue(k);
    } else {
      var t := Zeros(k) + s;
      assert t[..|t| - 1] == Zeros(k) + s[..|s| - 1];
      LeadingZerosValue(k, s[..|s| - 1]);
    }
  }

  lemma {:induction false} PowMonotone(a: nat, b: nat)
    requires a <= b
    ensures Pow2(a) <= Pow2(b)
    decreases b
  {
    if a < b {
      PowMonotone(a, b - 1);
    }
  }

  /** A code point below 256 needs at most eight binary digits. */
  lemma BinaryFitsByte(n: nat)
    requires n < 256
    ensures |Binary(n)| <= RowWidth
  {
    BinaryLength(n);
    assert Pow2(8) == 256;
    if |Binary(n)| > 8 {
      PowMonotone(8, |Binary(n)| - 1);
      assert false;
    }
  }

  /** A code point of 256 or more needs more than eight binary digits. */
  lemma BinaryExceedsByte(n: nat)
    requires n >= 256
    ensures |Binary(n)| > RowWidth
  {
    BinaryLength(n);
    assert Pow2(8) == 256;
    if |Binary(n)| <= 8 {
      PowMonotone(|Binary(n)|, 8);
      assert false;
    }
  }

  /**
   * A character below 256 gives exactly eight binary digits whose value is
   * its code point: "A" gives "01000001".
   */
  lemma CharBitsByte(c: char)
    requires c as int < 256
    ensures |CharBits(c)| == RowWidth
    ensures IsBits(CharBits(c))
    ensures BinaryValue(CharBits(c)) == c as int
  {
    var b := Binary(c as int);
    BinaryRoundTrip(c as int);
    BinaryFitsByte(c as int);
    assert CharBits(c) == Zeros(8 - |b|) + b;
    LeadingZerosValue(8 - |b|, b);
  }

  /**
   * A code point of 256 or more is not truncated: the row is its full
   * binary expansion, longer than eight digits, still with the right value.
   */
  lemma CharBitsWide(c: char)
    requires c as int >= 256
    ensures |CharBits(c)| > RowWidth
    ensures CharBits(c) == Binary(c as int)
    ensures IsBits(CharBits(c)) && BinaryValue(CharBits(c)) == c as int
  {
    BinaryRoundTrip(c as int);
    BinaryExceedsByte(c as int);
  }

  /** A character other than NUL puts at least one '1' in its row. */
  lemma CharBitsHasOne(c: char)
    requires c as int > 0
    ensures exists j :: 0 <= j < |CharBits(c)| && CharBits(c)[j] == '1'
  {
    var b := Binary(c as int);
    BinaryLength(c as int);
    var r := CharBits(c);
    assert r[|r| - |b|..] == b;
    assert r[|r| - |b|] == '1';
  }

  /**
   * Shape of the encoder's output: one row per character for words of at
   * most sixty characters (each the eight-digit binary of a code point
   * below 256), no row at all for longer words.
   */
  lemma BitmaskShape(word: string)
    ensures |word| > MaxWordLength ==> Bitmask(word) == []
    ensures |word| <= MaxWordLength ==> |Bitmask(word)| == |word|
    ensures |word| <= MaxWordLength ==>
              forall i :: 0 <= i < |word| && word[i] as int < 256 ==>
                |Bitmask(word)[i]| == RowWidth && IsBits(Bitmask(word)[i]) &&
                BinaryValue(Bitmask(word)[i]) == word[i] as int
  {
    if |word| <= MaxWordLength {
      forall i | 0 <= i < |word| && word[i] as int < 256
        ensures |Bitmask(word)[i]| == RowWidth && IsBits(Bitmask(word)[i])
        ensures BinaryValue(Bitmask(word)[i]) == word[i] as int
      {
        CharBitsByte(word[i]);
      }
    }
  }

  /** The loop of the source: one padded row appended per character. */
  method ConvertToAsciiBitmask(word: string) returns (result: seq<string>)
    ensures result == Bitmask(word)
    ensures |word| > MaxWordLength ==> result == []
    ensures |word| <= MaxWordLength ==> |result| == |word|
    ensures forall i :: 0 <= i < |result| ==> result[i] == CharBits(word[i])
  {
    result := [];
    if |word| <= MaxWordLength {
      var i := 0;
      while i < |word|
        invariant 0 <= i <= |word|
        invariant |result| == i
        invariant forall k :: 0 <= k < i ==> result[k] == CharBits(word[k])
      {
        result := result + [CharBits(word[i])];
        i := i + 1;
      }
    }
  }

  lemma BinaryExamples()
    ensures Binary(65) == "1000001"
    ensures Binary(66) == "1000010"
  {
    assert Binary(16) == "10000";
    assert Binary(32) == "100000" && Binary(33) == "100001";
  }

  /** The examples of the test suite: "A", "AB" and the empty word. */
  lemma EncoderExamples()
    ensures Bitmask("A") == ["01000001"]
    ensures Bitmask("AB") == ["01000001", "01000010"]
    ensures Bitmask("") == []
  {
    BinaryExamples();
    assert CharBits('A') == "01000001";
    assert CharBits('B') == "01000010";
  }
}

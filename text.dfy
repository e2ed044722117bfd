/**
 * The JavaScript and Vim string primitives the column relies on:
 * `" ".repeat(n)`, the `.length` of a JavaScript string (UTF-16 code units),
 * the coercion of an integer to a string in `number + string`, and a
 * per-character model of Vim's `strwidth()`.
 */
module Text {

  /** `" ".repeat(n)` for a count that does not throw. */
  function Spaces(n: nat): (r: string)
    ensures |r| == n
    ensures forall i :: 0 <= i < n ==> r[i] == ' '
  {
    if n == 0 then [] else Spaces(n - 1) + [' ']
  }

  /** A slice inside the first part of a concatenation is a slice of that part. */
  lemma SliceOfConcat(a: string, b: string, i: nat, j: nat)
    requires i <= j <= |a|
    ensures (a + b)[i..j] == a[i..j]
  {
  }

  // ---------------------------------------------------------------------
  // Display width

  /**
   * Display width as the sum of the cells of each character, `cw` giving
   * the cells of one character. Vim's `strwidth()` itself is not modelled:
   * the column receives it as a parameter, and the lemmas that speak about
   * exact widths instantiate that parameter with `StrwidthOf(cw)`.
   */
  function CellsWidth(cw: char -> nat, s: string): nat
  {
    if s == [] then 0 else CellsWidth(cw, s[..|s| - 1]) + cw(s[|s| - 1])
  }

  /** `CellsWidth` as a string-width function. */
  function StrwidthOf(cw: char -> nat): string -> nat
  {
    s => CellsWidth(cw, s)
  }

  /** Every printable ASCII character takes one display cell, as in Vim. */
  ghost predicate NarrowAscii(cw: char -> nat)
  {
    forall c: char :: ' ' <= c <= '~' ==> cw(c) == 1
  }

  predicate PrintableAscii(s: string)
  {
    forall i :: 0 <= i < |s| ==> ' ' <= s[i] <= '~'
  }

  /** Display width adds up over concatenation. */
  lemma {:induction false} CellsWidthAppend(cw: char -> nat, a: string, b: string)
    ensures CellsWidth(cw, a + b) == CellsWidth(cw, a) + CellsWidth(cw, b)
    decreases |b|
  {
    if b == [] {
      assert a + b == a;
    } else {
      var b' := b[..|b| - 1];
      assert a + b == (a + b') + [b[|b| - 1]];
      assert (a + b)[..|a + b| - 1] == a + b';
      CellsWidthAppend(cw, a, b');
    }
  }

  /** On printable ASCII the display width is the number of characters. */
  lemma {:induction false} CellsWidthAscii(cw: char -> nat, s: string)
    requires NarrowAscii(cw)
    requires PrintableAscii(s)
    ensures CellsWidth(cw, s) == |s|
    decreases |s|
  {
    if s != [] {
      var s' := s[..|s| - 1];
      assert PrintableAscii(s') by {
        forall i | 0 <= i < |s'| ensures ' ' <= s'[i] <= '~' {
          assert s'[i] == s[i];
        }
      }
      CellsWidthAscii(cw, s');
    }
  }

  /** A run of spaces is as wide as it is long. */
  lemma {:induction false} CellsWidthSpaces(cw: char -> nat, n: nat)
    requires cw(' ') == 1
    ensures CellsWidth(cw, Spaces(n)) == n
    decreases n
  {
    if n > 0 {
      assert Spaces(n)[..n - 1] == Spaces(n - 1);
      CellsWidthSpaces(cw, n - 1);
    }
  }

  // ---------------------------------------------------------------------
  // JavaScript string length

  /** A character outside the Basic Multilingual Plane is a surrogate pair in UTF-16. */
  function Utf16Units(c: char): nat
  {
    if c as int > 0xFFFF then 2 else 1
  }

  /** `s.length` of the JavaScript string holding `s`: its number of UTF-16 code units. */
  function Utf16Length(s: string): (n: nat)
    ensures |s| <= n <= 2 * |s|
  {
    if s == [] then 0 else Utf16Length(s[..|s| - 1]) + Utf16Units(s[|s| - 1])
  }

  predicate Bmp(s: string)
  {
    forall i :: 0 <= i < |s| ==> s[i] as int <= 0xFFFF
  }

  /** Inside the Basic Multilingual Plane, `.length` counts characters. */
  lemma {:induction false} Utf16LengthBmp(s: string)
    ensures Utf16Length(s) == |s| <==> Bmp(s)
    decreases |s|
  {
    if s != [] {
      var s' := s[..|s| - 1];
      Utf16LengthBmp(s');
      if Bmp(s) {
        assert Bmp(s') by {
          forall i | 0 <= i < |s'| ensures s'[i] as int <= 0xFFFF {
            assert s'[i] == s[i];
          }
        }
      } else if Bmp(s') {
        assert s[|s| - 1] as int > 0xFFFF by {
          forall i | 0 <= i < |s| - 1 ensures s[i] as int <= 0xFFFF {
            assert s[i] == s'[i];
          }
        }
      }
    }
  }

  // ---------------------------------------------------------------------
  // Integer to string, as `number + string` coerces an integral number

  function DigitChar(d: nat): (c: char)
    requires d < 10
    ensures '0' <= c <= '9'
  {
    (('0' as int) + d) as char
  }

  /** The decimal numeral of `n`, without leading zeros. */
  function NatToString(n: nat): (s: string)
    ensures 1 <= |s|
    ensures forall i :: 0 <= i < |s| ==> '0' <= s[i] <= '9'
    ensures |s| > 1 ==> s[0] != '0'
    decreases n
  {
    if n < 10 then [DigitChar(n)] else NatToString(n / 10) + [DigitChar(n % 10)]
  }

  /** `String(n)` for an integral `n`: a minus sign for a negative number, then its digits. */
  function IntToString(n: int): (s: string)
    ensures |s| >= 1 && PrintableAscii(s)
    ensures s[0] == '-' <==> n < 0
  {
    if n < 0 then "-" + NatToString(-n) else NatToString(n)
  }

  /** Reads a decimal numeral back; the inverse of `NatToString`. */
  function ParseNat(s: string): int
  {
    if s == [] then 0 else ParseNat(s[..|s| - 1]) * 10 + (s[|s| - 1] as int - '0' as int)
  }

  /** Reads an optionally signed decimal numeral back; the inverse of `IntToString`. */
  function ParseInt(s: string): int
  {
    if |s| > 0 && s[0] == '-' then -ParseNat(s[1..]) else ParseNat(s)
  }

  lemma {:induction false} NatToStringRoundTrip(n: nat)
    ensures ParseNat(NatToString(n)) == n
    decreases n
  {
    if n >= 10 {
      var s := NatToString(n);
      assert s[..|s| - 1] == NatToString(n / 10);
      NatToStringRoundTrip(n / 10);
    }
  }

  /** The string an integer is coerced to determines the integer. */
  lemma IntToStringRoundTrip(n: int)
    ensures ParseInt(IntToString(n)) == n
  {
    if n < 0 {
      var d := NatToString(-n);
      var s := "-" + d;
      assert s[0] == '-' && s[1..] == d;
      NatToStringRoundTrip(-n);
    } else {
      var d := NatToString(n);
      assert '0' <= d[0] <= '9';
      NatToStringRoundTrip(n);
    }
  }
}

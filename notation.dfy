/**
 * PrintPrettifyNotation: a (row, column) position in standard Othello
 * notation, a column letter and a row number ((0,0) is "A1", (0,7) is "H1"),
 * with strconv.Itoa modelled as the shortest decimal numeral, '-' for a
 * negative number. A parser for the same notation is the partner that shows
 * the notation loses nothing.
 */
module ReversiNotation {
  import opened ReversiRules

  /** The pair of strings PrintPrettifyNotation returns. Although the source's field
      comments call `i` the row and `j` the column, the notation puts the column
      letter in `i` and the row numeral in `j`, so that `i + j` reads "A1". */
  datatype StrPosition = StrPosition(i: string, j: string)

  const Alphabet: seq<string> := ["A", "B", "C", "D", "E", "F", "G", "H"]

  predicate IsDigit(c: char)
  {
    '0' <= c <= '9'
  }

  function DigitChar(n: nat): (c: char)
    requires n < 10
    ensures IsDigit(c) && (c as int) - ('0' as int) == n
  {
    (('0' as int) + n) as char
  }

  /** The decimal digits of n, most significant first, with no leading zero. */
  function Digits(n: nat): (s: string)
    ensures |s| >= 1 && (forall k | 0 <= k < |s| :: IsDigit(s[k]))
    ensures s[0] == '0' ==> n == 0
  {
    if n < 10 then [DigitChar(n)] else Digits(n / 10) + [DigitChar(n % 10)]
  }

  /** strconv.Itoa. */
  function Itoa(n: int): (s: string)
    ensures |s| >= 1
    ensures n < 0 <==> s[0] == '-'
  {
    if n < 0 then "-" + Digits(-n) else Digits(n)
  }

  predicate AllDigits(s: string)
  {
    forall k | 0 <= k < |s| :: IsDigit(s[k])
  }

  /** The value of a string of decimal digits. */
  function DigitsValue(s: string): nat
    requires AllDigits(s)
  {
    if |s| == 0 then 0
    else DigitsValue(s[..|s| - 1]) * 10 + ((s[|s| - 1] as int) - ('0' as int))
  }

  /** A numeral as Itoa writes it: an optional '-' and then one or more digits. */
  predicate IsNumeral(s: string)
  {
    if |s| > 0 && s[0] == '-' then |s| > 1 && AllDigits(s[1..]) else |s| > 0 && AllDigits(s)
  }

  /** The inverse of Itoa on numerals. */
  function Atoi(s: string): int
    requires IsNumeral(s)
  {
    if s[0] == '-' then -(DigitsValue(s[1..]) as int) else DigitsValue(s)
  }

  lemma {:induction false} DigitsValueOfDigits(n: nat)
    ensures DigitsValue(Digits(n)) == n
  {
    if n >= 10 {
      DigitsValueOfDigits(n / 10);
      var s := Digits(n / 10) + [DigitChar(n % 10)];
      assert s[..|s| - 1] == Digits(n / 10);
    }
  }

  /** Itoa loses nothing: reading its numeral back gives the number. */
  lemma {:induction false} ItoaRoundTrip(n: int)
    ensures IsNumeral(Itoa(n)) && Atoi(Itoa(n)) == n
  {
    if n < 0 {
      DigitsValueOfDigits(-n);
      assert Itoa(n)[1..] == Digits(-n);
    } else {
      DigitsValueOfDigits(n);
    }
  }

  /** Two numbers with the same numeral are equal. */
  lemma {:induction false} ItoaInjective(m: int, n: int)
    requires Itoa(m) == Itoa(n)
    ensures m == n
  {
    ItoaRoundTrip(m);
    ItoaRoundTrip(n);
  }

  /** PrintPrettifyNotation. The column indexes the eight-letter alphabet
      (another column is an index out of range in the source); any row goes to Itoa. */
  function PrettifyNotation(p: Position): (r: StrPosition)
    requires 0 <= p.j < Size
    ensures r.i in Alphabet && |r.i| == 1 && r.i[0] == (('A' as int) + p.j) as char
    ensures r.j == Itoa(p.i + 1)
  {
    StrPosition(Alphabet[p.j], Itoa(p.i + 1))
  }

  /** Reading the notation back: the number in `j` minus one is the row, the
      place of the letter in `i` in the alphabet is the column. */
  function ParseNotation(s: StrPosition): (p: Position)
    requires s.i in Alphabet && IsNumeral(s.j)
    ensures 0 <= p.j < Size && Alphabet[p.j] == s.i
    ensures p.i == Atoi(s.j) - 1
  {
    var j :| 0 <= j < |Alphabet| && Alphabet[j] == s.i;
    Position(Atoi(s.j) - 1, j)
  }

  /** The notation loses nothing: parsing the notation of a position gives the position back. */
  lemma {:induction false} NotationRoundTrip(p: Position)
    requires 0 <= p.j < Size
    ensures var s := PrettifyNotation(p); s.i in Alphabet && IsNumeral(s.j) && ParseNotation(s) == p
  {
    ItoaRoundTrip(p.i + 1);
    var s := PrettifyNotation(p);
    var q := ParseNotation(s);
    assert Alphabet[q.j] == Alphabet[p.j];
    forall a, b | 0 <= a < b < |Alphabet| ensures Alphabet[a] != Alphabet[b] {
      assert Alphabet[a][0] != Alphabet[b][0];
    }
  }

  /** On the board the notation is two characters, the column letter A to H and
      the row digit 1 to 8: (0,0) is A1, (0,7) is H1 and (7,7) is H8. */
  lemma {:induction false} NotationOnBoard(p: Position)
    requires InRange(p)
    ensures var s := PrettifyNotation(p);
      s.i + s.j == [(('A' as int) + p.j) as char, (('1' as int) + p.i) as char]
  {
    var s := PrettifyNotation(p);
    assert s.j == [DigitChar(p.i + 1)];
  }
}

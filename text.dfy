/** Text layout shared by the three renderers: newline-terminated lines
  * (every renderer appends "\n" after each emitted row) and the decimal
  * numerals that Python's `str(code)` writes into each colour escape. */
module Text {

  /** Number of occurrences of `c` in `s`. */
  function Count(s: string, c: char): nat
  {
    if s == [] then 0 else (if s[0] == c then 1 else 0) + Count(s[1..], c)
  }

  lemma {:induction false} CountAppend(a: string, b: string, c: char)
    ensures Count(a + b, c) == Count(a, c) + Count(b, c)
  {
    if a != [] {
      assert (a + b)[0] == a[0] && (a + b)[1..] == a[1..] + b;
      CountAppend(a[1..], b, c);
    } else {
      assert a + b == b;
    }
  }

  lemma {:induction false} CountAbsent(s: string, c: char)
    requires c !in s
    ensures Count(s, c) == 0
  {
    if s != [] {
      assert c !in s[1..];
      CountAbsent(s[1..], c);
    }
  }

  /** The text whose lines are `lines`, each one followed by a newline. */
  function Unlines(lines: seq<string>): string
  {
    if lines == [] then "" else lines[0] + "\n" + Unlines(lines[1..])
  }

  /** Appending one more terminated line, as the renderers' loops do. */
  lemma {:induction false} UnlinesSnoc(lines: seq<string>, line: string)
    ensures Unlines(lines + [line]) == Unlines(lines) + line + "\n"
  {
    if lines != [] {
      assert (lines + [line])[1..] == lines[1..] + [line];
      UnlinesSnoc(lines[1..], line);
    }
  }

  /** Every line of the text has exactly `w` characters, so the text has
    * `w + 1` characters per line. */
  lemma {:induction false} UnlinesLength(lines: seq<string>, w: nat)
    requires forall i :: 0 <= i < |lines| ==> |lines[i]| == w
    ensures |Unlines(lines)| == |lines| * (w + 1)
  {
    if lines != [] {
      UnlinesLength(lines[1..], w);
    }
  }

  /** Every character of `s` is one of `alphabet`. */
  predicate OverAlphabet(s: string, alphabet: string)
  {
    forall c :: c in s ==> c in alphabet
  }

  /** A text made of lines over `alphabet` holds only characters of
    * `alphabet` and newlines. */
  lemma {:induction false} UnlinesAlphabet(lines: seq<string>, alphabet: string)
    requires forall i :: 0 <= i < |lines| ==> OverAlphabet(lines[i], alphabet)
    ensures forall c :: c in Unlines(lines) ==> c == '\n' || c in alphabet
  {
    if lines != [] {
      UnlinesAlphabet(lines[1..], alphabet);
      assert OverAlphabet(lines[0], alphabet);
    }
  }

  /** Index of the first `c` in `s`. */
  function IndexOf(s: string, c: char): (i: nat)
    requires c in s
    ensures i < |s| && s[i] == c && c !in s[..i]
  {
    if s[0] == c then 0 else 1 + IndexOf(s[1..], c)
  }

  /** Splits a text at its newlines: each newline ends a line, and a last
    * piece without a newline is a line of its own. */
  function SplitLines(s: string): seq<string>
    decreases |s|
  {
    if '\n' !in s then (if s == [] then [] else [s])
    else
      var i := IndexOf(s, '\n');
      [s[..i]] + SplitLines(s[i + 1..])
  }

  predicate NoNewlines(lines: seq<string>)
  {
    forall i :: 0 <= i < |lines| ==> '\n' !in lines[i]
  }

  /** Splitting recovers the lines that were joined. */
  lemma {:induction false} SplitUnlines(lines: seq<string>)
    requires NoNewlines(lines)
    ensures SplitLines(Unlines(lines)) == lines
  {
    if lines != [] {
      var l, rest := lines[0], Unlines(lines[1..]);
      var s := l + "\n" + rest;
      assert s == Unlines(lines);
      assert s[|l|] == '\n';
      var i := IndexOf(s, '\n');
      assert i == |l|;
      assert s[..i] == l;
      assert s[i + 1..] == rest;
      assert NoNewlines(lines[1..]);
      SplitUnlines(lines[1..]);
    }
  }

  /** The number of newlines is the number of lines. */
  lemma {:induction false} CountUnlines(lines: seq<string>)
    requires NoNewlines(lines)
    ensures Count(Unlines(lines), '\n') == |lines|
  {
    if lines != [] {
      CountAppend(lines[0] + "\n", Unlines(lines[1..]), '\n');
      CountAppend(lines[0], "\n", '\n');
      CountAbsent(lines[0], '\n');
      assert NoNewlines(lines[1..]);
      CountUnlines(lines[1..]);
    }
  }

  predicate IsDigit(c: char)
  {
    '0' <= c <= '9'
  }

  predicate AllDigits(s: string)
  {
    forall i :: 0 <= i < |s| ==> IsDigit(s[i])
  }

  function DigitChar(d: nat): (c: char)
    requires d < 10
    ensures IsDigit(c) && c as int - '0' as int == d
  {
    ('0' as int + d) as char
  }

  /** The decimal numeral of `n`, most significant digit first, as Python's
    * `str` writes a non-negative int. */
  function Decimal(n: nat): (s: string)
    ensures 1 <= |s| && AllDigits(s)
    ensures 1 < |s| ==> s[0] != '0'
  {
    if n < 10 then [DigitChar(n)] else Decimal(n / 10) + [DigitChar(n % 10)]
  }

  /** The number a string of decimal digits denotes. */
  function DecimalValue(s: string): nat
    requires AllDigits(s)
  {
    if s == [] then 0
    else DecimalValue(s[..|s| - 1]) * 10 + (s[|s| - 1] as int - '0' as int)
  }

  /** Reading back the numeral gives the number. */
  lemma {:induction false} DecimalRoundTrip(n: nat)
    ensures DecimalValue(Decimal(n)) == n
  {
    var s := Decimal(n);
    if n >= 10 {
      assert s[..|s| - 1] == Decimal(n / 10);
      DecimalRoundTrip(n / 10);
    }
  }
}

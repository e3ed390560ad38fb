/**
 * Text helpers for the launcher model: ASCII decimal numerals (Python's `int()` on a
 * numeral and `str()` on an int), substring search, cutting a text into its lines and the
 * blank-separated word splitting a POSIX shell applies to a plain command line.
 */
module Text {
  import opened Wrappers

  // ---------------------------------------------------------------------------
  // Decimal numerals
  // ---------------------------------------------------------------------------

  predicate IsDigit(c: char) {
    '0' <= c <= '9'
  }

  predicate AllDigits(s: string) {
    forall i :: 0 <= i < |s| ==> IsDigit(s[i])
  }

  function DigitValue(c: char): (d: nat)
    requires IsDigit(c)
    ensures d < 10
  {
    c as int - '0' as int
  }

  function DigitChar(d: nat): (c: char)
    requires d < 10
    ensures IsDigit(c) && DigitValue(c) == d
  {
    ('0' as int + d) as char
  }

  function Pow10(k: nat): (p: nat)
    ensures p >= 1
  {
    if k == 0 then 1 else 10 * Pow10(k - 1)
  }

  /** The value of a string of decimal digits, most significant first. */
  function DecimalValue(s: string): (v: nat)
    requires AllDigits(s)
    ensures v < Pow10(|s|)
  {
    if s == [] then 0
    else DecimalValue(s[..|s| - 1]) * 10 + DigitValue(s[|s| - 1])
  }

  lemma DecimalValueSnoc(s: string, c: char)
    requires AllDigits(s) && IsDigit(c)
    ensures AllDigits(s + [c])
    ensures DecimalValue(s + [c]) == DecimalValue(s) * 10 + DigitValue(c)
  {
    assert (s + [c])[..|s|] == s;
  }

  /** Python's `str(n)` for a non-negative int: the shortest decimal numeral of `n`. */
  function NatToString(n: nat): (r: string)
    ensures 1 <= |r| && AllDigits(r)
    ensures r[0] == '0' ==> r == "0"
    ensures DecimalValue(r) == n
  {
    if n < 10 then
      assert DecimalValue([DigitChar(n)]) == DecimalValue([]) * 10 + n by {
        DecimalValueSnoc([], DigitChar(n));
      }
      [DigitChar(n)]
    else
      var prefix := NatToString(n / 10);
      DecimalValueSnoc(prefix, DigitChar(n % 10));
      prefix + [DigitChar(n % 10)]
  }

  lemma NatToStringInjective(a: nat, b: nat)
    requires NatToString(a) == NatToString(b)
    ensures a == b
  {
  }

  /** Python's `str(i)` for any int. */
  function IntToString(i: int): (r: string)
    ensures 1 <= |r|
  {
    if i < 0 then "-" + NatToString(-i) else NatToString(i)
  }

  /** `"%03d" % n`: the zero-padded three-digit numeral `lsusb` prints for bus and device numbers. */
  function Pad3(n: nat): (r: string)
    requires n < 1000
    ensures |r| == 3 && AllDigits(r)
    ensures DecimalValue(r) == n
  {
    var r := [DigitChar(n / 100), DigitChar(n / 10 % 10), DigitChar(n % 10)];
    DecimalValueSnoc([], r[0]);
    assert r[..1] == [] + [r[0]];
    DecimalValueSnoc(r[..1], r[1]);
    assert r[..2] == r[..1] + [r[1]];
    DecimalValueSnoc(r[..2], r[2]);
    assert r == r[..2] + [r[2]];
    r
  }

  /** An unsigned numeral: the digits `\d` matches (ASCII only) read as a number. */
  function ParseNat(s: string): (r: Option<nat>)
    ensures r.Some? <==> s != [] && AllDigits(s)
  {
    if s != [] && AllDigits(s) then Some(DecimalValue(s)) else None
  }

  /**
   * Python's `int(s)` on a decimal numeral with an optional sign; `None` stands for the
   * `ValueError` Python raises on anything else.
   */
  function ParseInt(s: string): (r: Option<int>)
    ensures s != [] && AllDigits(s) ==> r == Some(ParseNat(s).value)
    ensures |s| >= 2 && s[0] == '-' && AllDigits(s[1..]) ==> r == Some(0 - ParseNat(s[1..]).value)
    ensures |s| >= 2 && s[0] == '+' && AllDigits(s[1..]) ==> r == Some(ParseNat(s[1..]).value)
    ensures r.Some? ==> s != [] && (r.value < 0 ==> s[0] == '-')
    ensures r.Some? ==> (s != [] && AllDigits(s)) || (|s| >= 2 && (s[0] == '-' || s[0] == '+') && AllDigits(s[1..]))
  {
    if |s| >= 2 && (s[0] == '-' || s[0] == '+') && AllDigits(s[1..]) then
      Some(if s[0] == '-' then 0 - DecimalValue(s[1..]) as int else DecimalValue(s[1..]))
    else if s != [] && AllDigits(s) then Some(DecimalValue(s))
    else None
  }

  lemma ParseNatNatToString(n: nat)
    ensures ParseNat(NatToString(n)) == Some(n)
  {
  }

  /** Printing an int and reading it back gives the same int. */
  lemma ParseIntIntToString(i: int)
    ensures ParseInt(IntToString(i)) == Some(i)
  {
    var s := IntToString(i);
    if i < 0 {
      assert s[1..] == NatToString(-i);
    } else {
      assert s[0] != '-' && s[0] != '+';
    }
  }

  // ---------------------------------------------------------------------------
  // Substrings
  // ---------------------------------------------------------------------------

  predicate OccursAt(pat: string, s: string, i: nat) {
    i + |pat| <= |s| && s[i..i + |pat|] == pat
  }

  /** Whether `pat` occurs in `s` starting at `from` or later. */
  function ContainsFrom(pat: string, s: string, from: nat): (b: bool)
    ensures b <==> exists j :: from <= j && OccursAt(pat, s, j)
    decreases |s| - from
  {
    if from + |pat| > |s| then false
    else if OccursAt(pat, s, from) then true
    else ContainsFrom(pat, s, from + 1)
  }

  // ---------------------------------------------------------------------------
  // Splitting and joining
  // ---------------------------------------------------------------------------

  /** The parts joined with `sep` between them. */
  function Join(parts: seq<string>, sep: char): string
  {
    if |parts| == 0 then []
    else if |parts| == 1 then parts[0]
    else parts[0] + [sep] + Join(parts[1..], sep)
  }

  /**
   * The text cut at every `sep` (with `'\n'`: its lines, which a regex `.` cannot cross):
   * the pieces between separators, empty pieces included, so there is always one more
   * piece than separators.
   */
  function Split(s: string, sep: char): (parts: seq<string>)
    ensures |parts| >= 1
    ensures forall k :: 0 <= k < |parts| ==> sep !in parts[k]
    ensures Join(parts, sep) == s
  {
    if s == [] then [[]]
    else
      var rest := Split(s[1..], sep);
      if s[0] == sep then
        var parts := [[]] + rest;
        assert parts[1..] == rest;
        assert s == [sep] + s[1..];
        parts
      else
        var parts := [[s[0]] + rest[0]] + rest[1..];
        assert s == [s[0]] + s[1..];
        if |rest| == 1 then parts
        else
          assert parts[1..] == rest[1..];
          assert Join(rest, sep) == rest[0] + [sep] + Join(rest[1..], sep);
          parts
  }

  /** A shell word: non-empty and without blanks. */
  predicate IsWord(w: string) {
    w != [] && forall k :: 0 <= k < |w| ==> w[k] != ' '
  }

  /** The length of the leading run of non-blank characters. */
  function WordLen(s: string): (n: nat)
    ensures n <= |s|
    ensures forall k :: 0 <= k < n ==> s[k] != ' '
    ensures n < |s| ==> s[n] == ' '
  {
    if s == [] || s[0] == ' ' then 0 else 1 + WordLen(s[1..])
  }

  /**
   * The words a POSIX shell reads from a command line made of plain characters:
   * maximal runs of non-blanks, blanks dropped.
   */
  function Words(s: string): (ws: seq<string>)
    ensures forall k :: 0 <= k < |ws| ==> IsWord(ws[k])
    decreases |s|
  {
    if s == [] then []
    else if s[0] == ' ' then Words(s[1..])
    else
      var n := WordLen(s);
      [s[..n]] + Words(s[n..])
  }

  lemma {:induction false} WordLenSep(a: string, b: string)
    ensures WordLen(a + " " + b) == WordLen(a)
  {
    if a != [] && a[0] != ' ' {
      assert (a + " " + b)[1..] == a[1..] + " " + b;
      WordLenSep(a[1..], b);
    }
  }

  /** A blank separates the words before it from those after it. */
  lemma {:induction false} WordsSep(a: string, b: string)
    ensures Words(a + " " + b) == Words(a) + Words(b)
    decreases |a|
  {
    var s := a + " " + b;
    if a == [] {
      assert s[1..] == b;
    } else if a[0] == ' ' {
      assert s[1..] == a[1..] + " " + b;
      WordsSep(a[1..], b);
    } else {
      WordLenSep(a, b);
      var n := WordLen(a);
      assert s[..n] == a[..n];
      assert s[n..] == a[n..] + " " + b;
      WordsSep(a[n..], b);
    }
  }

  lemma WordsSingle(w: string)
    requires IsWord(w)
    ensures Words(w) == [w]
  {
    assert w[0] != ' ';
    assert WordLen(w) == |w|;
    assert w[..|w|] == w;
    assert w[|w|..] == [];
  }

  /** Reading back words joined by single blanks gives the same words. */
  lemma {:induction false} WordsJoin(ws: seq<string>)
    requires forall k :: 0 <= k < |ws| ==> IsWord(ws[k])
    ensures Words(Join(ws, ' ')) == ws
  {
    if |ws| == 1 {
      WordsSingle(ws[0]);
    } else if |ws| > 1 {
      WordsJoin(ws[1..]);
      assert Join(ws, ' ') == ws[0] + " " + Join(ws[1..], ' ');
      WordsSep(ws[0], Join(ws[1..], ' '));
      WordsSingle(ws[0]);
      assert ws == [ws[0]] + ws[1..];
    }
  }
}

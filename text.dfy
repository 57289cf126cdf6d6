/**
 * Text helpers with Python's semantics: `str(n)` for integers, `int(s, base)`
 * for ASCII text, `str.split()` on whitespace, `str.split(sep)` and
 * `sep.join(parts)` for a one-character separator.
 */
module Text {
  import opened Wrappers

  predicate IsDigit(c: char)
  {
    '0' <= c <= '9'
  }

  /**
   * The characters Python's `str.split()` and `str.strip()` treat as
   * whitespace within ASCII: space, \t \n \v \f \r and \x1c to \x1f.
   */
  predicate IsSpace(c: char)
  {
    c == ' ' || (9 <= c as int <= 13) || (28 <= c as int <= 31)
  }

  /** Value of a hexadecimal digit of either case, or -1 for any other character. */
  function DigitValue(c: char): (v: int)
    ensures -1 <= v < 16
    ensures IsDigit(c) ==> v == c as int - '0' as int
  {
    if '0' <= c <= '9' then c as int - '0' as int
    else if 'a' <= c <= 'f' then c as int - 'a' as int + 10
    else if 'A' <= c <= 'F' then c as int - 'A' as int + 10
    else -1
  }

  predicate IsBaseDigit(c: char, base: nat)
  {
    0 <= DigitValue(c) < base
  }

  /** The lower-case digit character of d. */
  function DigitChar(d: nat): (c: char)
    requires d < 16
    ensures DigitValue(c) == d
    ensures d < 10 ==> IsDigit(c)
  {
    if d < 10 then ('0' as int + d) as char else ('a' as int + d - 10) as char
  }

  /** `str(n)` for a natural number: decimal digits without leading zeros. */
  function NatToString(n: nat): (s: string)
    ensures |s| >= 1
    ensures forall i :: 0 <= i < |s| ==> IsDigit(s[i])
  {
    if n < 10 then [DigitChar(n)] else NatToString(n / 10) + [DigitChar(n % 10)]
  }

  /** `str(n)` for any integer. */
  function IntToString(n: int): (s: string)
    ensures n >= 0 ==> s == NatToString(n)
    ensures n < 0 ==> s == "-" + NatToString(-n)
  {
    if n < 0 then "-" + NatToString(-n) else NatToString(n)
  }

  /** Lower-case hexadecimal digits of n without leading zeros (a reference encoder). */
  function HexString(n: nat): (s: string)
    ensures |s| >= 1
    ensures forall i :: 0 <= i < |s| ==> IsBaseDigit(s[i], 16)
  {
    if n < 16 then [DigitChar(n)] else HexString(n / 16) + [DigitChar(n % 16)]
  }

  /** Value of a digit string in base `base`, skipping underscores. */
  predicate DigitsOrUnderscores(d: string, base: nat)
  {
    forall i :: 0 <= i < |d| ==> d[i] == '_' || IsBaseDigit(d[i], base)
  }

  function DigitsValue(d: string, base: nat): nat
    requires DigitsOrUnderscores(d, base)
  {
    if d == [] then 0
    else if d[|d| - 1] == '_' then DigitsValue(d[..|d| - 1], base)
    else
      assert IsBaseDigit(d[|d| - 1], base);
      base * DigitsValue(d[..|d| - 1], base) + DigitValue(d[|d| - 1])
  }

  /**
   * The digit part Python's `int` accepts: it starts with a digit and every
   * underscore stands between two digits.
   */
  predicate WellFormedDigits(d: string, base: nat)
  {
    && |d| >= 1
    && IsBaseDigit(d[0], base)
    && DigitsOrUnderscores(d, base)
    && forall i :: 0 <= i < |d| ==>
         IsBaseDigit(d[i], base) || (d[i] == '_' && i + 1 < |d| && IsBaseDigit(d[i + 1], base))
  }

  /** The first position at or after i that is not whitespace (or |s|). */
  function SpaceEnd(s: string, i: nat): (n: nat)
    requires i <= |s|
    ensures i <= n <= |s|
    ensures forall k :: i <= k < n ==> IsSpace(s[k])
    ensures n < |s| ==> !IsSpace(s[n])
    decreases |s| - i
  {
    if i == |s| || !IsSpace(s[i]) then i else SpaceEnd(s, i + 1)
  }

  /** The end of s[lo..j] once its trailing whitespace is removed. */
  function TrimmedEnd(s: string, lo: nat, j: nat): (e: nat)
    requires lo <= j <= |s|
    ensures lo <= e <= j
    ensures forall k :: e <= k < j ==> IsSpace(s[k])
    ensures e > lo ==> !IsSpace(s[e - 1])
    decreases j
  {
    if j == lo || !IsSpace(s[j - 1]) then j else TrimmedEnd(s, lo, j - 1)
  }

  /** `str.strip()`: s without leading and trailing whitespace. */
  function Strip(s: string): (t: string)
    ensures |t| <= |s|
    ensures t == [] <==> forall i :: 0 <= i < |s| ==> IsSpace(s[i])
    ensures t != [] ==> !IsSpace(t[0]) && !IsSpace(t[|t| - 1])
  {
    var n := SpaceEnd(s, 0);
    var e := TrimmedEnd(s, n, |s|);
    TrimBounds(s, n, e - n);
    s[n..e]
  }

  /** The bounds of the stripped text, from the two scans' facts alone. */
  lemma TrimBounds(s: string, n: nat, m: nat)
    requires n + m <= |s|
    requires forall i :: 0 <= i < n ==> IsSpace(s[i])
    requires n < |s| ==> !IsSpace(s[n])
    requires forall i :: n + m <= i < |s| ==> IsSpace(s[i])
    requires m > 0 ==> !IsSpace(s[n + m - 1])
    ensures m == 0 <==> forall i :: 0 <= i < |s| ==> IsSpace(s[i])
    ensures m > 0 ==> !IsSpace(s[n])
  {
    if m > 0 {
      assert !IsSpace(s[n + m - 1]);
    }
  }

  /**
   * Python's `int(s, base)` for base 10 or 16 on ASCII text: surrounding
   * whitespace, an optional sign, for base 16 an optional `0x`/`0X` prefix
   * (which may be followed by one underscore), then digits with single
   * underscores between them. `None` stands for the `ValueError` it raises.
   */
  function ParseInt(s: string, base: nat): (r: Option<int>)
    requires base == 10 || base == 16
  {
    var t := Strip(s);
    var negative := |t| > 0 && t[0] == '-';
    var unsigned := if |t| > 0 && (t[0] == '-' || t[0] == '+') then t[1..] else t;
    var prefixed := base == 16 && |unsigned| >= 2 && unsigned[0] == '0' && (unsigned[1] == 'x' || unsigned[1] == 'X');
    var body := if prefixed then unsigned[2..] else unsigned;
    var digits := if prefixed && |body| > 0 && body[0] == '_' then body[1..] else body;
    if WellFormedDigits(digits, base) then
      var v: int := DigitsValue(digits, base);
      Some(if negative then -v else v)
    else
      None
  }

  lemma {:induction false} DigitsValueNatToString(n: nat)
    ensures DigitsValue(NatToString(n), 10) == n
  {
    var s := NatToString(n);
    if n >= 10 {
      assert s[..|s| - 1] == NatToString(n / 10);
      DigitsValueNatToString(n / 10);
    }
  }

  lemma {:induction false} DigitsValueHexString(n: nat)
    ensures DigitsValue(HexString(n), 16) == n
  {
    var s := HexString(n);
    if n >= 16 {
      assert s[..|s| - 1] == HexString(n / 16);
      DigitsValueHexString(n / 16);
    }
  }

  lemma StripOfDigits(s: string, base: nat)
    requires |s| >= 1 && forall i :: 0 <= i < |s| ==> IsBaseDigit(s[i], base)
    ensures Strip(s) == s
  {
    assert !IsSpace(s[0]) && !IsSpace(s[|s| - 1]);
    assert SpaceEnd(s, 0) == 0;
    assert TrimmedEnd(s, 0, |s|) == |s|;
    assert s[0..|s|] == s;
  }

  /** A plain digit string parses to its value. */
  lemma ParseIntOfDigits(s: string, base: nat)
    requires base == 10 || base == 16
    requires |s| >= 1 && forall i :: 0 <= i < |s| ==> IsBaseDigit(s[i], base)
    ensures DigitsOrUnderscores(s, base)
    ensures ParseInt(s, base) == Some(DigitsValue(s, base))
  {
    StripOfDigits(s, base);
    assert DigitValue('-') == -1 && DigitValue('+') == -1;
    assert DigitValue('x') == -1 && DigitValue('X') == -1;
    assert s[0] != '-' && s[0] != '+';
    assert |s| >= 2 ==> s[1] != 'x' && s[1] != 'X';
    assert WellFormedDigits(s, base);
  }

  /** `int(str(n))` gives n back. */
  lemma ParseNatToString(n: nat)
    ensures ParseInt(NatToString(n), 10) == Some(n)
  {
    ParseIntOfDigits(NatToString(n), 10);
    DigitsValueNatToString(n);
  }

  /** `int(s, 16)` of the hexadecimal digits of n gives n back. */
  lemma ParseHexString(n: nat)
    ensures ParseInt(HexString(n), 16) == Some(n)
  {
    ParseIntOfDigits(HexString(n), 16);
    DigitsValueHexString(n);
  }

  // ---------------------------------------------------------------- words

  /** End of the word that starts at i: the next whitespace or the end of s. */
  function WordEnd(s: string, i: nat): (j: nat)
    requires i <= |s|
    ensures i <= j <= |s|
    ensures forall k :: i <= k < j ==> !IsSpace(s[k])
    ensures j < |s| ==> IsSpace(s[j])
    decreases |s| - i
  {
    if i == |s| || IsSpace(s[i]) then i else WordEnd(s, i + 1)
  }

  /** A non-empty string without whitespace. */
  predicate IsWord(w: string)
  {
    |w| >= 1 && forall i :: 0 <= i < |w| ==> !IsSpace(w[i])
  }

  /** Python's `s.split()`: the maximal runs of non-whitespace characters, in order. */
  function Words(s: string): (ws: seq<string>)
    ensures forall k :: 0 <= k < |ws| ==> IsWord(ws[k])
    decreases |s|
  {
    if s == [] then []
    else if IsSpace(s[0]) then Words(s[1..])
    else
      var n := WordEnd(s, 0);
      [s[..n]] + Words(s[n..])
  }

  lemma {:induction false} WordEndOfWord(w: string, rest: string)
    requires IsWord(w)
    requires rest == [] || IsSpace(rest[0])
    ensures WordEnd(w + rest, 0) == |w|
  {
    var s := w + rest;
    assert forall k :: 0 <= k < |w| ==> s[k] == w[k];
    assert |w| < |s| ==> s[|w|] == rest[0];
  }

  /** A word followed by whitespace or nothing splits off as the first word. */
  lemma WordsCons(w: string, rest: string)
    requires IsWord(w)
    requires rest == [] || IsSpace(rest[0])
    ensures Words(w + rest) == [w] + Words(rest)
  {
    var s := w + rest;
    WordEndOfWord(w, rest);
    assert s[..|w|] == w;
    assert s[|w|..] == rest;
  }

  /** Whitespace-only text has no words. */
  lemma {:induction false} WordsOfSpace(s: string)
    ensures (forall i :: 0 <= i < |s| ==> IsSpace(s[i])) <==> Words(s) == []
    decreases |s|
  {
    if s != [] {
      if IsSpace(s[0]) {
        WordsOfSpace(s[1..]);
        if Words(s) == [] {
          forall i | 0 <= i < |s| ensures IsSpace(s[i]) {
            if i > 0 { assert s[i] == s[1..][i - 1]; }
          }
        }
      }
    }
  }

  // ---------------------------------------------------------------- split / join

  /** Index of the first occurrence of c in s. */
  function IndexOf(s: string, c: char): (i: nat)
    requires c in s
    ensures i < |s| && s[i] == c && c !in s[..i]
  {
    if s[0] == c then 0 else 1 + IndexOf(s[1..], c)
  }

  /** Python's `s.split(sep)` for a one-character separator. */
  function Split(s: string, sep: char): (parts: seq<string>)
    ensures |parts| >= 1
    ensures forall k :: 0 <= k < |parts| ==> sep !in parts[k]
    decreases |s|
  {
    if sep !in s then [s]
    else
      var i := IndexOf(s, sep);
      [s[..i]] + Split(s[i + 1..], sep)
  }

  /** Python's `sep.join(parts)`. */
  function Join(parts: seq<string>, sep: char): string
  {
    if parts == [] then []
    else if |parts| == 1 then parts[0]
    else parts[0] + [sep] + Join(parts[1..], sep)
  }

  lemma {:induction false} JoinAppend(p: seq<string>, q: seq<string>, sep: char)
    requires |p| >= 1 && |q| >= 1
    ensures Join(p + q, sep) == Join(p, sep) + [sep] + Join(q, sep)
    decreases |p|
  {
    if |p| == 1 {
      assert (p + q)[1..] == q;
    } else {
      assert (p + q)[1..] == p[1..] + q;
      JoinAppend(p[1..], q, sep);
    }
  }

  lemma JoinCons(a: string, rest: seq<string>, sep: char)
    requires |rest| >= 1
    ensures Join([a] + rest, sep) == a + [sep] + Join(rest, sep)
  {
    assert ([a] + rest)[1..] == rest;
  }

  lemma Around(s: string, i: nat)
    requires i < |s|
    ensures s == s[..i] + [s[i]] + s[i + 1..]
  {
  }

  /** Joining all but the last piece, then the separator and the last piece, is the whole join. */
  lemma JoinLast(parts: seq<string>, sep: char)
    requires |parts| >= 2
    ensures Join(parts[..|parts| - 1], sep) + [sep] + parts[|parts| - 1] == Join(parts, sep)
  {
    var init := parts[..|parts| - 1];
    var last := [parts[|parts| - 1]];
    assert parts == init + last;
    JoinAppend(init, last, sep);
  }

  /** A string holding the separator splits into at least two pieces. */
  lemma SplitTwo(s: string, sep: char)
    requires sep in s
    ensures |Split(s, sep)| >= 2
  {
    var i := IndexOf(s, sep);
    assert Split(s, sep) == [s[..i]] + Split(s[i + 1..], sep);
  }

  /** Joining the pieces of a split gives the string back. */
  lemma {:induction false} JoinSplit(s: string, sep: char)
    ensures Join(Split(s, sep), sep) == s
    decreases |s|
  {
    if sep in s {
      var i := IndexOf(s, sep);
      var tail := s[i + 1..];
      JoinSplit(tail, sep);
      JoinCons(s[..i], Split(tail, sep), sep);
      Around(s, i);
    }
  }

  /** Splitting a join of separator-free pieces gives the pieces back. */
  lemma {:induction false} SplitJoin(parts: seq<string>, sep: char)
    requires |parts| >= 1
    requires forall k :: 0 <= k < |parts| ==> sep !in parts[k]
    ensures Split(Join(parts, sep), sep) == parts
    decreases |parts|
  {
    if |parts| > 1 {
      var s := Join(parts, sep);
      var rest := Join(parts[1..], sep);
      assert s == parts[0] + [sep] + rest;
      assert sep in s by { assert s[|parts[0]|] == sep; }
      var i := IndexOf(s, sep);
      assert forall k :: 0 <= k < |parts[0]| ==> s[k] == parts[0][k];
      assert i == |parts[0]|;
      assert s[..i] == parts[0];
      assert s[i + 1..] == rest;
      SplitJoin(parts[1..], sep);
    }
  }

  /** Splitting on the separator distributes over a separator occurrence. */
  lemma SplitAround(a: string, b: string, sep: char)
    ensures Split(a + [sep] + b, sep) == Split(a, sep) + Split(b, sep)
  {
    var pa, pb := Split(a, sep), Split(b, sep);
    JoinSplit(a, sep);
    JoinSplit(b, sep);
    JoinAppend(pa, pb, sep);
    SplitJoin(pa + pb, sep);
  }
}

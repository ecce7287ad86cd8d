/** Text handling the catalog's line format relies on: tokenising a line the
    way a `std::getline` loop over a string stream does, joining with a
    separator, writing an `int` the way `operator<<` does and reading one back
    the way `std::stoi` does. */
module Text {

  /** The pieces of `s` between occurrences of `d`, empty pieces included;
      there is always at least one piece. */
  function Pieces(s: string, d: char): (p: seq<string>)
    ensures |p| >= 1
  {
    if s == [] then [[]]
    else
      var rest := Pieces(s[1..], d);
      if s[0] == d then [[]] + rest else [[s[0]] + rest[0]] + rest[1..]
  }

  /** Tokens produced by `while (std::getline(stream, token, d)) tokens.push_back(token);`
      over a stream holding `s`: every piece between delimiters, except that the
      read which starts at the end of the text extracts nothing and fails, so an
      empty text gives no token and a trailing delimiter gives no empty last token. */
  function Split(s: string, d: char): seq<string>
  {
    var p := Pieces(s, d);
    if p[|p| - 1] == [] then p[..|p| - 1] else p
  }

  /** `parts` with `d` written between consecutive parts and nowhere else. */
  function Join(parts: seq<string>, d: char): string
  {
    if parts == [] then []
    else if |parts| == 1 then parts[0]
    else parts[0] + [d] + Join(parts[1..], d)
  }

  lemma {:induction false} PiecesNoDelimiter(c: string, d: char)
    requires d !in c
    ensures Pieces(c, d) == [c]
  {
    if c != [] {
      PiecesNoDelimiter(c[1..], d);
      assert [c[0]] + c[1..] == c;
    }
  }

  lemma {:induction false} PiecesCons(x: string, d: char, y: string)
    requires d !in x
    ensures Pieces(x + [d] + y, d) == [x] + Pieces(y, d)
  {
    if x == [] {
      assert x + [d] + y == [d] + y;
      assert ([d] + y)[1..] == y;
    } else {
      PiecesCons(x[1..], d, y);
      assert (x + [d] + y)[1..] == x[1..] + [d] + y;
      assert [x[0]] + x[1..] == x;
    }
  }

  /** The text before the first delimiter is the first token and the rest is
      tokenised on its own. */
  lemma SplitCons(x: string, d: char, y: string)
    requires d !in x
    ensures Split(x + [d] + y, d) == [x] + Split(y, d)
  {
    PiecesCons(x, d, y);
    var p := Pieces(y, d);
    assert ([x] + p)[1 + |p| - 1] == p[|p| - 1];
    assert ([x] + p)[..1 + |p| - 1] == [x] + p[..|p| - 1];
  }

  /** A non-empty text without the delimiter is a single token. */
  lemma SplitSingle(c: string, d: char)
    requires c != [] && d !in c
    ensures Split(c, d) == [c]
  {
    PiecesNoDelimiter(c, d);
  }

  /** Splitting undoes joining when no part is empty and no part holds the
      separator; an empty list joins to the empty text, which splits to no token. */
  lemma {:induction false} SplitJoin(parts: seq<string>, d: char)
    requires forall i :: 0 <= i < |parts| ==> parts[i] != [] && d !in parts[i]
    ensures Split(Join(parts, d), d) == parts
  {
    if parts == [] {
    } else if |parts| == 1 {
      SplitSingle(parts[0], d);
    } else {
      SplitJoin(parts[1..], d);
      SplitCons(parts[0], d, Join(parts[1..], d));
    }
  }

  /** A character that occurs in no part does not occur in their join. */
  lemma {:induction false} JoinAvoids(parts: seq<string>, d: char, c: char)
    requires c != d
    requires forall i :: 0 <= i < |parts| ==> c !in parts[i]
    ensures c !in Join(parts, d)
  {
    if |parts| > 1 {
      JoinAvoids(parts[1..], d, c);
    }
  }

  // ---------------------------------------------------------------------------
  // Integers as text

  predicate IsDigit(c: char) { '0' <= c <= '9' }

  /** The characters `std::isspace` accepts in the "C" locale. */
  predicate IsSpace(c: char)
  {
    c == ' ' || c == '\t' || c == '\n' || c == '\U{000B}' || c == '\U{000C}' || c == '\r'
  }

  function DigitChar(n: nat): (c: char)
    requires n < 10
    ensures IsDigit(c) && (c as int) - ('0' as int) == n
  {
    (('0' as int) + n) as char
  }

  /** Decimal digits of `n`, most significant first, without leading zeros. */
  function NatToString(n: nat): string
  {
    if n < 10 then [DigitChar(n)] else NatToString(n / 10) + [DigitChar(n % 10)]
  }

  /** `operator<<` on an `int`: a minus sign for negative values, then the digits. */
  function IntToString(n: int): string
  {
    if n < 0 then "-" + NatToString(-n) else NatToString(n)
  }

  function DigitValue(c: char): nat
    requires IsDigit(c)
  {
    (c as int) - ('0' as int)
  }

  /** The value of a run of decimal digits, most significant first. */
  function DigitsValue(s: string): nat
    requires forall i :: 0 <= i < |s| ==> IsDigit(s[i])
  {
    if s == [] then 0
    else DigitsValue(s[..|s| - 1]) * 10 + DigitValue(s[|s| - 1])
  }

  /** The length of the run of digits that `s` starts with. */
  function DigitRun(s: string): (n: nat)
    ensures n <= |s|
    ensures forall i :: 0 <= i < n ==> IsDigit(s[i])
    ensures n < |s| ==> !IsDigit(s[n])
  {
    if s != [] && IsDigit(s[0]) then 1 + DigitRun(s[1..]) else 0
  }

  function SkipSpaces(s: string): string
  {
    if s != [] && IsSpace(s[0]) then SkipSpaces(s[1..]) else s
  }

  /** `t` without a leading sign character. */
  function Unsigned(t: string): string
  {
    if t != [] && (t[0] == '-' || t[0] == '+') then t[1..] else t
  }

  /** `std::stoi` succeeds: after leading white space and an optional sign at
      least one digit follows (whatever comes after the digits is ignored). */
  predicate IsIntText(s: string)
  {
    DigitRun(Unsigned(SkipSpaces(s))) > 0
  }

  /** The value `std::stoi` returns for a text it accepts. */
  function Stoi(s: string): int
    requires IsIntText(s)
  {
    var t := SkipSpaces(s);
    var u := Unsigned(t);
    var v: int := DigitsValue(u[..DigitRun(u)]);
    if t[0] == '-' then -v else v
  }

  lemma {:induction false} NatToStringDigits(n: nat)
    ensures NatToString(n) != []
    ensures forall i :: 0 <= i < |NatToString(n)| ==> IsDigit(NatToString(n)[i])
    ensures DigitsValue(NatToString(n)) == n
  {
    if n >= 10 {
      NatToStringDigits(n / 10);
      var s := NatToString(n);
      assert s[..|s| - 1] == NatToString(n / 10);
    }
  }

  lemma {:induction false} DigitRunAll(s: string)
    requires forall i :: 0 <= i < |s| ==> IsDigit(s[i])
    ensures DigitRun(s) == |s|
  {
    if s != [] {
      DigitRunAll(s[1..]);
    }
  }

  /** Reading back what `operator<<` wrote gives the same integer. */
  lemma StoiIntToString(n: int)
    ensures IsIntText(IntToString(n))
    ensures Stoi(IntToString(n)) == n
  {
    var m: nat := if n < 0 then -n else n;
    NatToStringDigits(m);
    DigitRunAll(NatToString(m));
    var s := IntToString(n);
    assert SkipSpaces(s) == s;
    if n < 0 {
      assert Unsigned(s) == NatToString(m);
    } else {
      assert Unsigned(s) == NatToString(m);
    }
    assert NatToString(m)[..|NatToString(m)|] == NatToString(m);
  }

  /** The text of an integer is never empty and never holds a field or list
      separator. */
  lemma IntToStringShape(n: int)
    ensures IntToString(n) != []
    ensures ';' !in IntToString(n) && ',' !in IntToString(n)
  {
    var m: nat := if n < 0 then -n else n;
    NatToStringDigits(m);
  }
}

/** Numbers as text: printf("%i"), atoi and sscanf("%dx%d"). */
module Numbers {
  import opened Basics

  predicate IsDigit(c: char) {
    '0' <= c <= '9'
  }

  predicate IsSpace(c: char) {
    c == ' ' || '\t' <= c <= '\r'
  }

  function Digits(n: nat): (s: string)
    ensures s != "" && IsDigit(s[0])
  {
    (if n < 10 then "" else Digits(n / 10)) + ['0' + (n % 10) as char]
  }

  /** printf("%i", v) */
  function Print(v: int): string {
    if v < 0 then "-" + Digits(-v) else Digits(v)
  }

  function Skip(s: string): string {
    if s != "" && IsSpace(s[0]) then Skip(s[1..]) else s
  }

  /** Continues to read digits; the rest of the text comes with the number. */
  function Value(s: string, n: nat): (nat, string) {
    if s != "" && IsDigit(s[0]) then Value(s[1..], 10 * n + (s[0] - '0') as int) else (n, s)
  }

  /** Reads a number as scanf's %d does; None when there is none. */
  function Scan(s: string): Option<(int, string)> {
    var t := Skip(s);
    var negative := t != "" && t[0] == '-';
    var d := if t != "" && (t[0] == '-' || t[0] == '+') then t[1..] else t;
    if d == "" || !IsDigit(d[0]) then None
    else
      var r := Value(d, 0);
      var n: int := r.0;
      Some((if negative then -n else n, r.1))
  }

  /** atoi: 0 when there is no number. */
  function Atoi(s: string): int {
    var r := Scan(s);
    if r.Some? then r.value.0 else 0
  }

  /** sscanf(s, "%dx%d") == 2 */
  function Dimensions(s: string): Option<(int, int)> {
    var w := Scan(s);
    if w.None? || w.value.1 == "" || w.value.1[0] != 'x' then None
    else
      var h := Scan(w.value.1[1..]);
      if h.None? then None else Some((w.value.0, h.value.0))
  }

  lemma {:induction false} ValueOfDigits(n: nat, rest: string)
    ensures Value(Digits(n) + rest, 0) == Value(rest, n)
    decreases n
  {
    var d := ['0' + (n % 10) as char];
    if n >= 10 {
      assert Digits(n) + rest == Digits(n / 10) + (d + rest);
      ValueOfDigits(n / 10, d + rest);
      assert (d + rest)[1..] == rest;
    } else {
      assert (d + rest)[1..] == rest;
    }
  }

  /** Reading back a printed number. */
  lemma AtoiReadsPrint(v: int)
    ensures Atoi(Print(v)) == v && Print(v) != "" && Print(v)[0] != 't'
  {
    var n := if v < 0 then -v else v;
    ValueOfDigits(n, "");
    assert Digits(n) + "" == Digits(n);
    if v < 0 {
      assert Print(v)[1..] == Digits(n);
    }
  }

  lemma ScanReadsDigits(n: nat, rest: string)
    requires rest == "" || !IsDigit(rest[0])
    ensures Scan(Digits(n) + rest) == Some((n, rest))
    ensures Scan("-" + Digits(n) + rest) == Some((0 - n, rest))
  {
    ValueOfDigits(n, rest);
    var d, s := Digits(n) + rest, "-" + Digits(n) + rest;
    assert Value(d, 0) == (n, rest) && IsDigit(d[0]);
    assert s[1..] == d && s[0] == '-';
    assert Skip(s) == s && Skip(d) == d;
  }

  /** A printed number is read up to the first character that is no digit. */
  lemma ScanReadsPrint(v: int, rest: string)
    requires rest == "" || !IsDigit(rest[0])
    ensures Scan(Print(v) + rest) == Some((v, rest))
  {
    ScanReadsDigits(if v < 0 then -v else v, rest);
  }

  /** Two printed numbers with an "x" between them are read as a width and a height. */
  lemma DimensionsReadPrint(w: int, h: int)
    ensures Dimensions(Print(w) + "x" + Print(h)) == Some((w, h))
  {
    var rest := "x" + Print(h);
    assert Print(w) + "x" + Print(h) == Print(w) + rest && rest[1..] == Print(h);
    ScanReadsPrint(w, rest);
    ScanReadsPrint(h, "");
    assert Print(h) + "" == Print(h);
  }

  /** Numbers are printed in decimal: the last digit counts ones, the text before it tens. */
  lemma PrintIsDecimal(n: nat, digit: nat)
    requires digit < 10
    ensures Print(digit) == ["0123456789"[digit]]
    ensures n > 0 ==> Print(10 * n + digit) == Print(n) + ["0123456789"[digit]]
    ensures n > 0 ==> Print(0 - n) == "-" + Print(n)
  {
    var m := 10 * n + digit;
    assert m / 10 == n && m % 10 == digit;
    DigitOf(digit);
  }

  lemma DigitOf(digit: nat)
    requires digit < 10
    ensures "0123456789"[digit] == '0' + digit as char
  {
  }

  lemma TimesTen(n: nat, m: nat)
    requires n > 0 && m == 10 * n
    ensures Print(m) == Print(n) + "0"
  {
    PrintIsDecimal(n, 0);
  }

  /** The usual case. */
  lemma UsualDimensions()
    ensures Dimensions("800x600") == Some((800, 600))
  {
    var w, h := 800, 600;
    PrintIsDecimal(0, 8);
    PrintIsDecimal(0, 6);
    TimesTen(8, 80);
    TimesTen(80, w);
    TimesTen(6, 60);
    TimesTen(60, h);
    DimensionsReadPrint(w, h);
    assert Print(w) + "x" + Print(h) == "800x600";
  }
}

/** The C string functions that the journal code of debug-tools/shark/analyze.c uses. */
module JournalText {
  import opened Wrappers

  const INT_MIN: int := -0x8000_0000
  const INT_MAX: int := 0x7fff_ffff
  const UINT_SPAN: int := 0x1_0000_0000

  function Digit(d: nat): char
    requires d < 10
  {
    '0' + d as char
  }

  /** sprintf with %u, %d and %ld. */
  function Digits(n: nat): (s: string)
    ensures s != "" && forall i :: 0 <= i < |s| ==> '0' <= s[i] <= '9'
  {
    if n < 10 then [Digit(n)] else Digits(n / 10) + [Digit(n % 10)]
  }

  function Print(n: int): string {
    if n < 0 then "-" + Digits(-n) else Digits(n)
  }

  /** The numerals are decimal. */
  lemma Decimal(n: nat)
    ensures |Digits(n)| == 1 <==> n < 10
    ensures n >= 10 ==> Digits(n) == Digits(n / 10) + Digits(n % 10)
    ensures Digits(0) == "0" && Digits(9) == "9" && Digits(4096) == "4096" && Print(-17) == "-17"
  {
    assert Digits(4) == "4" && Digits(40) == "40" && Digits(409) == "409" && Digits(17) == "17";
  }

  /** The value of the digits at the front, after `acc`. */
  function Scan(acc: nat, s: string): nat
    decreases |s|
  {
    if s == "" || !('0' <= s[0] <= '9') then acc else Scan(acc * 10 + (s[0] - '0') as nat, s[1..])
  }

  /** Conversion to int. */
  function ToInt32(n: int): (r: int)
    ensures INT_MIN <= r <= INT_MAX
    ensures INT_MIN <= n <= INT_MAX <==> r == n
    ensures -UINT_SPAN / 2 <= n < UINT_SPAN ==> ToUint32(r) == ToUint32(n)
  {
    var u := n % UINT_SPAN;
    if u <= INT_MAX then u else u - UINT_SPAN
  }

  function ToUint32(n: int): nat { n % UINT_SPAN }

  /** atoi, the number read cut to int as the usual libraries do it. */
  function Atoi(s: string): int {
    if s != "" && s[0] == '-' then ToInt32(0 - Scan(0, s[1..])) else ToInt32(Scan(0, s))
  }

  predicate NoDigitFirst(s: string) { s == "" || !('0' <= s[0] <= '9') }

  lemma {:induction false} ScanDigits(n: nat, rest: string)
    ensures Scan(0, Digits(n) + rest) == Scan(n, rest)
  {
    if n < 10 {
      assert (Digits(n) + rest)[1..] == rest;
    } else {
      var last := [Digit(n % 10)] + rest;
      assert Digits(n) + rest == Digits(n / 10) + last;
      ScanDigits(n / 10, last);
      assert last[1..] == rest;
    }
  }

  /** What was printed is read again, if an int can hold it. */
  lemma AtoiPrint(n: int, rest: string)
    requires NoDigitFirst(rest)
    ensures Atoi(Print(n) + rest) == ToInt32(n)
  {
    hide Digits;
    hide ToInt32;
    hide Scan;
    var a := if n < 0 then -n else n;
    ScanBack(a, rest);
    if n < 0 {
      assert Print(n) + rest == "-" + (Digits(a) + rest);
      assert (Print(n) + rest)[1..] == Digits(a) + rest;
    }
  }

  lemma ScanBack(n: nat, rest: string)
    requires NoDigitFirst(rest)
    ensures Scan(0, Digits(n) + rest) == n && Digits(n) + rest != "" && '0' <= (Digits(n) + rest)[0] <= '9'
  {
    ScanDigits(n, rest);
    hide Digits;
    assert (Digits(n) + rest)[0] == Digits(n)[0];
  }

  /** No `c` in `s`. */
  predicate Free(s: string, c: char) { forall i :: 0 <= i < |s| ==> s[i] != c }

  /** The length of the part before the first `c`. */
  function Before(s: string, c: char): (n: nat)
    ensures n <= |s| && Free(s[..n], c)
    ensures n < |s| ==> s[n] == c
  {
    if s == "" || s[0] == c then 0
    else
      var n := Before(s[1..], c);
      assert s[..n + 1] == [s[0]] + s[1..][..n];
      n + 1
  }

  lemma {:induction false} BeforeAt(a: string, c: char, rest: string)
    requires Free(a, c)
    ensures Before(a + [c] + rest, c) == |a|
    ensures Before(a, c) == |a|
  {
    if a != "" {
      assert (a + [c] + rest)[1..] == a[1..] + [c] + rest;
      BeforeAt(a[1..], c, rest);
    }
  }

  datatype Token = Token(text: string, rest: string)

  /** strtok_r with the delimiter " ": leading blanks are skipped, the rest begins behind the blank. */
  function Strtok(s: string): (t: Option<Token>)
    ensures t.Some? ==> |t.value.rest| < |s|
  {
    if s == "" then None
    else if s[0] == ' ' then Strtok(s[1..])
    else
      var n := Before(s, ' ');
      Some(Token(s[..n], if n < |s| then s[n + 1..] else ""))
  }

  lemma StrtokFirst(a: string, rest: string)
    requires a != "" && Free(a, ' ')
    ensures Strtok(a + " " + rest) == Some(Token(a, rest))
    ensures Strtok(a) == Some(Token(a, ""))
  {
    BeforeAt(a, ' ', rest);
    var s := a + " " + rest;
    assert s[..|a|] == a && s[|a| + 1..] == rest;
    assert a[..|a|] == a;
  }

  /** strchr (tok, '=') + 1; without a '=' there is no such place. */
  function AfterEq(tok: string): Option<string> {
    var n := Before(tok, '=');
    if n < |tok| then Some(tok[n + 1..]) else None
  }

  lemma AfterEqKey(key: string, value: string)
    requires Free(key, '=')
    ensures AfterEq(key + "=" + value) == Some(value)
  {
    BeforeAt(key, '=', value);
    assert (key + "=" + value)[|key| + 1..] == value;
  }

  /** getline from an offset: up to and with the next newline, or to the end; None at the end. */
  function Getline(text: string, off: nat): (l: Option<string>)
    requires off <= |text|
    ensures l.None? <==> off == |text|
    ensures l.Some? ==> l.value != "" && off + |l.value| <= |text|
  {
    if off == |text| then None
    else
      var n := Before(text[off..], '\n');
      Some(if off + n < |text| then text[off..off + n + 1] else text[off..])
  }

  lemma GetlineFirst(text: string, off: nat, line: string, rest: string)
    requires off <= |text| && text[off..] == line + "\n" + rest && Free(line, '\n')
    ensures Getline(text, off) == Some(line + "\n")
    ensures off + |line| + 1 <= |text| && text[off + |line| + 1..] == rest
  {
    BeforeAt(line, '\n', rest);
    var n := |line| + 1;
    assert |text[off..]| >= n;
    assert text[off..off + n] == text[off..][..n] == line + "\n";
    assert text[off + n..] == text[off..][n..] == rest;
  }

  predicate StartsWith(s: string, p: string) { |p| <= |s| && s[..|p|] == p }
}

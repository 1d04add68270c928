/** Numbers in the streams of the client library: printed in decimal or hexadecimal, and read back. */
module NumberText {
  import opened Streams

  function DigitChar(d: nat): (c: char)
    requires d < 16
    ensures !IsSpace(c)
  {
    if d < 10 then '0' + d as char else 'a' + (d - 10) as char
  }

  /** The value of a digit of either case, or -1 for other characters. */
  function DigitOf(c: char, base: nat): (d: int)
    requires base <= 16
    ensures -1 <= d < base
  {
    var d := if '0' <= c <= '9' then c as int - '0' as int
             else if 'a' <= c <= 'f' then c as int - 'a' as int + 10
             else if 'A' <= c <= 'F' then c as int - 'A' as int + 10
             else -1;
    if d < base then d else -1
  }

  /** The digits, in small and capital letters. */
  lemma DigitsAre(c: char, base: nat)
    requires base <= 16
    ensures DigitOf(c, base) >= 0 ==>
              c == "0123456789abcdef"[DigitOf(c, base)] || c == "0123456789ABCDEF"[DigitOf(c, base)]
    ensures forall k | 0 <= k < base ::
              DigitOf("0123456789abcdef"[k], base) == DigitOf("0123456789ABCDEF"[k], base) == k
  {
  }

  predicate AreDigits(s: string, base: nat)
    requires base <= 16
  {
    forall i | 0 <= i < |s| :: DigitOf(s[i], base) >= 0
  }

  /** Without leading zeros. */
  function Print(n: nat, base: nat): (s: string)
    requires 2 <= base <= 16
    ensures s != ""
  {
    if n < base then [DigitChar(n)] else Print(n / base, base) + [DigitChar(n % base)]
  }

  function ValueOf(s: string, base: nat): nat
    requires base <= 16
  {
    if s == "" then 0
    else
      var d := DigitOf(s[|s| - 1], base);
      ValueOf(s[..|s| - 1], base) * base + if d < 0 then 0 else d
  }

  lemma DigitRoundTrip(d: nat, base: nat)
    requires d < base <= 16
    ensures DigitOf(DigitChar(d), base) == d
  {
  }

  lemma {:induction false} PrintRoundTrip(n: nat, base: nat)
    requires 2 <= base <= 16
    ensures AreDigits(Print(n, base), base) && ValueOf(Print(n, base), base) == n && NoSpaces(Print(n, base))
    decreases n
  {
    if n < base {
      DigitRoundTrip(n, base);
      LongerValue("", n, base);
    } else {
      var q, d := Split(n, base);
      PrintRoundTrip(q, base);
      LongerValue(Print(q, base), d, base);
    }
  }

  /** Numbers are printed without leading zeros, with small letters. */
  lemma {:induction false} PrintedForm(n: nat, base: nat)
    requires 2 <= base <= 16
    ensures var s := Print(n, base);
            && (s[0] == '0' ==> s == "0" && n == 0)
            && forall i | 0 <= i < |s| :: '0' <= s[i] <= '9' || 'a' <= s[i] <= 'f'
    decreases n
  {
    if n >= base {
      var q, d := Split(n, base);
      PrintedForm(q, base);
      assert Print(n, base) == Print(q, base) + [DigitChar(d)];
      if Print(n, base)[0] == '0' { NotZero(n, base); }
    }
  }

  lemma NotZero(n: nat, base: nat)
    requires 2 <= base <= n
    ensures n / base > 0
  {
    var q, d := Split(n, base);
    ZeroTimes(q, base);
  }

  lemma ZeroTimes(q: nat, base: nat)
    ensures q == 0 ==> q * base == 0
  {
  }

  lemma LongerValue(s: string, d: nat, base: nat)
    requires d < base <= 16 && AreDigits(s, base)
    ensures AreDigits(s + [DigitChar(d)], base)
    ensures ValueOf(s + [DigitChar(d)], base) == ValueOf(s, base) * base + d
  {
    DigitRoundTrip(d, base);
    assert (s + [DigitChar(d)])[..|s|] == s;
  }

  lemma Split(n: nat, base: nat) returns (q: nat, d: nat)
    requires 2 <= base <= n
    ensures q == n / base < n && d == n % base < base && n == q * base + d
  {
    q, d := n / base, n % base;
    assert n == q * base + d;
    AtLeastDoubled(q, base);
  }

  lemma AtLeastDoubled(q: nat, base: nat)
    requires base >= 2
    ensures q * base >= 2 * q
  {
  }

  function LeadingDigits(s: string, base: nat): (n: nat)
    requires base <= 16
    ensures n <= |s| && AreDigits(s[..n], base)
  {
    if s == "" || DigitOf(s[0], base) < 0 then 0
    else
      var n := 1 + LeadingDigits(s[1..], base);
      assert forall i | 1 <= i < n :: s[..n][i] == s[1..][..n - 1][i - 1];
      n
  }

  /** The text does not go on with another digit. */
  predicate Stops(rest: string, base: nat)
    requires base <= 16
  {
    rest == "" || DigitOf(rest[0], base) < 0
  }

  lemma {:induction false} LeadingDigitsAre(s: string, rest: string, base: nat)
    requires base <= 16 && AreDigits(s, base) && Stops(rest, base)
    ensures LeadingDigits(s + rest, base) == |s|
  {
    if s == "" {
      assert s + rest == rest;
    } else {
      assert (s + rest)[1..] == s[1..] + rest;
      LeadingDigitsAre(s[1..], rest, base);
    }
  }

  /** What an extraction finds: no text, no number, or a number and the text behind it. */
  datatype Scan = Nothing | NoDigits | Scanned(negative: bool, size: nat, rest: string)

  predicate IsSign(c: char) {
    c == '+' || c == '-'
  }

  /** The characters that `stream >> number` takes for a decimal number. */
  function ScanNumber(text: string): (r: Scan)
    ensures r.Scanned? ==> |r.rest| < |text|
  {
    var t := SkipSpaces(text);
    if t == "" then Nothing
    else
      var u := if IsSign(t[0]) then t[1..] else t;
      var n := LeadingDigits(u, 10);
      if n == 0 then NoDigits else Scanned(t[0] == '-', ValueOf(u[..n], 10), u[n..])
  }

  lemma ScanNumberIs(n: nat, rest: string)
    requires Stops(rest, 10)
    ensures ScanNumber(" " + Print(n, 10) + rest) == Scanned(false, n, rest)
  {
    var s := Print(n, 10);
    PrintRoundTrip(n, 10);
    assert " " + s + rest == " " + (s + rest);
    assert DigitOf(s[0], 10) >= 0 && DigitOf('+', 10) < 0 && DigitOf('-', 10) < 0;
    SkipSpacesIs(" ", s + rest);
    LeadingDigitsAre(s, rest, 10);
    assert (s + rest)[..|s|] == s && (s + rest)[|s|..] == rest;
  }

  lemma ScanSigned(sign: string, n: nat, rest: string)
    requires Stops(rest, 10) && (sign == "-" || sign == "+")
    ensures ScanNumber(" " + (sign + (Print(n, 10) + rest))) == Scanned(sign == "-", n, rest)
  {
    var s := Print(n, 10);
    var t := sign + (s + rest);
    PrintRoundTrip(n, 10);
    SkipSpacesIs(" ", t);
    LeadingDigitsAre(s, rest, 10);
    DigitsEnd(t, s, rest);
  }

  lemma DigitsEnd(t: string, s: string, rest: string)
    requires |t| == 1 + |s| + |rest| && t[1..] == s + rest
    ensures t[1..][..|s|] == s && t[1..][|s|..] == rest
  {
  }

  /** An input stream: the text that is left, or none any more once an extraction has failed. */
  datatype Stream = Good(text: string) | Failed

  /** `stream >> number` for an unsigned type. Where nothing is left, the variable keeps the value that it has. A text
      that is no number stores 0, and one that is too large the largest value; both end the stream. */
  function ReadUnsigned(s: Stream, max: nat, unset: nat): (r: (nat, Stream))
    ensures r.1.Good? ==> s.Good? && |r.1.text| < |s.text|
    ensures unset <= max ==> r.0 <= max
  {
    if s.Failed? then (unset, Failed)
    else
      match ScanNumber(s.text)
      case Nothing => (unset, Failed)
      case NoDigits => (0, Failed)
      case Scanned(negative, size, rest) =>
        if size > max then (max, Failed)
        else (if negative && size > 0 then max + 1 - size else size, Good(rest))
  }

  /** The same for a 32-bit int. */
  function ReadInt(s: Stream, unset: int): (r: (int, Stream))
    ensures r.1.Good? ==> s.Good? && |r.1.text| < |s.text|
  {
    if s.Failed? then (unset, Failed)
    else
      match ScanNumber(s.text)
      case Nothing => (unset, Failed)
      case NoDigits => (0, Failed)
      case Scanned(negative, size, rest) =>
        var n: int := size;
        var value := if negative then -n else n;
        if value < -0x8000_0000 then (-0x8000_0000, Failed)
        else if value > 0x7FFF_FFFF then (0x7FFF_FFFF, Failed)
        else (value, Good(rest))
  }

  /** What `stream >> number` makes of every written number, with and without a sign: a negative number of an unsigned
      type wraps round, and what does not fit stores the nearest value and ends the stream. */
  lemma NumbersRead(n: nat, negative: bool, rest: string, max: nat, unset: nat, before: int)
    requires Stops(rest, 10)
    ensures var s := Good(" " + ((if negative then "-" else "+") + (Print(n, 10) + rest)));
            && ReadUnsigned(s, max, unset)
               == (if n > max then (max, Failed) else if negative && n > 0 then (max + 1 - n, Good(rest))
                   else (n, Good(rest)))
            && var value: int := if negative then 0 - n as int else n as int;
               ReadInt(s, before)
               == if value < -0x8000_0000 then (-0x8000_0000, Failed)
                  else if value > 0x7FFF_FFFF then (0x7FFF_FFFF, Failed) else (value, Good(rest))
    ensures ReadUnsigned(Good(" " + Print(n, 10) + rest), max, unset)
            == if n > max then (max, Failed) else (n, Good(rest))
  {
    ScanSigned(if negative then "-" else "+", n, rest);
    ScanNumberIs(n, rest);
  }

  /** A word that is no number stores 0, and at the end of the text nothing is stored; both end the stream. */
  lemma NoNumberRead(s: string, max: nat, unset: nat, before: int, flag: bool)
    requires SkipSpaces(s) == "" || (!IsSign(SkipSpaces(s)[0]) && DigitOf(SkipSpaces(s)[0], 10) < 0)
    ensures var ended := SkipSpaces(s) == "";
            && ReadUnsigned(Good(s), max, unset) == (if ended then unset else 0, Failed)
            && ReadInt(Good(s), before) == (if ended then before else 0, Failed)
            && ReadBool(Good(s), flag) == (if ended then flag else false, Failed)
    ensures ReadUnsigned(Failed, max, unset) == (unset, Failed) && ReadInt(Failed, before) == (before, Failed)
    ensures ReadBool(Failed, flag) == (flag, Failed) && ReadColor(Failed, unset) == (unset, Failed)
  {
  }

  /** A bool is read from 0 and 1; other numbers store true and end the stream. */
  lemma FlagsRead(n: nat, rest: string, unset: bool)
    requires Stops(rest, 10)
    ensures ReadBool(Good(" " + Print(n, 10) + rest), unset) == (n > 0, if n <= 1 then Good(rest) else Failed)
  {
    ScanNumberIs(n, rest);
  }

  /** And for a bool: numbers other than 0 and 1 store true and end the stream. */
  function ReadBool(s: Stream, unset: bool): (r: (bool, Stream))
    ensures r.1.Good? ==> s.Good? && |r.1.text| < |s.text|
  {
    if s.Failed? then (unset, Failed)
    else
      match ScanNumber(s.text)
      case Nothing => (unset, Failed)
      case NoDigits => (false, Failed)
      case Scanned(negative, size, rest) =>
        if size == 0 then (false, Good(rest))
        else if size == 1 && !negative then (true, Good(rest))
        else (true, Failed)
  }

  /** `stream >> color`: a word is always converted, and where none is left the color is never given a value. */
  function ReadColor(s: Stream, unset: nat): (r: (nat, Stream))
    ensures r.1.Good? ==> s.Good? && |r.1.text| < |s.text|
    ensures unset < 0x1_0000_0000 ==> r.0 < 0x1_0000_0000
  {
    if s.Failed? then (unset, Failed)
    else
      var word := ReadWord(s.text);
      if word.0 == "" then (unset, Failed) else (HexWord(word.0), Good(word.1))
  }

  /** WiflyColor::ToARGB: a 32-bit hexadecimal number with or without its prefix. */
  function HexWord(word: string): (n: nat)
    ensures n < 0x1_0000_0000
  {
    var u := if word != "" && IsSign(word[0]) then word[1..] else word;
    var t := if |u| >= 2 && u[0] == '0' && (u[1] == 'x' || u[1] == 'X') then u[2..] else u;
    var size := ValueOf(t[..LeadingDigits(t, 16)], 16);
    if size >= 0x1_0000_0000 then 0xFFFF_FFFF
    else if word != "" && word[0] == '-' && size > 0 then 0x1_0000_0000 - size
    else size
  }

  /** Every word is converted, also the last one of the text. */
  lemma ColorRead(word: string, rest: string, unset: nat)
    requires word != "" && NoSpaces(word) && Separated(rest)
    ensures ReadColor(Good(" " + word + rest), unset) == (HexWord(word), Good(rest))
    ensures ReadColor(Good(""), unset) == (unset, Failed)
  {
    ReadWordIs(" ", word, rest);
  }

  function HexText(n: nat): string {
    "0x" + Print(n, 16)
  }

  lemma HexWordIs(n: nat)
    requires n < 0x1_0000_0000
    ensures HexWord(HexText(n)) == n && NoSpaces(HexText(n))
  {
    var s := Print(n, 16);
    PrintRoundTrip(n, 16);
    assert HexText(n)[2..] == s;
    LeadingDigitsAre(s, "", 16);
    assert s + "" == s && s[..|s|] == s;
  }

  /** Words without the prefix, and numbers that do not fit 32 bits. */
  lemma HexWordPlain(n: nat)
    ensures HexWord(Print(n, 16)) == (if n < 0x1_0000_0000 then n else 0xFFFF_FFFF)
    ensures HexWord("-" + Print(n, 16))
            == if n == 0 then 0 else if n < 0x1_0000_0000 then 0x1_0000_0000 - n else 0xFFFF_FFFF
  {
    var s := Print(n, 16);
    PrintRoundTrip(n, 16);
    PrintedForm(n, 16);
    LeadingDigitsAre(s, "", 16);
    assert s + "" == s && s[..|s|] == s && ("-" + s)[1..] == s;
  }
}

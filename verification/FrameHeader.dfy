/** The header line `FILE:<name>:<size>\n`: how it is written and how it is parsed. */
module FrameHeader {
  import opened Options
  import opened Text

  function DigitChar(d: nat): (c: char)
    requires d < 10
    ensures IsDigit(c) && c as int - '0' as int == d
  {
    '0' + d as char
  }

  /** The decimal numeral of n, as the sender writes a file size. */
  function Decimal(n: nat): (s: string)
    ensures s != "" && AllDigits(s)
  {
    if n < 10 then [DigitChar(n)] else Decimal(n / 10) + [DigitChar(n % 10)]
  }

  function DigitsValue(s: string): nat
    requires AllDigits(s)
  {
    if s == "" then 0 else
      assert IsDigit(s[|s| - 1]);
      10 * DigitsValue(s[..|s| - 1]) + (s[|s| - 1] as int - '0' as int)
  }

  lemma {:induction false} DecimalRoundTrip(n: nat)
    ensures DigitsValue(Decimal(n)) == n
  {
    if n >= 10 {
      DecimalRoundTrip(n / 10);
      assert Decimal(n)[..|Decimal(n)| - 1] == Decimal(n / 10);
    } else {
      assert Decimal(n)[..0] == "";
    }
  }

  function Pow10(n: nat): nat {
    if n == 0 then 1 else 10 * Pow10(n - 1)
  }

  lemma TenTimes(x: nat, p: nat, y: nat)
    ensures 10 * (x * p + y) == x * (10 * p) + 10 * y
  {
  }

  /** Digits count by their place, the first ones most. */
  lemma {:induction false} DigitsValueConcat(a: string, b: string)
    requires AllDigits(a) && AllDigits(b)
    ensures AllDigits(a + b) && DigitsValue(a + b) == DigitsValue(a) * Pow10(|b|) + DigitsValue(b)
  {
    if b == "" {
      assert a + b == a;
    } else {
      var n := |b| - 1;
      DigitsValueConcat(a, b[..n]);
      assert (a + b)[..|a + b| - 1] == a + b[..n];
      TenTimes(DigitsValue(a), Pow10(n), DigitsValue(b[..n]));
    }
  }

  const INT64_LIMIT: int := 0x8000_0000_0000_0000

  /** QString::toLongLong: surrounding blanks and a sign are accepted, anything else reads as 0. */
  function ToLongLong(text: string): int {
    var t := Trimmed(text);
    var negative := t != "" && t[0] == '-';
    var digits := if t != "" && (t[0] == '-' || t[0] == '+') then t[1..] else t;
    if digits == "" || !AllDigits(digits) then 0
    else
      var v: int := if negative then -(DigitsValue(digits) as int) else DigitsValue(digits);
      if -INT64_LIMIT <= v < INT64_LIMIT then v else 0
  }

  /** A numeral as toLongLong takes it, its parts apart. */
  datatype Numeral = Numeral(front: string, sign: string, digits: string, back: string) {
    predicate WellFormed() {
      && Blank(front) && Blank(back)
      && (sign == "" || sign == "+" || sign == "-")
      && AllDigits(digits) && digits != ""
    }

    function Written(): string {
      front + sign + digits + back
    }

    function Value(): int
      requires WellFormed()
    {
      if sign == "-" then -(DigitsValue(digits) as int) else DigitsValue(digits)
    }
  }

  /** Blanks, a sign and digits give their value when it has 64 bits, and 0 otherwise. */
  lemma ToLongLongOfNumeral(n: Numeral)
    requires n.WellFormed()
    ensures ToLongLong(n.Written()) ==
      if -0x8000_0000_0000_0000 <= n.Value() <= 0x7FFF_FFFF_FFFF_FFFF then n.Value() else 0
  {
    var t := n.sign + n.digits;
    assert t[|t| - 1] == n.digits[|n.digits| - 1];
    assert n.Written() == n.front + t + n.back;
    TrimsBlanks(n.front, t, n.back);
    assert n.sign == "" ==> t == n.digits;
    assert n.sign != "" ==> t[1..] == n.digits;
  }

  lemma Assembled(n: Numeral, t: string)
    requires t == n.sign + n.digits
    ensures n.Written() == n.front + t + n.back
  {
  }

  /** Nothing else gives a size other than 0. */
  lemma OnlyNumeralsCount(text: string)
    requires ToLongLong(text) != 0
    ensures exists n: Numeral :: n.WellFormed() && text == n.Written()
  {
    hide Trimmed, Blank, AllDigits, DigitsValue;
    var a, b := TrimmedCuts(text);
    var t := Trimmed(text);
    var sign := if t[0] == '-' || t[0] == '+' then t[..1] else "";
    var n := Numeral(a, sign, t[|sign|..], b);
    assert t == sign + n.digits;
    Assembled(n, t);
    assert n.WellFormed();
  }

  predicate CleanName(name: string) {
    ':' !in name && '\n' !in name
  }

  const PREFIX := "FILE:"

  /** The name and size announced by a line, if it is a well-formed header. */
  function ParseHeader(line: string): (r: Option<(string, int)>)
    ensures r.Some? ==> ':' !in r.value.0 && forall x :: x in r.value.0 ==> x in Trimmed(line)
  {
    if PREFIX <= line then
      var parts := Split(Trimmed(line), ':');
      if |parts| == 3 then Some((parts[1], ToLongLong(parts[2]))) else None
    else None
  }

  /** A header line around a size already written out. */
  function HeaderText(name: string, size: string): string {
    PREFIX + name + ":" + size + "\n"
  }

  /** The header the sender writes before a file of the given size. */
  function Header(name: string, size: nat): string {
    HeaderText(name, Decimal(size))
  }

  lemma HeaderParts(name: string, size: string)
    requires ':' !in name && ':' !in size
    ensures Split("FILE" + ":" + name + ":" + size, ':') == ["FILE", name, size]
  {
    var tail := name + ":" + size;
    assert "FILE" + ":" + name + ":" + size == "FILE" + ":" + tail;
    SplitFirst("FILE", ':', tail);
    SplitFirst(name, ':', size);
    SplitFirst(size, ':', "");
  }

  /** A name without colon is announced as it stands, with the value of the size text. */
  lemma HeaderTextParses(name: string, size: string)
    requires ':' !in name && ':' !in size && size != "" && !IsSpace(size[|size| - 1])
    ensures ParseHeader(HeaderText(name, size)) == Some((name, ToLongLong(size)))
  {
    hide ToLongLong, TrimLeft, TrimRight, Split;
    var body := "FILE" + ":" + name + ":" + size;
    assert HeaderText(name, size) == body + "\n" && PREFIX <= body + "\n";
    TrimmedKeeps(body);
    HeaderParts(name, size);
  }

  /**
   A line is a header exactly when it begins with "FILE:" and has two colons; the part between
   them is the name and the part behind them the size text.
   */
  lemma HeaderIff(line: string)
    ensures ParseHeader(line).Some? <==> "FILE:" <= line && Occurrences(Trimmed(line), ':') == 2
    ensures forall name, size ::
      ':' !in name && ':' !in size && Trimmed(line) == "FILE" + ":" + name + ":" + size && "FILE:" <= line ==>
      ParseHeader(line) == Some((name, ToLongLong(size)))
  {
    hide ToLongLong, Trimmed;
    SplitCount(Trimmed(line), ':');
    forall name, size |
      ':' !in name && ':' !in size && Trimmed(line) == "FILE" + ":" + name + ":" + size && "FILE:" <= line
      ensures ParseHeader(line) == Some((name, ToLongLong(size)))
    {
      HeaderParts(name, size);
    }
  }

  lemma ColonsOfPrefix()
    ensures Occurrences("FILE:", ':') == 1 && Occurrences(":", ':') == 1
  {
    OccurrencesConcat("FILE", ":", ':');
    OccursOrNot("FILE", ':');
    assert "FILE" + ":" == "FILE:" && ":"[1..] == "";
  }

  /** The sender's header of a name with a colon in it, such as that of an IPv6 address, is no header. */
  lemma ColonNameIsNoHeader(name: string, size: string)
    requires ':' in name && ':' !in size && size != "" && !IsSpace(size[|size| - 1])
    ensures ParseHeader(HeaderText(name, size)) == None
  {
    var body := "FILE:" + name + ":" + size;
    assert HeaderText(name, size) == body + "\n";
    TrimmedKeeps(body);
    OccurrencesConcat("FILE:" + name + ":", size, ':');
    OccurrencesConcat("FILE:" + name, ":", ':');
    OccurrencesConcat("FILE:", name, ':');
    OccursOrNot(name, ':');
    ColonsOfPrefix();
    HeaderIff(body + "\n");
  }

  lemma DecimalIsDigits(n: nat)
    ensures forall x :: x in Decimal(n) ==> IsDigit(x)
  {
  }

  lemma ToLongLongOfDecimal(n: nat)
    requires n < INT64_LIMIT
    ensures ToLongLong(Decimal(n)) == n
  {
    TrimmedKeeps(Decimal(n));
    DecimalRoundTrip(n);
  }

  lemma ToLongLongOfNegative(n: int)
    requires 0 < n <= INT64_LIMIT
    ensures ToLongLong("-" + Decimal(n)) == -n
  {
    var t := "-" + Decimal(n);
    assert t[|t| - 1] == Decimal(n)[|Decimal(n)| - 1];
    TrimmedKeeps(t);
    assert t[1..] == Decimal(n);
    DecimalRoundTrip(n);
  }

  /** A header of a name without colon announces exactly that name and size. */
  lemma HeaderRoundTrip(name: string, size: nat)
    requires ':' !in name && size < INT64_LIMIT
    ensures ParseHeader(Header(name, size)) == Some((name, size))
    ensures Header(name, size) == "FILE:" + name + ":" + Decimal(size) + "\n"
  {
    DecimalIsDigits(size);
    HeaderTextParses(name, Decimal(size));
    ToLongLongOfDecimal(size);
  }

  /** A header may announce any negative size; nothing in the parse refuses it. */
  lemma NegativeHeader(name: string, n: int)
    requires ':' !in name && 0 < n <= INT64_LIMIT
    ensures ParseHeader(HeaderText(name, "-" + Decimal(n))) == Some((name, -n))
  {
    var size := "-" + Decimal(n);
    assert size[|size| - 1] == Decimal(n)[|Decimal(n)| - 1];
    DecimalIsDigits(n);
    HeaderTextParses(name, size);
    ToLongLongOfNegative(n);
  }
}

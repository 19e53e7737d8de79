/** The text handling behind the GUI's back-fill of the last record's length
    (MainWindow::process, after the window loop): the last row of the info table
    holds its record's start offset as "...(N)"; the offset is read back out of
    that text and the length cell is rewritten as the decimal text of
    `position - N`, computed in 64-bit unsigned (size_t) arithmetic. */
module OffsetCell {

  /** 2^64: the range of size_t and of the value QString::toULongLong returns. */
  const U64: nat := 0x1_0000_0000_0000_0000

  predicate IsDigit(c: char) { '0' <= c <= '9' }

  function DigitValue(c: char): nat
    requires IsDigit(c)
  {
    c as int - '0' as int
  }

  function DigitChar(d: nat): (c: char)
    requires d < 10
    ensures IsDigit(c) && DigitValue(c) == d
  {
    ('0' as int + d) as char
  }

  predicate AllDigits(s: string)
  {
    forall i :: 0 <= i < |s| ==> IsDigit(s[i])
  }

  /** The value of a run of decimal digits, most significant first. */
  function DecimalValue(s: string): nat
    requires AllDigits(s)
  {
    if s == [] then 0 else DecimalValue(s[..|s| - 1]) * 10 + DigitValue(s[|s| - 1])
  }

  /** QString::number of an unsigned value: its shortest decimal text. */
  function Decimal(n: nat): (s: string)
    ensures s != [] && AllDigits(s)
    ensures n > 0 ==> s[0] != '0'
  {
    if n < 10 then [DigitChar(n)] else Decimal(n / 10) + [DigitChar(n % 10)]
  }

  lemma {:induction false} DecimalRoundTrip(n: nat)
    ensures DecimalValue(Decimal(n)) == n
  {
    if n >= 10 {
      var s := Decimal(n);
      assert s[..|s| - 1] == Decimal(n / 10);
      DecimalRoundTrip(n / 10);
    }
  }

  /** QString::toULongLong in base 10 without an `ok` flag: the value of a
      non-empty run of decimal digits that fits in 64 bits, and 0 for any
      other text (empty, a non-digit anywhere, or too large). */
  function ToULongLong(s: string): (v: nat)
    ensures v < U64
    ensures v > 0 ==> s != [] && AllDigits(s) && v == DecimalValue(s)
    ensures s != [] && AllDigits(s) && DecimalValue(s) < U64 ==> v == DecimalValue(s)
  {
    if s != [] && AllDigits(s) && DecimalValue(s) < U64 then DecimalValue(s) else 0
  }

  /** What QString::number writes, QString::toULongLong reads back. */
  lemma ToULongLongOfDecimal(n: nat)
    requires n < U64
    ensures ToULongLong(Decimal(n)) == n
  {
    DecimalRoundTrip(n);
  }

  /** QString::indexOf of a character, with |s| standing for "absent" (-1). */
  function FirstIndex(s: string, c: char): (i: nat)
    ensures i <= |s|
    ensures i < |s| ==> s[i] == c
    ensures forall j :: 0 <= j < i ==> s[j] != c
  {
    if s == [] then 0 else if s[0] == c then 0 else 1 + FirstIndex(s[1..], c)
  }

  /** QString::remove of a one-character string: every occurrence goes. */
  function RemoveAll(s: string, c: char): (r: string)
    ensures c !in r
    ensures forall x :: x in r <==> x in s && x != c
  {
    if s == [] then [] else (if s[0] == c then [] else [s[0]]) + RemoveAll(s[1..], c)
  }

  lemma {:induction false} RemoveAllAbsent(s: string, c: char)
    requires c !in s
    ensures RemoveAll(s, c) == s
  {
    if s != [] {
      RemoveAllAbsent(s[1..], c);
    }
  }

  lemma {:induction false} RemoveAllAppend(a: string, b: string, c: char)
    ensures RemoveAll(a + b, c) == RemoveAll(a, c) + RemoveAll(b, c)
  {
    if a != [] {
      assert (a + b)[1..] == a[1..] + b;
      RemoveAllAppend(a[1..], b, c);
    } else {
      assert a + b == b;
    }
  }

  /** The text the offset is parsed from: everything after the first '(' --
      or the whole text when there is none, because indexOf's -1 becomes 0
      once one is added to it as a size_t -- with every ')' removed. */
  function OffsetField(text: string): string
  {
    var i := FirstIndex(text, '(');
    RemoveAll(if i < |text| then text[i + 1..] else text, ')')
  }

  /** The start offset of the last record, as read back from its table cell. */
  function LastNalOffset(text: string): nat
  {
    ToULongLong(OffsetField(text))
  }

  /** The new length cell: QString::number(position - offset) with both in size_t. */
  function LengthCell(position: nat, offset: nat): string
  {
    Decimal((position - offset) % U64)
  }

  /** The first occurrence of `c` in `a + [c] + b` is the one after `a` when
      `a` has none. */
  lemma {:induction false} FirstIndexAfter(a: string, c: char, b: string)
    requires c !in a
    ensures FirstIndex(a + [c] + b, c) == |a|
  {
    if a != [] {
      assert (a + [c] + b)[1..] == a[1..] + [c] + b;
      FirstIndexAfter(a[1..], c, b);
    } else {
      assert (a + [c] + b)[0] == c;
    }
  }

  /** A cell written as "<caption>(N)" with no '(' in the caption gives back N. */
  lemma OffsetRecovered(caption: string, n: nat)
    requires '(' !in caption && n < U64
    ensures LastNalOffset(caption + "(" + Decimal(n) + ")") == n
  {
    var d := Decimal(n);
    var text := caption + "(" + d + ")";
    var tail := d + ")";
    assert text == caption + ['('] + tail;
    FirstIndexAfter(caption, '(', tail);
    assert text[|caption| + 1..] == tail;
    DigitsHaveNoParen(d);
    RemoveAllAppend(d, ")", ')');
    RemoveAllAbsent(d, ')');
    assert RemoveAll(tail, ')') == d;
    assert OffsetField(text) == d;
    ToULongLongOfDecimal(n);
  }

  lemma DigitsHaveNoParen(d: string)
    requires AllDigits(d)
    ensures ')' !in d
  {
  }

  /** The length cell reads back as the distance from the offset to the
      position, and wraps around 2^64 when the offset lies beyond the position. */
  lemma LengthCellValue(position: nat, offset: nat)
    requires position < U64 && offset < U64
    ensures offset <= position ==> ToULongLong(LengthCell(position, offset)) == position - offset
    ensures position < offset ==> ToULongLong(LengthCell(position, offset)) == U64 + position - offset
  {
    ToULongLongOfDecimal((position - offset) % U64);
  }
}

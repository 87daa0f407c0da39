/** What a revealed, unmined cell shows: its label (the adjacent-mine count in decimal, or
    nothing for zero) and the colour the label is drawn in. */
module Display {

  function DigitChar(d: nat): char
    requires d < 10
  {
    ('0' as int + d) as char
  }

  predicate IsDigit(c: char) {
    '0' <= c <= '9'
  }

  /** The decimal numeral of `n`, most significant digit first, without leading zeros. */
  function Decimal(n: nat): (s: string)
    ensures |s| >= 1
    ensures forall i :: 0 <= i < |s| ==> IsDigit(s[i])
    ensures n < 10 ==> s == [DigitChar(n)]
    ensures n >= 10 ==> s[0] != '0'
  {
    if n < 10 then [DigitChar(n)] else Decimal(n / 10) + [DigitChar(n % 10)]
  }

  /** The value a string of decimal digits denotes. */
  function DecimalValue(s: string): int {
    if s == [] then 0 else 10 * DecimalValue(s[..|s| - 1]) + (s[|s| - 1] as int - '0' as int)
  }

  /** Reading back the numeral gives the number. */
  lemma {:induction false} DecimalRoundTrip(n: nat)
    ensures DecimalValue(Decimal(n)) == n
  {
    var s := Decimal(n);
    if n >= 10 {
      DecimalRoundTrip(n / 10);
      assert s[..|s| - 1] == Decimal(n / 10);
    }
  }

  /** The label shown on a revealed cell with `count` adjacent mines: blank for zero,
      the count in decimal otherwise. */
  function Label(count: nat): (r: string)
    ensures r == "" <==> count == 0
    ensures forall i :: 0 <= i < |r| ==> IsDigit(r[i])
  {
    if count > 0 then Decimal(count) else ""
  }

  /** A non-blank label reads back as the count; the counts 1 to 8 that a cell can have are
      single digits. */
  lemma LabelMeaning(count: nat)
    ensures count > 0 ==> DecimalValue(Label(count)) == count
    ensures 0 < count < 10 ==> Label(count) == [DigitChar(count)]
  {
    DecimalRoundTrip(count);
  }

  /** The colour table indexed by count; entry 0 is never used. */
  const Colors: seq<string> := ["black", "blue", "green", "red", "purple", "maroon", "turquoise", "gray"]

  /** The colour of the label for `count`: the table entry for 1 .. 7, black otherwise. */
  function ColorForCount(count: int): (r: string)
    ensures r in Colors
    ensures r == "black" <==> count <= 0 || count >= 8
  {
    if 0 < count < |Colors| then Colors[count] else "black"
  }

  /** The counts 1 .. 7 get pairwise different colours. */
  lemma ColorForCountTable(count: int, other: int)
    ensures 0 < count < 8 && 0 < other < 8 && count != other ==> ColorForCount(count) != ColorForCount(other)
  {
  }
}

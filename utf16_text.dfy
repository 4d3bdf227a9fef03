/** Text as Foundation's string APIs index it: a sequence of UTF-16 code units,
    with ranges given as a start location and a length in those units. */
module Utf16Text {

  newtype CodeUnit = x: int | 0 <= x < 0x1_0000

  type Text = seq<CodeUnit>

  /** The code unit of COMMERCIAL AT. */
  const AT: CodeUnit := 0x40

  /** An NSRange: start location and length, in code units. */
  datatype NSRange = NSRange(location: nat, length: nat)
  {
    /** One past the last unit of the range. */
    function End(): nat { location + length }

    /** Whether offset k lies inside the range. */
    predicate Covers(k: int) { location <= k < End() }

    /** Whether the range lies within a text of n units. */
    predicate Within(n: nat) { End() <= n }
  }

  /** Whether some range of the list covers offset k. */
  predicate CoveredBy(ranges: seq<NSRange>, k: int) {
    exists i :: 0 <= i < |ranges| && ranges[i].Covers(k)
  }

  /** Whether every range of the list lies within a text of n units. */
  predicate AllWithin(ranges: seq<NSRange>, n: nat) {
    forall i :: 0 <= i < |ranges| ==> ranges[i].Within(n)
  }
}

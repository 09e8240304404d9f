/**
 * A rule segment is a role, a capability or a user value, optionally prefixed
 * with the negation marker `!`. These helpers read the marker and the name.
 */
module Segments {
  import opened PhpStrings

  /** The segment's first character is `!` (`substr(segment, 0, 1) == '!'`). */
  predicate IsNegative(segment: string)
    ensures IsNegative(segment) <==> exists name :: segment == Segment(name, true)
  {
    if |segment| > 0 && segment[0] == '!' then
      assert segment == Segment(segment[1..], true);
      true
    else false
  }

  /**
   * The answer the underlying check must give for the segment to hold: true
   * exactly for a segment not written as a negated one.
   */
  predicate ExpectedValue(segment: string)
    ensures ExpectedValue(segment) <==> forall name :: segment != Segment(name, true)
  {
    !IsNegative(segment)
  }

  /** The name to check: the segment with every `!` removed, not only the leading one. */
  function RealName(segment: string): (name: string)
    ensures '!' !in name
    ensures '!' !in segment ==> name == segment
  {
    StripChar('!', segment)
  }

  /** Writes a plain name as a segment, negated or not: the inverse of the two readers above. */
  function Segment(name: string, negated: bool): string {
    if negated then "!" + name else name
  }

  /** Reading a written segment gives back its name and its polarity. */
  lemma SegmentRoundTrip(name: string, negated: bool)
    requires '!' !in name
    ensures RealName(Segment(name, negated)) == name
    ensures IsNegative(Segment(name, negated)) == negated
    ensures ExpectedValue(Segment(name, negated)) == !negated
  {
    if negated {
      StripCharConcat('!', "!", name);
    }
  }

  /** A leading `!` flips the expected value and leaves the name to check unchanged. */
  lemma NegatedSegment(segment: string)
    ensures RealName("!" + segment) == RealName(segment)
    ensures !ExpectedValue("!" + segment)
  {
    StripCharConcat('!', "!", segment);
  }
}

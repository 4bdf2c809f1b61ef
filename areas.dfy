/** Changed disk areas: half-open byte ranges of a disk image. */
module Areas {

  /** The byte range [offset, offset + length) of a disk image. */
  datatype Area = Area(offset: nat, length: nat) {

    /** One past the last byte of the area. */
    function End(): nat { offset + length }

    /** Byte `i` lies in the area. */
    predicate Contains(i: int) { offset <= i < End() }

    /** The whole area lies inside `outer`. */
    predicate Within(outer: Area) { outer.offset <= offset && End() <= outer.End() }
  }

  /** Offsets never decrease along `s`. */
  predicate SortedByOffset(s: seq<Area>) {
    forall i, j :: 0 <= i < j < |s| ==> s[i].offset <= s[j].offset
  }

  /** Every area of `s` ends more than `gap` bytes before any later area starts. */
  predicate Separated(s: seq<Area>, gap: nat) {
    forall i, j :: 0 <= i < j < |s| ==> s[i].End() + gap < s[j].offset
  }

  /** The start offsets of the areas of `s`. */
  function Offsets(s: seq<Area>): set<nat> {
    set i | 0 <= i < |s| :: s[i].offset
  }

  /** The end offsets of the areas of `s`. */
  function Ends(s: seq<Area>): set<nat> {
    set i | 0 <= i < |s| :: s[i].End()
  }

  /** Byte `i` lies in some area of `s`. */
  predicate Covered(s: seq<Area>, i: int) {
    exists k :: 0 <= k < |s| && s[k].Contains(i)
  }
}

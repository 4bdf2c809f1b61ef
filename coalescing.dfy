/**
 * Merging of changed areas (`coalesce` in lib/v2k/patch_apply.py).
 *
 * The areas are sorted by offset and swept left to right with a running
 * accumulator [curS, curE); an area that starts at most `gap` bytes past the
 * accumulator's end is absorbed into it, any other area closes the
 * accumulator and opens a new one.
 */
module Coalescing {
  import opened Common
  import opened Areas

  // ---------------------------------------------------------------------------
  // Sorting by offset (Python's stable `sorted(areas, key=lambda x: x[0])`)
  // ---------------------------------------------------------------------------

  /** Inserts `a` into the sorted `s` before the first area whose offset is not smaller. */
  function Insert(a: Area, s: seq<Area>): (r: seq<Area>)
    ensures |r| == |s| + 1
  {
    if s == [] || a.offset <= s[0].offset then [a] + s else [s[0]] + Insert(a, s[1..])
  }

  /** Stable insertion sort of `s` by offset. */
  function SortByOffset(s: seq<Area>): (r: seq<Area>)
    ensures |r| == |s|
  {
    if s == [] then [] else Insert(s[0], SortByOffset(s[1..]))
  }

  lemma {:induction false} InsertElements(a: Area, s: seq<Area>)
    ensures multiset(Insert(a, s)) == multiset(s) + multiset{a}
    ensures forall x :: x in Insert(a, s) ==> x == a || x in s
  {
    if s != [] && a.offset > s[0].offset {
      InsertElements(a, s[1..]);
      assert s == [s[0]] + s[1..];
    }
  }

  lemma {:induction false} InsertSorted(a: Area, s: seq<Area>)
    requires SortedByOffset(s)
    ensures SortedByOffset(Insert(a, s))
  {
    if s != [] && a.offset > s[0].offset {
      InsertSorted(a, s[1..]);
      InsertElements(a, s[1..]);
      var t := Insert(a, s[1..]);
      forall j | 0 <= j < |t| ensures s[0].offset <= t[j].offset {
        assert t[j] in t;
      }
    }
  }

  /** The sort yields a permutation of its input, ordered by offset. */
  lemma {:induction false} SortByOffsetCorrect(s: seq<Area>)
    ensures SortedByOffset(SortByOffset(s))
    ensures multiset(SortByOffset(s)) == multiset(s)
  {
    if s != [] {
      SortByOffsetCorrect(s[1..]);
      InsertSorted(s[0], SortByOffset(s[1..]));
      InsertElements(s[0], SortByOffset(s[1..]));
      assert s == [s[0]] + s[1..];
    }
  }

  /** Sorting an already sorted sequence changes nothing. */
  lemma {:induction false} SortByOffsetOfSorted(s: seq<Area>)
    requires SortedByOffset(s)
    ensures SortByOffset(s) == s
  {
    if s != [] {
      SortByOffsetOfSorted(s[1..]);
      assert s == [s[0]] + s[1..];
    }
  }

  // ---------------------------------------------------------------------------
  // The sweep
  // ---------------------------------------------------------------------------

  /**
   * The regions the sweep emits when the accumulator holds [curS, curE) and
   * `rest` is still to be visited.
   */
  function Sweep(curS: nat, curE: nat, rest: seq<Area>, gap: nat): seq<Area>
    requires curS <= curE
    decreases |rest|
  {
    if rest == [] then
      [Area(curS, curE - curS)]
    else if rest[0].offset <= curE + gap then
      Sweep(curS, Max(curE, rest[0].End()), rest[1..], gap)
    else
      [Area(curS, curE - curS)] + Sweep(rest[0].offset, rest[0].End(), rest[1..], gap)
  }

  /** Reference definition of `coalesce(areas, gap)`. */
  function Coalesced(areas: seq<Area>, gap: nat): seq<Area>
  {
    if areas == [] then []
    else
      var s := SortByOffset(areas);
      Sweep(s[0].offset, s[0].End(), s[1..], gap)
  }

  /** The precondition shared by the sweep lemmas: the sweep is visiting sorted areas. */
  ghost predicate SweepReady(curS: nat, curE: nat, rest: seq<Area>)
  {
    curS <= curE && SortedByOffset(rest) && (rest != [] ==> curS <= rest[0].offset)
  }

  /**
   * The sweep's output starts at the accumulator, reaches at least its end,
   * has at most one region per visited area plus one, and its regions are
   * separated by more than `gap`.
   */
  lemma {:induction false} SweepShape(curS: nat, curE: nat, rest: seq<Area>, gap: nat)
    requires SweepReady(curS, curE, rest)
    ensures var r := Sweep(curS, curE, rest, gap);
      1 <= |r| <= |rest| + 1 && r[0].offset == curS && curE <= r[0].End() && Separated(r, gap)
    decreases |rest|
  {
    if rest != [] {
      var a := rest[0];
      if a.offset <= curE + gap {
        SweepShape(curS, Max(curE, a.End()), rest[1..], gap);
      } else {
        SweepShape(a.offset, a.End(), rest[1..], gap);
        var t := Sweep(a.offset, a.End(), rest[1..], gap);
        var r := [Area(curS, curE - curS)] + t;
        forall i, j | 0 <= i < j < |r| ensures r[i].End() + gap < r[j].offset {
          if i == 0 && j > 1 {
            assert t[0].End() + gap < t[j - 1].offset;
          }
        }
      }
    }
  }

  /** Every visited area lies inside some region the sweep emits. */
  lemma {:induction false} SweepCovers(curS: nat, curE: nat, rest: seq<Area>, gap: nat)
    requires SweepReady(curS, curE, rest)
    ensures var r := Sweep(curS, curE, rest, gap);
      forall i :: 0 <= i < |rest| ==> exists k :: 0 <= k < |r| && rest[i].Within(r[k])
    decreases |rest|
  {
    if rest != [] {
      var a := rest[0];
      var r := Sweep(curS, curE, rest, gap);
      if a.offset <= curE + gap {
        var e := Max(curE, a.End());
        SweepCovers(curS, e, rest[1..], gap);
        SweepShape(curS, e, rest[1..], gap);
        assert r == Sweep(curS, e, rest[1..], gap);
        forall i | 0 <= i < |rest| ensures exists k :: 0 <= k < |r| && rest[i].Within(r[k]) {
          if i == 0 {
            assert rest[0].Within(r[0]);
          } else {
            assert rest[i] == rest[1..][i - 1];
          }
        }
        assert r == Sweep(curS, curE, rest, gap);
        assert forall i :: 0 <= i < |rest| ==> exists k :: 0 <= k < |r| && rest[i].Within(r[k]);
      } else {
        var t := Sweep(a.offset, a.End(), rest[1..], gap);
        SweepCovers(a.offset, a.End(), rest[1..], gap);
        SweepShape(a.offset, a.End(), rest[1..], gap);
        assert r == [Area(curS, curE - curS)] + t;
        forall i | 0 <= i < |rest| ensures exists k :: 0 <= k < |r| && rest[i].Within(r[k]) {
          if i == 0 {
            assert rest[0].Within(r[1]);
          } else {
            assert rest[i] == rest[1..][i - 1];
            var k :| 0 <= k < |t| && rest[i].Within(t[k]);
            assert r[k + 1] == t[k];
          }
        }
      }
    }
  }

  lemma OffsetsEndsCons(x: Area, s: seq<Area>)
    ensures Offsets([x] + s) == {x.offset} + Offsets(s)
    ensures Ends([x] + s) == {x.End()} + Ends(s)
  {
    var t := [x] + s;
    forall v | v in Offsets(s) ensures v in Offsets(t) {
      var i :| 0 <= i < |s| && v == s[i].offset;
      assert t[i + 1] == s[i];
    }
    forall v | v in Ends(s) ensures v in Ends(t) {
      var i :| 0 <= i < |s| && v == s[i].End();
      assert t[i + 1] == s[i];
    }
    assert t[0] == x;
  }

  /**
   * Every emitted region starts at the accumulator's start or at a visited
   * area's offset, and ends at the accumulator's end or at a visited area's end.
   */
  lemma {:induction false} SweepEndpoints(curS: nat, curE: nat, rest: seq<Area>, gap: nat)
    requires curS <= curE
    ensures Offsets(Sweep(curS, curE, rest, gap)) <= {curS} + Offsets(rest)
    ensures Ends(Sweep(curS, curE, rest, gap)) <= {curE} + Ends(rest)
    decreases |rest|
  {
    if rest == [] {
      OffsetsEndsCons(Area(curS, curE - curS), []);
    } else {
      var a := rest[0];
      OffsetsEndsCons(a, rest[1..]);
      assert [a] + rest[1..] == rest;
      if a.offset <= curE + gap {
        SweepEndpoints(curS, Max(curE, a.End()), rest[1..], gap);
      } else {
        SweepEndpoints(a.offset, a.End(), rest[1..], gap);
        OffsetsEndsCons(Area(curS, curE - curS), Sweep(a.offset, a.End(), rest[1..], gap));
      }
    }
  }

  /** Sweeping a non-empty list whose areas are already separated by more than `gap` emits that list. */
  lemma {:induction false} SweepOfSeparated(s: seq<Area>, gap: nat)
    requires s != [] && Separated(s, gap)
    ensures Sweep(s[0].offset, s[0].End(), s[1..], gap) == s
    decreases |s|
  {
    var rest := s[1..];
    assert Area(s[0].offset, s[0].End() - s[0].offset) == s[0];
    if rest == [] {
      assert s == [s[0]];
    } else {
      assert s[0].End() + gap < rest[0].offset;
      forall i, j | 0 <= i < j < |rest| ensures rest[i].End() + gap < rest[j].offset {
        assert rest[i] == s[i + 1] && rest[j] == s[j + 1];
      }
      SweepOfSeparated(rest, gap);
      assert s == [s[0]] + rest;
    }
  }

  // ---------------------------------------------------------------------------
  // Properties of coalesce
  // ---------------------------------------------------------------------------

  /**
   * The merged regions are separated by more than `gap` (so their offsets
   * strictly increase), and there are at least one and at most as many of them
   * as input areas.
   */
  lemma CoalescedShape(areas: seq<Area>, gap: nat)
    ensures areas == [] <==> Coalesced(areas, gap) == []
    ensures |Coalesced(areas, gap)| <= |areas|
    ensures Separated(Coalesced(areas, gap), gap)
  {
    if areas != [] {
      var s := SortByOffset(areas);
      SortByOffsetCorrect(areas);
      SweepShape(s[0].offset, s[0].End(), s[1..], gap);
    }
  }

  /** Every area of a sorted list lies inside one of the regions the sweep of the whole list emits. */
  lemma SweepCoversSorted(s: seq<Area>, gap: nat)
    requires s != [] && SortedByOffset(s)
    ensures forall j :: 0 <= j < |s| ==>
      exists k :: 0 <= k < |Sweep(s[0].offset, s[0].End(), s[1..], gap)| &&
        s[j].Within(Sweep(s[0].offset, s[0].End(), s[1..], gap)[k])
  {
    var r := Sweep(s[0].offset, s[0].End(), s[1..], gap);
    SweepShape(s[0].offset, s[0].End(), s[1..], gap);
    SweepCovers(s[0].offset, s[0].End(), s[1..], gap);
    forall j | 0 <= j < |s| ensures exists k :: 0 <= k < |r| && s[j].Within(r[k]) {
      if j == 0 {
        assert s[0].Within(r[0]);
      } else {
        assert s[j] == s[1..][j - 1];
      }
    }
  }

  /** Every input area lies inside one of the merged regions. */
  lemma CoalescedCovers(areas: seq<Area>, gap: nat)
    ensures forall i :: 0 <= i < |areas| ==>
      exists k :: 0 <= k < |Coalesced(areas, gap)| && areas[i].Within(Coalesced(areas, gap)[k])
  {
    if areas != [] {
      var s := SortByOffset(areas);
      SortByOffsetCorrect(areas);
      SweepCoversSorted(s, gap);
      var r := Coalesced(areas, gap);
      assert r == Sweep(s[0].offset, s[0].End(), s[1..], gap);
      forall i | 0 <= i < |areas| ensures exists k :: 0 <= k < |r| && areas[i].Within(r[k]) {
        assert areas[i] in multiset(areas);
        assert areas[i] in s;
      }
    }
  }

  /**
   * Every merged region starts at the offset of some input area and ends at
   * the end of some input area.
   */
  lemma CoalescedEndpoints(areas: seq<Area>, gap: nat)
    ensures Offsets(Coalesced(areas, gap)) <= Offsets(areas)
    ensures Ends(Coalesced(areas, gap)) <= Ends(areas)
  {
    if areas != [] {
      var s := SortByOffset(areas);
      SortByOffsetCorrect(areas);
      SweepEndpoints(s[0].offset, s[0].End(), s[1..], gap);
      OffsetsEndsCons(s[0], s[1..]);
      assert [s[0]] + s[1..] == s;
      forall v | v in Offsets(s) ensures v in Offsets(areas) {
        var i :| 0 <= i < |s| && v == s[i].offset;
        assert s[i] in multiset(areas);
        var j :| 0 <= j < |areas| && areas[j] == s[i];
      }
      forall v | v in Ends(s) ensures v in Ends(areas) {
        var i :| 0 <= i < |s| && v == s[i].End();
        assert s[i] in multiset(areas);
        var j :| 0 <= j < |areas| && areas[j] == s[i];
      }
    }
  }

  lemma SeparatedIsSorted(s: seq<Area>, gap: nat)
    requires Separated(s, gap)
    ensures SortedByOffset(s)
  {
    forall i, j | 0 <= i < j < |s| ensures s[i].offset <= s[j].offset {
      assert s[i].End() + gap < s[j].offset;
    }
  }

  /** Coalescing an already coalesced list changes nothing. */
  lemma CoalescedIdempotent(areas: seq<Area>, gap: nat)
    ensures Coalesced(Coalesced(areas, gap), gap) == Coalesced(areas, gap)
  {
    var m := Coalesced(areas, gap);
    CoalescedShape(areas, gap);
    if m != [] {
      SeparatedIsSorted(m, gap);
      SortByOffsetOfSorted(m);
      SweepOfSeparated(m, gap);
    }
  }

  // ---------------------------------------------------------------------------
  // The imperative sweep of the source
  // ---------------------------------------------------------------------------

  /** `coalesce(areas, gap)`: merges the areas into sorted, separated regions. */
  method Coalesce(areas: seq<Area>, gap: nat) returns (merged: seq<Area>)
    ensures merged == Coalesced(areas, gap)
  {
    if areas == [] {
      return [];
    }
    var sorted := SortByOffset(areas);
    merged := [];
    var curS: nat, curE: nat := sorted[0].offset, sorted[0].End();
    var i := 1;
    while i < |sorted|
      invariant 1 <= i <= |sorted|
      invariant curS <= curE
      invariant merged + Sweep(curS, curE, sorted[i..], gap) == Coalesced(areas, gap)
    {
      var a := sorted[i];
      assert sorted[i..] == [a] + sorted[i + 1..];
      if a.offset <= curE + gap {
        curE := Max(curE, a.End());
      } else {
        merged := merged + [Area(curS, curE - curS)];
        curS, curE := a.offset, a.End();
      }
      i := i + 1;
    }
    merged := merged + [Area(curS, curE - curS)];
  }
}

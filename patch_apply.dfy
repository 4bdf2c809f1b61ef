/**
 * Applying changed areas from a source image to a target image
 * (lib/v2k/patch_apply.py): each merged region is copied in chunks, with an
 * explicit seek before every read and every write, and a short read aborts.
 */
module PatchApply {
  import opened Common
  import opened Areas
  import opened Coalescing
  import opened ImageFiles

  /** The short read that aborts a copy: at `at`, `expected` bytes were asked for and `got` came back. */
  datatype CopyError = ShortRead(at: nat, expected: nat, got: nat)

  datatype Outcome = Done | Failed(error: CopyError)

  /** Region `a` can be copied from a source of `size` bytes without a short read. */
  predicate Fits(a: Area, size: nat) {
    a.length == 0 || a.End() <= size
  }

  /** Every region of `regions` fits a source of `size` bytes. */
  predicate AllFit(regions: seq<Area>, size: nat) {
    forall k :: 0 <= k < |regions| ==> Fits(regions[k], size)
  }

  /**
   * The target contents after the bytes [offset, offset + length) of `src`
   * have been written over `dst` at the same offsets, one byte after another
   * (`WriteAtIsCopyRange` shows this is writing the slice in one call).
   */
  function CopyRange(dst: seq<bv8>, src: seq<bv8>, offset: nat, length: nat): (r: seq<bv8>)
    requires length == 0 || offset + length <= |src|
    ensures |r| == if length == 0 then |dst| else Max(|dst|, offset + length)
    decreases length
  {
    if length == 0 then dst else CopyRange(WriteByte(dst, offset, src[offset]), src, offset + 1, length - 1)
  }

  /** After the copy the target holds the source's bytes on the range and its own bytes elsewhere. */
  lemma {:induction false} CopyRangeContents(dst: seq<bv8>, src: seq<bv8>, offset: nat, length: nat)
    requires length == 0 || offset + length <= |src|
    ensures forall i :: offset <= i < offset + length ==> CopyRange(dst, src, offset, length)[i] == src[i]
    ensures forall i :: 0 <= i < |dst| && !(offset <= i < offset + length) ==>
      CopyRange(dst, src, offset, length)[i] == dst[i]
    decreases length
  {
    if length > 0 {
      var first := WriteByte(dst, offset, src[offset]);
      CopyRangeContents(first, src, offset + 1, length - 1);
      assert first[offset] == src[offset];
      forall i | 0 <= i < |dst| && !(offset <= i < offset + length)
        ensures CopyRange(dst, src, offset, length)[i] == dst[i]
      {
        assert first[i] == dst[i];
      }
    }
  }

  /**
   * Once the copy of a range starting at `offset` has reached `at`, copying
   * the next `n` bytes extends it to `at + n`.
   */
  lemma {:induction false} CopyRangeStep(dst: seq<bv8>, src: seq<bv8>, offset: nat, at: nat, n: nat)
    requires offset <= at && at + n <= |src|
    ensures CopyRange(dst, src, offset, at + n - offset)
         == CopyRange(CopyRange(dst, src, offset, at - offset), src, at, n)
    decreases at - offset
  {
    if at > offset {
      CopyRangeStep(WriteByte(dst, offset, src[offset]), src, offset + 1, at, n);
    }
  }

  /** Writing the source bytes [pos, pos + n) at `pos` is copying that range. */
  lemma {:induction false} WriteAtIsCopyRange(dst: seq<bv8>, src: seq<bv8>, pos: nat, n: nat)
    requires pos + n <= |src|
    ensures WriteAt(dst, pos, src[pos..pos + n]) == CopyRange(dst, src, pos, n)
    decreases n
  {
    if n > 0 {
      assert src[pos..pos + n][1..] == src[pos + 1..pos + 1 + (n - 1)];
      WriteAtIsCopyRange(WriteByte(dst, pos, src[pos]), src, pos + 1, n - 1);
    }
  }

  /** Copying the same range twice has the effect of copying it once. */
  lemma CopyRangeIdempotent(dst: seq<bv8>, src: seq<bv8>, offset: nat, length: nat)
    requires length == 0 || offset + length <= |src|
    ensures CopyRange(CopyRange(dst, src, offset, length), src, offset, length)
         == CopyRange(dst, src, offset, length)
  {
    var once := CopyRange(dst, src, offset, length);
    var twice := CopyRange(once, src, offset, length);
    CopyRangeContents(dst, src, offset, length);
    CopyRangeContents(once, src, offset, length);
    assert |twice| == |once|;
    forall i | 0 <= i < |once| ensures twice[i] == once[i] {
    }
  }

  /** `d` bytes are a whole number of chunks of `chunk` bytes. */
  predicate ChunkAligned(d: nat, chunk: nat)
    requires chunk > 0
    decreases d
  {
    d == 0 || (chunk <= d && ChunkAligned(d - chunk, chunk))
  }

  /**
   * `e` is the short read that copying [offset, offset + length) in chunks of
   * `chunk` bytes from a source of `size` bytes runs into: the first chunk
   * that the source cannot fill, every chunk before it having been read in full.
   */
  predicate IsShortRead(e: CopyError, offset: nat, length: nat, chunk: nat, size: nat) {
    && chunk > 0
    && offset <= e.at < offset + length
    && ChunkAligned(e.at - offset, chunk)
    && (e.at == offset || e.at <= size)
    && e.expected == Min(chunk, offset + length - e.at)
    && e.got == (if e.at < size then size - e.at else 0)
    && e.got < e.expected
  }

  /**
   * `copy_region(src_fd, dst_fd, offset, length, chunk)`: copies the bytes
   * [offset, offset + length) of `src` to the same offsets of `dst`, at most
   * `chunk` bytes per read and write. It succeeds exactly when the source
   * holds the whole region; otherwise it stops at the first short read and
   * the target keeps the chunks written before it.
   */
  method CopyRegion(src: ImageFile, dst: ImageFile, offset: nat, length: nat, chunk: nat)
      returns (r: Outcome)
    requires src != dst
    requires chunk > 0
    modifies src`pos, dst
    ensures src.data == old(src.data)
    ensures r.Done? <==> Fits(Area(offset, length), |src.data|)
    ensures r.Done? ==> dst.data == CopyRange(old(dst.data), src.data, offset, length)
    ensures length == 0 ==> src.pos == old(src.pos) && dst.pos == old(dst.pos) && dst.data == old(dst.data)
    ensures r.Failed? ==>
      && IsShortRead(r.error, offset, length, chunk, |src.data|)
      && dst.data == CopyRange(old(dst.data), src.data, offset, r.error.at - offset)
  {
    ghost var original, source := dst.data, src.data;
    var remaining: nat := length;
    var pos: nat := offset;
    while remaining > 0
      invariant offset <= pos && (pos - offset) + remaining == length
      invariant remaining > 0 ==> ChunkAligned(pos - offset, chunk)
      invariant pos == offset || pos <= |source|
      invariant src.data == source
      invariant dst.data == CopyRange(original, source, offset, pos - offset)
      invariant remaining == length ==> src.pos == old(src.pos) && dst.pos == old(dst.pos)
      decreases remaining
    {
      var n := if remaining > chunk then chunk else remaining;
      var got := CopyChunk(src, dst, pos, n);
      if got != n {
        ShortReadAtChunk(offset, length, chunk, |source|, pos, got);
        return Failed(ShortRead(pos, n, got));
      }
      CopyRangeStep(original, source, offset, pos, n);
      if n == chunk {
        AlignedStep(offset, pos, chunk);
      }
      remaining := remaining - n;
      pos := pos + n;
    }
    return Done;
  }

  /** A chunk boundary of the copy starting at `offset` is followed by another one `chunk` bytes later. */
  lemma AlignedStep(offset: nat, pos: nat, chunk: nat)
    requires chunk > 0 && offset <= pos
    requires ChunkAligned(pos - offset, chunk)
    ensures ChunkAligned(pos + chunk - offset, chunk)
  {
    assert pos + chunk - offset - chunk == pos - offset;
  }

  /**
   * One pass of the loop in `copy_region`: seeks `src` to `pos` and reads at
   * most `n` bytes; when all `n` came back, seeks `dst` to `pos` and writes
   * them there. Returns how many bytes the read returned.
   */
  method CopyChunk(src: ImageFile, dst: ImageFile, pos: nat, n: nat) returns (got: nat)
    requires src != dst
    requires n > 0
    modifies src`pos, dst
    ensures got == if pos < |src.data| then Min(pos + n, |src.data|) - pos else 0
    ensures got == n ==> pos + n <= |src.data| && dst.data == CopyRange(old(dst.data), src.data, pos, n)
    ensures got != n ==> dst.data == old(dst.data) && dst.pos == old(dst.pos)
  {
    src.Seek(pos);
    var buf := src.Read(n);
    got := |buf|;
    if got == n {
      dst.Seek(pos);
      dst.Write(buf);
      WriteAtIsCopyRange(old(dst.data), src.data, pos, n);
    }
  }

  /**
   * A read of the next chunk that comes back short is the short read the
   * copy of [offset, offset + length) reports, and the region does not fit.
   */
  lemma ShortReadAtChunk(offset: nat, length: nat, chunk: nat, size: nat, pos: nat, got: nat)
    requires chunk > 0
    requires offset <= pos < offset + length
    requires ChunkAligned(pos - offset, chunk)
    requires pos == offset || pos <= size
    requires got == (if pos < size then Min(pos + Min(chunk, offset + length - pos), size) - pos else 0)
    requires got != Min(chunk, offset + length - pos)
    ensures IsShortRead(ShortRead(pos, Min(chunk, offset + length - pos), got), offset, length, chunk, size)
    ensures !Fits(Area(offset, length), size)
  {
  }

  /** The target contents after copying every region of `regions`, in order. */
  function CopyAll(dst: seq<bv8>, src: seq<bv8>, regions: seq<Area>): seq<bv8>
    requires AllFit(regions, |src|)
  {
    if regions == [] then dst
    else
      var last := regions[|regions| - 1];
      CopyRange(CopyAll(dst, src, regions[..|regions| - 1]), src, last.offset, last.length)
  }

  /**
   * After every region has been copied, the target equals the source on the
   * union of the regions, and keeps its old bytes everywhere else.
   */
  lemma {:induction false} CopyAllCopies(dst: seq<bv8>, src: seq<bv8>, regions: seq<Area>)
    requires AllFit(regions, |src|)
    ensures |dst| <= |CopyAll(dst, src, regions)|
    ensures forall i :: Covered(regions, i) ==>
      i < |CopyAll(dst, src, regions)| && CopyAll(dst, src, regions)[i] == src[i]
    ensures forall i :: 0 <= i < |dst| && !Covered(regions, i) ==> CopyAll(dst, src, regions)[i] == dst[i]
  {
    if regions != [] {
      var init := regions[..|regions| - 1];
      var last := regions[|regions| - 1];
      CopyAllCopies(dst, src, init);
      var before := CopyAll(dst, src, init);
      CopyRangeContents(before, src, last.offset, last.length);
      var after := CopyAll(dst, src, regions);
      forall i | Covered(regions, i) ensures i < |after| && after[i] == src[i] {
        if !last.Contains(i) {
          var k :| 0 <= k < |regions| && regions[k].Contains(i);
          assert init[k].Contains(i);
          assert Covered(init, i);
        }
      }
      forall i | 0 <= i < |dst| && !Covered(regions, i) ensures after[i] == dst[i] {
        assert !regions[|regions| - 1].Contains(i);
        assert forall k :: 0 <= k < |init| ==> init[k] == regions[k];
        assert !Covered(init, i);
      }
    }
  }

  /**
   * The region loop of `main`: copies the regions one after another in the
   * order given, stopping at the first region that runs into a short read.
   * On success the target is the old target with every region copied; on
   * failure every earlier region has been copied and the failing one up to
   * its short read.
   */
  method ApplyRegions(src: ImageFile, dst: ImageFile, regions: seq<Area>, chunk: nat)
      returns (r: Outcome)
    requires src != dst
    requires chunk > 0
    modifies src`pos, dst
    ensures src.data == old(src.data)
    ensures r.Done? <==> AllFit(regions, |src.data|)
    ensures r.Done? ==> dst.data == CopyAll(old(dst.data), src.data, regions)
    ensures r.Failed? ==> exists k :: (
      && 0 <= k < |regions|
      && AllFit(regions[..k], |src.data|)
      && !Fits(regions[k], |src.data|)
      && IsShortRead(r.error, regions[k].offset, regions[k].length, chunk, |src.data|)
      && dst.data == CopyRange(CopyAll(old(dst.data), src.data, regions[..k]), src.data,
                               regions[k].offset, r.error.at - regions[k].offset))
  {
    var i := 0;
    while i < |regions|
      invariant 0 <= i <= |regions|
      invariant src.data == old(src.data)
      invariant AllFit(regions[..i], |src.data|)
      invariant dst.data == CopyAll(old(dst.data), src.data, regions[..i])
    {
      var a := regions[i];
      ghost var before := dst.data;
      r := CopyRegion(src, dst, a.offset, a.length, chunk);
      if r.Failed? {
        assert dst.data == CopyRange(CopyAll(old(dst.data), src.data, regions[..i]), src.data,
                                     regions[i].offset, r.error.at - regions[i].offset);
        return;
      }
      assert regions[..i + 1][..i] == regions[..i];
      i := i + 1;
    }
    assert regions[..i] == regions;
    return Done;
  }

  /**
   * `main` of patch_apply.py without its argument, JSON and file handling:
   * coalesces the areas with `gap`, then copies every merged region in
   * ascending order. It succeeds exactly when every merged region fits the
   * source, and always when the source holds every input area. On success the
   * target is the old target with every merged region copied (so it equals
   * the source on every input area and on the gaps merged between them) and
   * keeps its old bytes outside the merged regions; on failure the merged
   * regions before the first one that does not fit are copied, and that one
   * up to its short read.
   */
  method ApplyChangedAreas(src: ImageFile, dst: ImageFile, areas: seq<Area>, gap: nat, chunk: nat)
      returns (r: Outcome)
    requires src != dst
    requires chunk > 0
    modifies src`pos, dst
    ensures src.data == old(src.data)
    ensures r.Done? <==> AllFit(Coalesced(areas, gap), |src.data|)
    ensures (forall k :: 0 <= k < |areas| ==> areas[k].End() <= |src.data|) ==> r.Done?
    ensures r.Done? ==> dst.data == CopyAll(old(dst.data), src.data, Coalesced(areas, gap))
    ensures r.Failed? ==> exists k :: (
      && 0 <= k < |Coalesced(areas, gap)|
      && AllFit(Coalesced(areas, gap)[..k], |src.data|)
      && !Fits(Coalesced(areas, gap)[k], |src.data|)
      && IsShortRead(r.error, Coalesced(areas, gap)[k].offset, Coalesced(areas, gap)[k].length, chunk, |src.data|)
      && dst.data == CopyRange(CopyAll(old(dst.data), src.data, Coalesced(areas, gap)[..k]), src.data,
                               Coalesced(areas, gap)[k].offset, r.error.at - Coalesced(areas, gap)[k].offset))
    ensures r.Done? ==> forall i :: Covered(areas, i) ==>
      i < |src.data| && i < |dst.data| && dst.data[i] == src.data[i]
    ensures r.Done? ==> forall i :: 0 <= i < |old(dst.data)| && !Covered(Coalesced(areas, gap), i) ==>
      i < |dst.data| && dst.data[i] == old(dst.data)[i]
  {
    var merged := Coalesce(areas, gap);
    if forall k :: 0 <= k < |areas| ==> areas[k].End() <= |src.data| {
      MergedRegionsFit(areas, gap, |src.data|);
    }
    r := ApplyRegions(src, dst, merged, chunk);
    if r.Done? {
      CoalescedCopyCopies(old(dst.data), src.data, areas, gap);
    }
  }

  /**
   * Copying every merged region makes the target equal to the source on every
   * byte of every input area, and keeps the target's bytes outside the merged
   * regions.
   */
  lemma CoalescedCopyCopies(dst: seq<bv8>, src: seq<bv8>, areas: seq<Area>, gap: nat)
    requires AllFit(Coalesced(areas, gap), |src|)
    ensures forall i :: Covered(areas, i) ==>
      i < |src| && i < |CopyAll(dst, src, Coalesced(areas, gap))| && CopyAll(dst, src, Coalesced(areas, gap))[i] == src[i]
    ensures forall i :: 0 <= i < |dst| && !Covered(Coalesced(areas, gap), i) ==>
      i < |CopyAll(dst, src, Coalesced(areas, gap))| && CopyAll(dst, src, Coalesced(areas, gap))[i] == dst[i]
  {
    var merged := Coalesced(areas, gap);
    CopyAllCopies(dst, src, merged);
    MergedRegionsCover(areas, gap);
    forall i | Covered(areas, i) ensures i < |src| {
      assert Covered(merged, i);
      var k :| 0 <= k < |merged| && merged[k].Contains(i);
      assert Fits(merged[k], |src|);
    }
  }

  /** When the source holds every input area, it holds every merged region. */
  lemma MergedRegionsFit(areas: seq<Area>, gap: nat, size: nat)
    requires forall k :: 0 <= k < |areas| ==> areas[k].End() <= size
    ensures AllFit(Coalesced(areas, gap), size)
  {
    var m := Coalesced(areas, gap);
    CoalescedEndpoints(areas, gap);
    forall k | 0 <= k < |m| ensures Fits(m[k], size) {
      assert m[k].End() in Ends(m);
    }
  }

  /** Every byte of an input area lies in a merged region. */
  lemma MergedRegionsCover(areas: seq<Area>, gap: nat)
    ensures forall i :: Covered(areas, i) ==> Covered(Coalesced(areas, gap), i)
  {
    var m := Coalesced(areas, gap);
    CoalescedCovers(areas, gap);
    forall i | Covered(areas, i) ensures Covered(m, i) {
      var k :| 0 <= k < |areas| && areas[k].Contains(i);
      var j :| 0 <= j < |m| && areas[k].Within(m[j]);
      assert m[j].Contains(i);
    }
  }
}

/**
 * Disk image files opened without buffering: a byte sequence with a current
 * position, read and written at explicit positions.
 */
module ImageFiles {
  import opened Common

  /** `n` zero bytes, what a hole in a file reads as. */
  function Zeros(n: nat): (r: seq<bv8>)
    ensures |r| == n
    ensures forall i :: 0 <= i < n ==> r[i] == 0
  {
    if n == 0 then [] else Zeros(n - 1) + [0]
  }

  /**
   * The contents of a file after writing the byte `b` at position `pos`; a
   * write past the end extends the file, and the gap reads as zero bytes.
   */
  function WriteByte(data: seq<bv8>, pos: nat, b: bv8): (r: seq<bv8>)
    ensures |r| == Max(|data|, pos + 1)
  {
    if pos < |data| then data[pos := b] else data + Zeros(pos - |data|) + [b]
  }

  /** The contents of a file after writing `buf` at position `pos`, byte after byte. */
  function WriteAt(data: seq<bv8>, pos: nat, buf: seq<bv8>): (r: seq<bv8>)
    ensures |r| == if buf == [] then |data| else Max(|data|, pos + |buf|)
    decreases |buf|
  {
    if buf == [] then data else WriteAt(WriteByte(data, pos, buf[0]), pos + 1, buf[1..])
  }

  /**
   * The written bytes replace what was at their offsets, every other byte of
   * the file is kept, the hole between the old end and `pos` reads as zero
   * bytes, and writing nothing changes nothing.
   */
  lemma {:induction false} WriteAtContents(data: seq<bv8>, pos: nat, buf: seq<bv8>)
    ensures buf == [] ==> WriteAt(data, pos, buf) == data
    ensures forall i :: pos <= i < pos + |buf| ==> WriteAt(data, pos, buf)[i] == buf[i - pos]
    ensures forall i :: 0 <= i < |data| && !(pos <= i < pos + |buf|) ==> WriteAt(data, pos, buf)[i] == data[i]
    ensures forall i :: |data| <= i < pos && i < |WriteAt(data, pos, buf)| ==> WriteAt(data, pos, buf)[i] == 0
    decreases |buf|
  {
    if buf != [] {
      var first := WriteByte(data, pos, buf[0]);
      var r := WriteAt(data, pos, buf);
      assert r == WriteAt(first, pos + 1, buf[1..]);
      WriteAtContents(first, pos + 1, buf[1..]);
      assert first[pos] == buf[0];
      forall i | pos <= i < pos + |buf| ensures r[i] == buf[i - pos] {
        if i > pos {
          assert buf[1..][i - (pos + 1)] == buf[i - pos];
        }
      }
      forall i | 0 <= i < |data| && !(pos <= i < pos + |buf|) ensures r[i] == data[i] {
        assert first[i] == data[i];
      }
      forall i | |data| <= i < pos && i < |r| ensures r[i] == 0 {
        assert first[i] == 0;
      }
    }
  }

  /** Two consecutive writes have the effect of one write of both buffers. */
  lemma {:induction false} WriteAtConsecutive(data: seq<bv8>, pos: nat, a: seq<bv8>, b: seq<bv8>)
    ensures WriteAt(WriteAt(data, pos, a), pos + |a|, b) == WriteAt(data, pos, a + b)
    decreases |a|
  {
    if a == [] {
      assert a + b == b;
    } else {
      var first := WriteByte(data, pos, a[0]);
      assert (a + b)[0] == a[0] && (a + b)[1..] == a[1..] + b;
      WriteAtConsecutive(first, pos + 1, a[1..], b);
    }
  }

  /** An open image file: its contents and the current file position. */
  class ImageFile {
    var data: seq<bv8>
    var pos: nat

    constructor (contents: seq<bv8>)
      ensures data == contents && pos == 0
    {
      data := contents;
      pos := 0;
    }

    /** Moves the file position to the absolute offset `p`. */
    method Seek(p: nat)
      modifies this`pos
      ensures pos == p
    {
      pos := p;
    }

    /**
     * Reads at most `n` bytes from the current position; fewer come back only
     * when the end of the file is reached first.
     */
    method Read(n: nat) returns (buf: seq<bv8>)
      modifies this`pos
      ensures buf == if old(pos) < |data| then data[old(pos)..Min(old(pos) + n, |data|)] else []
      ensures pos == old(pos) + |buf|
    {
      if pos < |data| {
        buf := data[pos..Min(pos + n, |data|)];
      } else {
        buf := [];
      }
      pos := pos + |buf|;
    }

    /** Writes all of `buf` at the current position. */
    method Write(buf: seq<bv8>)
      modifies this
      ensures data == WriteAt(old(data), old(pos), buf)
      ensures pos == old(pos) + |buf|
    {
      data := WriteAt(data, pos, buf);
      pos := pos + |buf|;
    }
  }
}

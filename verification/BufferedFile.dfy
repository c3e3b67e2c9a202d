/** `CBufferedFile` (src/streams.h): a ring buffer over a source file that may answer any read short. Positions are
    unbounded naturals. */
module BufferedFile {
  import opened Arithmetic

  datatype Outcome = Done | PastLimit | TooLarge | SourceFailed

  const NO_LIMIT := 0xFFFF_FFFF_FFFF_FFFF

  /** Two positions less than a buffer apart share no cell. */
  lemma CellsDistinct(p: nat, q: nat, size: nat)
    requires p < q < p + size
    ensures p % size != q % size
  {
    if p % size == q % size {
      DivMod(p, size);
      DivMod(q, size);
      var d := q / size - p / size;
      Distribute(q / size, -(p / size), size);
      if d >= 1 { MulAtLeast(d, size); } else { MulMono(d, 0, size); }
    }
  }

  lemma CellOffset(p: nat, t: nat, size: nat)
    requires size > 0 && p % size + t < size
    ensures (p + t) % size == p % size + t
  {
    DivMod(p, size);
    DivUnique(p + t, size, p / size, p % size + t);
  }

  function Min(a: nat, b: nat): nat {
    if a < b then a else b
  }

  /** How many bytes `Fill` asks `fread` for: to the end of the buffer, and not over the rewind bytes. */
  function Wanted(size: nat, nSrcPos: nat, nReadPos: nat, nRewind: nat): nat
    requires size > 0 && nReadPos <= nSrcPos && nSrcPos - nReadPos + nRewind <= size
  {
    Min(size - nSrcPos % size, size - (nSrcPos - nReadPos) - nRewind)
  }

  class BufferedFile {
    const src: seq<int>
    /** How many bytes the source is ready to give at its n-th call; any function, so any short reads. */
    const offers: nat -> nat
    const nRewind: nat
    const vchBuf: array<int>
    var nSrcPos: nat
    var nReadPos: nat
    var nReadLimit: nat
    var calls: nat

    ghost predicate Valid()
      reads this, vchBuf
    {
      && nRewind < vchBuf.Length
      && nReadPos <= nSrcPos <= |src|
      && nSrcPos <= nReadPos + vchBuf.Length
      && Ring(nSrcPos)
    }

    /** Each cell holds the source byte of the last position below `top` that maps to it. */
    ghost predicate Ring(top: nat)
      requires vchBuf.Length > 0 && top <= |src|
      reads vchBuf
    {
      forall p :: 0 <= p < top && top <= p + vchBuf.Length ==> vchBuf[p % vchBuf.Length] == src[p]
    }

    constructor (contents: seq<int>, offers: nat -> nat, nBufSize: nat, rewind: nat)
      requires rewind < nBufSize
      ensures Valid() && fresh(vchBuf) && src == contents && nRewind == rewind && vchBuf.Length == nBufSize
      ensures nSrcPos == 0 && nReadPos == 0 && nReadLimit == NO_LIMIT && calls == 0 && this.offers == offers
    {
      src, nRewind := contents, rewind;
      this.offers := offers;
      vchBuf := new int[nBufSize](_ => 0);
      nSrcPos, nReadPos, nReadLimit, calls := 0, 0, NO_LIMIT, 0;
    }

    /** `fread` at the source position: at most `wanted` bytes, fewer if the source offers or has fewer, into the buffer
        from `pos` on. */
    method Fread(pos: nat, wanted: nat) returns (got: nat)
      requires vchBuf.Length > 0 && nSrcPos <= |src| && Ring(nSrcPos)
      requires pos == nSrcPos % vchBuf.Length && pos + wanted <= vchBuf.Length
      modifies vchBuf, this`calls
      ensures got == Min(wanted, Min(offers(old(calls)), |src| - nSrcPos)) && Ring(nSrcPos + got) && calls == old(calls) + 1
    {
      got := Min(wanted, Min(offers(calls), |src| - nSrcPos));
      calls := calls + 1;
      CopyIn(pos, got);
    }

    method CopyIn(pos: nat, got: nat)
      requires vchBuf.Length > 0 && nSrcPos + got <= |src| && Ring(nSrcPos)
      requires pos == nSrcPos % vchBuf.Length && pos + got <= vchBuf.Length
      modifies vchBuf
      ensures Ring(nSrcPos + got)
    {
      for t := 0 to got
        invariant Ring(nSrcPos + t)
      {
        CellOffset(nSrcPos, t, vchBuf.Length);
        ghost var before := vchBuf[..];
        vchBuf[pos + t] := src[nSrcPos + t];
        OneMore(before, t);
      }
    }

    /** Writing the next byte into its cell moves the ring on by one. */
    lemma OneMore(before: seq<int>, t: nat)
      requires vchBuf.Length > 0 && nSrcPos + t < |src| && |before| == vchBuf.Length
      requires forall p :: 0 <= p < nSrcPos + t && nSrcPos + t <= p + |before| ==> before[p % |before|] == src[p]
      requires vchBuf[..] == before[(nSrcPos + t) % |before| := src[nSrcPos + t]]
      ensures Ring(nSrcPos + t + 1)
    {
      var top := nSrcPos + t;
      forall p | 0 <= p < top + 1 && top + 1 <= p + vchBuf.Length ensures vchBuf[p % vchBuf.Length] == src[p] {
        assert vchBuf[p % vchBuf.Length] == vchBuf[..][p % vchBuf.Length];
        if p < top {
          CellsDistinct(p, top, vchBuf.Length);
        }
      }
    }

    /** What the next `Fill` fetches. */
    ghost function Fetch(): nat
      requires Valid() && nSrcPos - nReadPos + nRewind <= vchBuf.Length
      reads this, vchBuf
    {
      Min(Wanted(vchBuf.Length, nSrcPos, nReadPos, nRewind), Min(offers(calls), |src| - nSrcPos))
    }

    /** `Fill`. The rewind bytes behind the reading position are never overwritten. */
    method Fill() returns (filled: bool, failed: bool)
      requires Valid() && nSrcPos - nReadPos + nRewind <= vchBuf.Length
      modifies this`nSrcPos, this`calls, vchBuf
      ensures Valid() && nSrcPos - nReadPos + nRewind <= vchBuf.Length
      ensures nSrcPos == old(nSrcPos) + old(Fetch())
      ensures filled ==> !failed && nSrcPos > old(nSrcPos)
      ensures !filled ==> nSrcPos == old(nSrcPos)
      ensures old(nSrcPos) == nReadPos ==> filled || failed
    {
      var pos := nSrcPos % vchBuf.Length;
      var readNow := vchBuf.Length - pos;
      var nAvail := vchBuf.Length - (nSrcPos - nReadPos) - nRewind;
      if nAvail < readNow {
        readNow := nAvail;
      }
      if readNow == 0 {
        return false, false;
      }
      var read := Fread(pos, readNow);
      if read == 0 {
        return false, true;
      }
      nSrcPos := nSrcPos + read;
      return true, false;
    }

    /** `read`: exactly the next source bytes, or a reason why not. What was copied before a failure is right too. */
    method Read(nSize: nat) returns (outcome: Outcome, data: seq<int>)
      requires Valid()
      modifies this`nSrcPos, this`nReadPos, this`calls, vchBuf
      ensures Valid() && nSrcPos >= old(nSrcPos)
      ensures nSize <= old(nSrcPos) - old(nReadPos) ==> nSrcPos == old(nSrcPos)
      ensures old(nSrcPos) == old(nReadPos) && outcome == Done && 0 < nSize <= old(Fetch()) ==>
        nSrcPos == old(nSrcPos) + old(Fetch())
      ensures nSize <= old(nSrcPos) - old(nReadPos) ==> outcome != SourceFailed
      ensures old(nSrcPos) == old(nReadPos) && nSize <= old(Fetch()) ==> outcome != SourceFailed
      ensures outcome == PastLimit <==> nSize + old(nReadPos) > nReadLimit
      ensures outcome == TooLarge <==> nSize + old(nReadPos) <= nReadLimit && nSize + nRewind > vchBuf.Length
      ensures old(nReadPos) <= nReadPos && data == src[old(nReadPos)..nReadPos]
      ensures outcome == Done ==> |data| == nSize
      ensures outcome == SourceFailed ==> |data| < nSize && nReadPos == nSrcPos
      ensures outcome == PastLimit || outcome == TooLarge ==> nReadPos == old(nReadPos) && nSrcPos == old(nSrcPos)
    {
      data := [];
      if nSize + nReadPos > nReadLimit {
        return PastLimit, data;
      }
      if nSize + nRewind > vchBuf.Length {
        return TooLarge, data;
      }
      ghost var start := nReadPos;
      var left := nSize;
      while left > 0
        invariant Valid() && nSrcPos >= old(nSrcPos)
        invariant nSize <= old(nSrcPos) - start ==> nSrcPos == old(nSrcPos)
        invariant old(nSrcPos) == start && nSize <= old(Fetch()) ==>
          (nSrcPos == start && nReadPos == start && calls == old(calls)) || nSrcPos == start + old(Fetch())
        invariant 0 <= left <= nSize && nReadPos + left == start + nSize
        invariant start <= nReadPos && data == src[start..nReadPos]
        decreases left
      {
        if nReadPos == nSrcPos {
          var filled, failed := Fill();
          if failed {
            return SourceFailed, data;
          }
        }
        var chunk := CopyChunk(left);
        data := data + chunk;
        left := left - |chunk|;
      }
      outcome := Done;
    }

    /** One `memcpy`: up to the end of the buffer and of what has been fetched. */
    method CopyChunk(left: nat) returns (chunk: seq<int>)
      requires Valid() && left > 0 && nReadPos < nSrcPos
      modifies this`nReadPos
      ensures Valid() && 0 < |chunk| <= left && nReadPos == old(nReadPos) + |chunk|
      ensures chunk == src[old(nReadPos)..nReadPos]
    {
      var pos := nReadPos % vchBuf.Length;
      var nNow := left;
      if nNow + pos > vchBuf.Length {
        nNow := vchBuf.Length - pos;
      }
      if nNow + nReadPos > nSrcPos {
        nNow := nSrcPos - nReadPos;
      }
      Window(pos, nNow);
      chunk := vchBuf[pos..pos + nNow];
      nReadPos := nReadPos + nNow;
    }

    /** The cells after the reading position hold the bytes after it. */
    lemma Window(pos: nat, nNow: nat)
      requires Valid() && pos == nReadPos % vchBuf.Length && pos + nNow <= vchBuf.Length && nReadPos + nNow <= nSrcPos
      ensures vchBuf[pos..pos + nNow] == src[nReadPos..nReadPos + nNow]
    {
      var cells, bytes := vchBuf[pos..pos + nNow], src[nReadPos..nReadPos + nNow];
      forall t | 0 <= t < |cells| ensures cells[t] == bytes[t] {
        CellOffset(nReadPos, t, vchBuf.Length);
        var p := nReadPos + t;
        assert vchBuf[p % vchBuf.Length] == src[p];
      }
    }

    /** `SetPos`: true exactly for positions at most nRewind behind the source position and not past it, so going back
        from the reading position succeeds exactly when the distance and the bytes fetched ahead together are within
        nRewind. Otherwise the position is the nearest that is allowed. */
    method SetPos(nPos: nat) returns (ok: bool)
      requires Valid()
      modifies this`nReadPos
      ensures Valid()
      ensures ok <==> nPos <= nSrcPos <= nPos + nRewind
      ensures nPos <= old(nReadPos) ==> (ok <==> (old(nReadPos) - nPos) + (nSrcPos - old(nReadPos)) <= nRewind)
      ensures ok ==> nReadPos == nPos
      ensures !ok ==> nReadPos == if nPos > nSrcPos then nSrcPos else nSrcPos - nRewind
    {
      nReadPos := nPos;
      if nReadPos + nRewind < nSrcPos {
        nReadPos := nSrcPos - nRewind;
        return false;
      } else if nReadPos > nSrcPos {
        nReadPos := nSrcPos;
        return false;
      } else {
        return true;
      }
    }

    method SetLimit(nPos: nat) returns (ok: bool)
      requires Valid()
      modifies this`nReadLimit
      ensures Valid() && ok == (nPos >= nReadPos) && nReadLimit == if ok then nPos else old(nReadLimit)
    {
      if nPos < nReadPos {
        return false;
      }
      nReadLimit := nPos;
      return true;
    }

    /** `FindByte`: stops on the first occurrence at or after the reading position; fails only when the source does.
        The read limit is not consulted. */
    method FindByte(ch: int) returns (found: bool)
      requires Valid()
      modifies this`nSrcPos, this`nReadPos, this`calls, vchBuf
      ensures Valid() && old(nReadPos) <= nReadPos && nSrcPos >= old(nSrcPos)
      ensures ch !in src[old(nReadPos)..nReadPos]
      ensures found ==> nReadPos < nSrcPos && src[nReadPos] == ch
      ensures !found ==> nReadPos == nSrcPos
    {
      ghost var start := nReadPos;
      while true
        invariant Valid() && start <= nReadPos && nSrcPos >= old(nSrcPos)
        invariant ch !in src[start..nReadPos]
        decreases |src| - nReadPos
      {
        if nReadPos == nSrcPos {
          var filled, failed := Fill();
          if failed {
            return false;
          }
        }
        assert vchBuf[nReadPos % vchBuf.Length] == src[nReadPos];
        if vchBuf[nReadPos % vchBuf.Length] == ch {
          return true;
        }
        assert src[start..nReadPos + 1] == src[start..nReadPos] + [src[nReadPos]];
        nReadPos := nReadPos + 1;
      }
    }
  }

  /** The class promises to rewind nRewind bytes. With a buffer of 10 and a rewind of 3, and a source that gives the
      seven bytes asked for: after one byte is read, going back to it fails and moves the position on, over three unread
      bytes. */
  method RewindPromiseFails(contents: seq<int>, offers: nat -> nat) returns (ok: bool, position: nat, first: seq<int>)
    requires |contents| >= 7 && offers(0) >= 7
    ensures first == contents[..1] && !ok && position == 4
  {
    var file := new BufferedFile(contents, offers, 10, 3);
    var outcome;
    outcome, first := file.Read(1);
    ok := file.SetPos(0);
    position := file.nReadPos;
  }

  /** Reading, going back and reading again: if the rewind succeeds, the same bytes come again, however the source
      splits them. */
  method Reread(file: BufferedFile, nSize: nat) returns (again: bool, first: seq<int>, second: seq<int>)
    requires file.Valid()
    modifies file, file.vchBuf
    ensures file.Valid()
    ensures again ==> old(file.nReadPos) + nSize == file.nReadPos <= |file.src|
    ensures again ==> first == second == file.src[old(file.nReadPos)..old(file.nReadPos) + nSize]
  {
    var start := file.nReadPos;
    var outcome;
    second := [];
    outcome, first := file.Read(nSize);
    if outcome != Done {
      return false, first, second;
    }
    again := file.SetPos(start);
    if again {
      outcome, second := file.Read(nSize);
    }
  }
}

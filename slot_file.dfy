/** A store file: a header-less run of fixed-size slots.  Reading and writing
    at a byte offset stand for `seek` followed by `read`/`readinto`/`write`. */
module SlotFile {
  import opened Bytes

  /** What `read(n)` returns after `seek(pos)`: at most `n` bytes, fewer at
      the end of the file. */
  function ReadAt(f: seq<Byte>, pos: nat, n: nat): (r: seq<Byte>)
    requires pos <= |f|
    ensures |r| == if pos + n <= |f| then n else |f| - pos
    ensures r == f[pos..pos + |r|]
  {
    if pos + n <= |f| then f[pos..pos + n] else f[pos..]
  }

  /** The file after `write(chunk)` at offset `pos`: the bytes under `chunk`
      are overwritten, and the file grows when `chunk` runs past its end. */
  function WriteAt(f: seq<Byte>, pos: nat, chunk: seq<Byte>): (r: seq<Byte>)
    requires pos <= |f|
    ensures |r| == if pos + |chunk| <= |f| then |f| else pos + |chunk|
    ensures r[..pos] == f[..pos]
    ensures r[pos..pos + |chunk|] == chunk
    ensures pos + |chunk| <= |f| ==> r[pos + |chunk|..] == f[pos + |chunk|..]
  {
    if pos + |chunk| <= |f| then f[..pos] + chunk + f[pos + |chunk|..] else f[..pos] + chunk
  }

  // ------------------------------------------------------------- offsets

  /** The byte offset of slot `k`, one slot at a time; it is `k * size`
      (`OffsetIsProduct`). */
  function Offset(k: nat, size: nat): nat {
    if k == 0 then 0 else Offset(k - 1, size) + size
  }

  lemma {:induction false} OffsetIsProduct(k: nat, size: nat)
    ensures Offset(k, size) == k * size
  {
    if k > 0 {
      OffsetIsProduct(k - 1, size);
      assert k * size == (k - 1) * size + size;
    }
  }

  lemma {:induction false} OffsetAdd(j: nat, k: nat, size: nat)
    ensures Offset(j + k, size) == Offset(j, size) + Offset(k, size)
  {
    if k > 0 {
      OffsetAdd(j, k - 1, size);
    }
  }

  /** The slots from `k` to `n` take what is left after the first `k`. */
  lemma OffsetRest(n: nat, k: nat, size: nat)
    requires k <= n
    ensures Offset(n, size) == Offset(k, size) + Offset(n - k, size)
  {
    OffsetAdd(k, n - k, size);
  }

  /** Later slots start further on, by at least one slot each. */
  lemma {:induction false} OffsetMono(j: nat, k: nat, size: nat)
    requires j < k
    ensures Offset(j, size) + size <= Offset(k, size)
  {
    if j < k - 1 {
      OffsetMono(j, k - 1, size);
    }
  }

  /** Euclidean division is determined by its defining equation. */
  lemma DivUnique(a: int, s: int, q: int, r: int)
    requires s > 0 && 0 <= r < s && a == q * s + r
    ensures a / s == q && a % s == r
  {
    var q', r' := a / s, a % s;
    assert a == q' * s + r';
    if q' > q {
      assert (q' - q) * s == q' * s - q * s;
      MulAtLeast(q' - q, s);
    } else if q' < q {
      assert (q - q') * s == q * s - q' * s;
      MulAtLeast(q - q', s);
    }
  }

  lemma MulAtLeast(x: int, s: int)
    requires x >= 1 && s > 0
    ensures x * s >= s
  {
  }

  // --------------------------------------------------------------- slots

  /** The slots of a file, in file order: as many whole slots as fit, as
      the store counts them with `size // record_size`. */
  function Chunks(f: seq<Byte>, size: nat): (cs: seq<seq<Byte>>)
    requires size > 0
    ensures forall i :: 0 <= i < |cs| ==> |cs[i]| == size
    decreases |f|
  {
    if |f| < size then [] else [f[..size]] + Chunks(f[size..], size)
  }

  /** The whole slots cover the file, and what is left is shorter than a slot. */
  lemma {:induction false} ChunksCover(f: seq<Byte>, size: nat)
    requires size > 0
    ensures Offset(|Chunks(f, size)|, size) <= |f| < Offset(|Chunks(f, size)|, size) + size
    decreases |f|
  {
    if |f| >= size {
      ChunksCover(f[size..], size);
    }
  }

  /** The number of slots is the file size divided by the slot size. */
  lemma ChunksCount(f: seq<Byte>, size: nat)
    requires size > 0
    ensures |Chunks(f, size)| == |f| / size
  {
    var q := |Chunks(f, size)|;
    ChunksCover(f, size);
    OffsetIsProduct(q, size);
    DivUnique(|f|, size, q, |f| - q * size);
  }

  /** A file whose size is a whole number of slots: the slots cover it
      exactly. */
  predicate Aligned(f: seq<Byte>, size: nat)
    requires size > 0
  {
    |f| == Offset(|Chunks(f, size)|, size)
  }

  /** Alignment is the file size being a multiple of the slot size. */
  lemma AlignedIsMultiple(f: seq<Byte>, size: nat)
    requires size > 0
    ensures Aligned(f, size) <==> |f| % size == 0
  {
    var q := |Chunks(f, size)|;
    ChunksCover(f, size);
    OffsetIsProduct(q, size);
    DivUnique(|f|, size, q, |f| - q * size);
  }

  /** The first `k` slots of a file occupy its first `Offset(k)` bytes. */
  lemma {:induction false} ChunksSplit(f: seq<Byte>, size: nat, k: nat)
    requires size > 0 && k <= |Chunks(f, size)|
    ensures Offset(k, size) <= |f|
    ensures Chunks(f[..Offset(k, size)], size) == Chunks(f, size)[..k]
    ensures Chunks(f[Offset(k, size)..], size) == Chunks(f, size)[k..]
    decreases k
  {
    if k > 0 {
      var rest := f[size..];
      ChunksSplit(rest, size, k - 1);
      var p := Offset(k - 1, size);
      var head := f[..p + size];
      assert head[..size] == f[..size];
      assert head[size..] == rest[..p];
      assert f[p + size..] == rest[p..];
    } else {
      assert f[..0] == [];
      assert f[0..] == f;
    }
  }

  /** Reading a slot's worth of bytes at the offset of slot `k` yields slot
      `k`, whether or not a partial slot trails the file. */
  lemma ReadChunk(f: seq<Byte>, size: nat, k: nat)
    requires size > 0 && k < |Chunks(f, size)|
    ensures Offset(k, size) + size <= |f|
    ensures ReadAt(f, Offset(k, size), size) == Chunks(f, size)[k]
  {
    ChunksSplit(f, size, k);
    var pos := Offset(k, size);
    var post := f[pos..];
    assert Chunks(post, size)[0] == Chunks(f, size)[k];
    assert post[..size] == f[pos..pos + size];
  }

  /** Past the last whole slot a read comes back short: empty at the end of
      an aligned file, and at most a partial slot in any file. */
  lemma ReadPastSlots(f: seq<Byte>, size: nat, k: nat)
    requires size > 0 && |Chunks(f, size)| <= k && Offset(k, size) <= |f|
    ensures |ReadAt(f, Offset(k, size), size)| < size
    ensures Aligned(f, size) ==> ReadAt(f, Offset(k, size), size) == []
  {
    var n := |Chunks(f, size)|;
    ChunksCover(f, size);
    if n < k {
      OffsetMono(n, k, size);
    }
  }

  /** Reading one slot at the offset of slot `k`: slot `k` while there is
      one, nothing once every slot has been read. */
  lemma ReadSlot(f: seq<Byte>, size: nat, k: nat)
    requires size > 0 && Aligned(f, size) && k <= |Chunks(f, size)|
    ensures Offset(k, size) <= |f|
    ensures k < |Chunks(f, size)| ==> ReadAt(f, Offset(k, size), size) == Chunks(f, size)[k]
    ensures k == |Chunks(f, size)| ==> ReadAt(f, Offset(k, size), size) == []
  {
    if k < |Chunks(f, size)| {
      ReadChunk(f, size, k);
    } else {
      ReadPastSlots(f, size, k);
    }
  }

  /** The slots of two files laid end to end, when the first is aligned. */
  lemma {:induction false} ChunksAppend(a: seq<Byte>, b: seq<Byte>, size: nat)
    requires size > 0 && Aligned(a, size)
    ensures Chunks(a + b, size) == Chunks(a, size) + Chunks(b, size)
    decreases |a|
  {
    if a == [] {
      assert a + b == b;
    } else {
      ChunksAppend(a[size..], b, size);
      assert (a + b)[..size] == a[..size];
      assert (a + b)[size..] == a[size..] + b;
    }
  }

  /** Two aligned files laid end to end form an aligned file. */
  lemma AlignedAppend(a: seq<Byte>, b: seq<Byte>, size: nat)
    requires size > 0 && Aligned(a, size) && Aligned(b, size)
    ensures Aligned(a + b, size)
  {
    ChunksAppend(a, b, size);
    OffsetAdd(|Chunks(a, size)|, |Chunks(b, size)|, size);
  }

  /** A single slot on its own is a one-slot file. */
  lemma ChunksOne(c: seq<Byte>, size: nat)
    requires size > 0 && |c| == size
    ensures Aligned(c, size) && Chunks(c, size) == [c]
  {
    assert c[..size] == c;
    assert Chunks(c[size..], size) == [];
  }

  /** Appending one slot to an aligned file keeps it aligned and adds one
      slot at the end. */
  lemma ChunksSnoc(f: seq<Byte>, c: seq<Byte>, size: nat)
    requires size > 0 && Aligned(f, size) && |c| == size
    ensures Aligned(f + c, size)
    ensures Chunks(f + c, size) == Chunks(f, size) + [c]
  {
    ChunksOne(c, size);
    ChunksAppend(f, c, size);
    AlignedAppend(f, c, size);
  }

  /** Cutting an aligned file at a slot boundary leaves two aligned files. */
  lemma AlignedSplit(f: seq<Byte>, size: nat, k: nat)
    requires size > 0 && Aligned(f, size) && k <= |Chunks(f, size)|
    ensures Offset(k, size) <= |f|
    ensures Aligned(f[..Offset(k, size)], size) && Aligned(f[Offset(k, size)..], size)
  {
    var n := |Chunks(f, size)|;
    var m := n - k;
    ChunksSplit(f, size, k);
    OffsetRest(n, k, size);
    var pos := Offset(k, size);
    var pre, post := f[..pos], f[pos..];
    assert |Chunks(pre, size)| == k && |pre| == pos;
    assert |Chunks(post, size)| == m;
    assert |post| == Offset(m, size);
  }

  /** Opening a one-slot gap before slot `k` and filling it with `c`. */
  lemma ChunksInsert(f: seq<Byte>, c: seq<Byte>, size: nat, k: nat)
    requires size > 0 && Aligned(f, size) && |c| == size && k <= |Chunks(f, size)|
    ensures Offset(k, size) <= |f|
    ensures Aligned(f[..Offset(k, size)] + c + f[Offset(k, size)..], size)
    ensures Chunks(f[..Offset(k, size)] + c + f[Offset(k, size)..], size)
         == Chunks(f, size)[..k] + [c] + Chunks(f, size)[k..]
  {
    var pos := Offset(k, size);
    ChunksSplit(f, size, k);
    AlignedSplit(f, size, k);
    var pre, post := f[..pos], f[pos..];
    ChunksSnoc(pre, c, size);
    ChunksAppend(pre + c, post, size);
    AlignedAppend(pre + c, post, size);
  }

  /** One turn of the carried-buffer shift that opens a slot at offset `gap`,
      while a whole slot is left to read: `after` is the file with the slot
      inserted, the bytes of `file` before `pos` already hold their final
      value and `carried` is the slot that belongs at `pos`.  Reading at
      `pos` yields the slot that belongs one slot further on, and writing
      `carried` at `pos` moves the boundary one slot forward. */
  lemma ShiftStep(before: seq<Byte>, after: seq<Byte>, gap: nat, pos: nat, size: nat,
                  file: seq<Byte>, carried: seq<Byte>)
    requires gap <= pos && pos + size <= |before|
    requires |after| == |before| + size && after[gap + size..] == before[gap..]
    requires file == after[..pos] + before[pos..]
    requires carried == after[pos..pos + size]
    ensures pos + size <= |file|
    ensures ReadAt(file, pos, size) == after[pos + size..pos + size + size]
    ensures WriteAt(file, pos, carried) == after[..pos + size] + before[pos + size..]
  {
    assert file[pos..pos + size] == before[pos..pos + size];
    assert ReadAt(file, pos, size) == file[pos..pos + size];
    var d := pos - gap;
    assert after[gap + size..][d..d + size] == before[gap..][d..d + size];
    assert after[pos + size..pos + size + size] == before[pos..pos + size];
    assert file[..pos] == after[..pos];
    assert file[pos + size..] == before[pos + size..];
    assert after[..pos] + after[pos..pos + size] == after[..pos + size];
  }

  /** The last turn of the shift: nothing is left to read, and writing the
      carried slot completes the file. */
  lemma ShiftLast(before: seq<Byte>, after: seq<Byte>, pos: nat, size: nat,
                  file: seq<Byte>, carried: seq<Byte>)
    requires pos == |before| && |after| == |before| + size
    requires file == after[..pos] + before[pos..]
    requires carried == after[pos..pos + size]
    ensures pos <= |file|
    ensures |ReadAt(file, pos, size)| == 0
    ensures WriteAt(file, pos, carried) == after
  {
    assert file == after[..pos];
    assert after[..pos] + after[pos..pos + size] == after;
  }

  /** One turn of the shift, whichever it is. */
  lemma ShiftTurn(before: seq<Byte>, after: seq<Byte>, gap: nat, pos: nat, size: nat,
                  file: seq<Byte>, carried: seq<Byte>)
    requires gap <= pos && (pos + size <= |before| || pos == |before|)
    requires |after| == |before| + size && after[gap + size..] == before[gap..]
    requires file == after[..pos] + before[pos..]
    requires carried == after[pos..pos + size]
    ensures pos <= |file|
    ensures pos + size <= |before| ==> ReadAt(file, pos, size) == after[pos + size..pos + size + size]
    ensures pos + size <= |before| ==> WriteAt(file, pos, carried) == after[..pos + size] + before[pos + size..]
    ensures pos + size > |before| ==> |ReadAt(file, pos, size)| == 0 && WriteAt(file, pos, carried) == after
  {
    if pos + size <= |before| {
      ShiftStep(before, after, gap, pos, size, file, carried);
    } else {
      ShiftLast(before, after, pos, size, file, carried);
    }
  }
}

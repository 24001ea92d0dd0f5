// Little-endian words in a byte string, writes of 64-bit words, and what a list of writes leaves behind.

module ElfMemory {
  import opened Bytes

  const TWO64: nat := 0x1_0000_0000_0000_0000

  lemma Pow256Of8()
    ensures Pow256(8) == TWO64
  {
    assert Pow256(0) == 1 && Pow256(1) == 0x100 && Pow256(2) == 0x1_0000;
    assert Pow256(3) == 0x100_0000 && Pow256(4) == 0x1_0000_0000;
    assert Pow256(5) == 0x100_0000_0000 && Pow256(6) == 0x1_0000_0000_0000 && Pow256(7) == 0x100_0000_0000_0000;
  }

  /** The w-byte little-endian number at o. */
  function Read(mem: seq<byte>, o: nat, w: nat): nat
    requires o + w <= |mem|
  {
    Le(mem[o..o + w])
  }

  // ----- writes of words

  datatype Write = Write(off: nat, val: nat)

  predicate Covers(w: Write, i: int) {
    w.off <= i < w.off + 8
  }

  /** The byte that a write leaves at a covered offset. */
  function ByteOf(w: Write, i: nat): byte
    requires Covers(w, i)
  {
    LeBytes(w.val, 8)[i - w.off]
  }

  predicate Fits(mem: seq<byte>, w: Write) {
    w.off + 8 <= |mem|
  }

  function Put(mem: seq<byte>, w: Write): (r: seq<byte>)
    requires Fits(mem, w)
    ensures |r| == |mem|
    ensures forall i :: 0 <= i < |mem| ==> r[i] == if Covers(w, i) then ByteOf(w, i) else mem[i]
  {
    mem[..w.off] + LeBytes(w.val, 8) + mem[w.off + 8..]
  }

  predicate AllFit(mem: seq<byte>, ws: seq<Write>) {
    forall k :: 0 <= k < |ws| ==> Fits(mem, ws[k])
  }

  /** All writes, in order. */
  function PutAll(mem: seq<byte>, ws: seq<Write>): (r: seq<byte>)
    requires AllFit(mem, ws)
    ensures |r| == |mem|
    decreases |ws|
  {
    if ws == [] then mem
    else
      var n := |ws| - 1;
      Put(PutAll(mem, ws[..n]), ws[n])
  }

  /** The last write that covers an offset. */
  function LastCover(ws: seq<Write>, i: nat): (r: Option<nat>)
    ensures r.Some? ==> r.value < |ws| && Covers(ws[r.value], i)
    decreases |ws|
  {
    if ws == [] then None
    else
      var n := |ws| - 1;
      if Covers(ws[n], i) then Some(n) else LastCover(ws[..n], i)
  }

  lemma {:induction false} LastCoverIsLast(ws: seq<Write>, i: nat)
    ensures LastCover(ws, i).None? ==> forall k :: 0 <= k < |ws| ==> !Covers(ws[k], i)
    ensures LastCover(ws, i).Some? ==> forall k :: LastCover(ws, i).value < k < |ws| ==> !Covers(ws[k], i)
    decreases |ws|
  {
    if ws != [] {
      LastCoverIsLast(ws[..|ws| - 1], i);
    }
  }

  /** After a list of writes, each byte is that of the last write covering it, or was there before. */
  lemma {:induction false} LastWriteWins(mem: seq<byte>, ws: seq<Write>, i: nat)
    requires AllFit(mem, ws) && i < |mem|
    ensures PutAll(mem, ws)[i] == match LastCover(ws, i) case None => mem[i] case Some(k) => ByteOf(ws[k], i)
    decreases |ws|
  {
    if ws != [] {
      LastWriteWins(mem, ws[..|ws| - 1], i);
    }
  }

  /** Writing the same words again changes nothing, even if they overlap. */
  lemma {:induction false} WritingTwice(mem: seq<byte>, ws: seq<Write>)
    requires AllFit(mem, ws)
    ensures PutAll(PutAll(mem, ws), ws) == PutAll(mem, ws)
  {
    var once := PutAll(mem, ws);
    forall i | 0 <= i < |mem|
      ensures PutAll(once, ws)[i] == once[i]
    {
      LastWriteWins(mem, ws, i);
      LastWriteWins(once, ws, i);
    }
  }

  ghost predicate Apart(v: Write, w: Write) {
    v.off + 8 <= w.off || w.off + 8 <= v.off
  }

  ghost predicate AllApart(ws: seq<Write>) {
    forall j, k :: 0 <= j < k < |ws| ==> Apart(ws[j], ws[k])
  }

  /** Writes that do not overlap may be made in any order. */
  lemma {:induction false} OrderDoesNotMatter(mem: seq<byte>, ws: seq<Write>, vs: seq<Write>)
    requires AllFit(mem, ws) && AllFit(mem, vs) && AllApart(ws) && AllApart(vs)
    requires forall w :: w in ws <==> w in vs
    ensures PutAll(mem, ws) == PutAll(mem, vs)
  {
    forall i | 0 <= i < |mem|
      ensures PutAll(mem, ws)[i] == PutAll(mem, vs)[i]
    {
      LastWriteWins(mem, ws, i);
      LastWriteWins(mem, vs, i);
      LastCoverIsLast(ws, i);
      LastCoverIsLast(vs, i);
      if LastCover(ws, i).Some? {
        assert ws[LastCover(ws, i).value] in vs;
      }
      if LastCover(vs, i).Some? {
        assert vs[LastCover(vs, i).value] in ws;
      }
    }
  }

  /** A word that no later write overlaps reads back. */
  lemma {:induction false} WordReadsBack(mem: seq<byte>, ws: seq<Write>, k: nat)
    requires AllFit(mem, ws) && AllApart(ws) && k < |ws| && ws[k].val < TWO64
    ensures Read(PutAll(mem, ws), ws[k].off, 8) == ws[k].val
  {
    var w := ws[k];
    var word := PutAll(mem, ws)[w.off..w.off + 8];
    forall j | 0 <= j < 8
      ensures word[j] == LeBytes(w.val, 8)[j]
    {
      var i := w.off + j;
      LastWriteWins(mem, ws, i);
      assert Covers(w, i) && ByteOf(w, i) == LeBytes(w.val, 8)[j];
      LastCoverIsLast(ws, i);
      assert LastCover(ws, i) == Some(k);
    }
    assert word == LeBytes(w.val, 8);
    Pow256Of8();
    LeOfLeBytes(w.val, 8);
  }
}

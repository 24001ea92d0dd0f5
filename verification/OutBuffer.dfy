// The growable output buffer of the demuxer: its contents are the concatenation of what was
// put, it never holds more than twice what it needs, and growing it is amortised.

module OutBuffer {
  import opened Bytes
  import opened AnnexB

  const FIRST_CAPACITY := 65536

  class OBuf {
    var d: array<byte>
    var len: nat
    var cap: nat
    ghost var Contents: seq<byte>
    ghost var copied: nat  // bytes moved by all reallocations so far

    ghost predicate Valid()
      reads this, d
    {
      && len <= cap == d.Length
      && Contents == d[..len]
      && (cap == 0 || FIRST_CAPACITY <= cap)
      && cap <= Max(FIRST_CAPACITY, 2 * len)
      && copied <= cap
    }

    constructor ()
      ensures Valid() && fresh(d)
      ensures Contents == [] && cap == 0 && copied == 0
    {
      d := new byte[0];
      len, cap, copied, Contents := 0, 0, 0, [];
    }

    /** Appends s, doubling the capacity as often as needed. */
    method Put(s: seq<byte>)
      requires Valid()
      modifies this, d
      ensures Valid()
      ensures d == old(d) || fresh(d)
      ensures Contents == old(Contents) + s
      ensures old(cap) <= cap
      ensures old(len) + |s| <= old(cap) ==> cap == old(cap) && copied == old(copied)
    {
      if len + |s| > cap {
        var nc := if cap != 0 then cap else FIRST_CAPACITY;
        while nc < len + |s|
          invariant Max(cap, FIRST_CAPACITY) <= nc <= Max(Max(cap, FIRST_CAPACITY), 2 * (len + |s|))
          invariant nc == Max(cap, FIRST_CAPACITY) || 2 * Max(cap, FIRST_CAPACITY) <= nc
          decreases 2 * (len + |s|) - nc
        {
          nc := nc * 2;
        }
        Realloc(nc);
      }
      label Grown:
      var at := len;
      forall i | 0 <= i < |s| {
        d[at + i] := s[i];
      }
      len := len + |s|;
      Contents := Contents + s;
      assert d[..at] == old@Grown(d[..len]);
      assert d[..len] == d[..at] + s;
    }

    method Realloc(nc: nat)
      requires Valid()
      requires cap < nc && FIRST_CAPACITY <= nc && 2 * cap <= nc
      modifies this
      ensures fresh(d) && d.Length == nc == cap
      ensures len == old(len) && d[..len] == old(d[..len]) && Contents == old(Contents)
      ensures copied == old(copied) + old(cap) <= cap
    {
      var p := new byte[nc];
      forall i | 0 <= i < len {
        p[i] := d[i];
      }
      assert p[..len] == d[..len];
      d, copied, cap := p, copied + cap, nc;
    }

    /** Appends one NAL behind its start code. */
    method PutNal(nal: Nal)
      requires Valid()
      modifies this, d
      ensures Valid()
      ensures d == old(d) || fresh(d)
      ensures Contents == old(Contents) + START_CODE + nal
    {
      Put(START_CODE);
      Put(nal);
    }
  }

  /** Whatever is put, in whatever pieces: the contents are the concatenation, the capacity is 0 or
      at most max(65536, 2 * length), and regrowth copied no more bytes in total than the capacity. */
  method PutAll(pieces: seq<seq<byte>>) returns (o: OBuf)
    ensures fresh(o) && fresh(o.d) && o.Valid()
    ensures o.Contents == Flatten(pieces)
    ensures o.cap <= Max(65536, 2 * |Flatten(pieces)|) && o.copied <= o.cap
    ensures Flatten(pieces) == [] ==> o.cap == 0
  {
    o := new OBuf();
    for i := 0 to |pieces|
      invariant fresh(o) && fresh(o.d) && o.Valid()
      invariant o.Contents == Flatten(pieces[..i])
      invariant o.Contents == [] ==> o.cap == 0
    {
      assert pieces[..i + 1] == pieces[..i] + [pieces[i]];
      FlattenAppend(pieces[..i], [pieces[i]]);
      assert Flatten([pieces[i]]) == pieces[i];
      o.Put(pieces[i]);
    }
    assert pieces[..|pieces|] == pieces;
  }
}

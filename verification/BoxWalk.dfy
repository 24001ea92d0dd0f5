// The recursive box walk of the demuxer, proved to compute the track description of BoxTree.

module BoxWalk {
  import opened Bytes
  import opened BoxTree

  /** Per-track state gathered while one trak subtree is walked. */
  class Trak {
    var isVide: bool
    var hvcc: Range
    var stsz: Range
    var stco: Range
    var stcoIs64: bool
    var stsc: Range

    constructor ()
      ensures View() == NO_TRACK
    {
      isVide, hvcc, stsz, stco, stcoIs64, stsc := false, EMPTY, EMPTY, EMPTY, false, EMPTY;
    }

    function View(): TrackInfo
      reads this
    {
      TrackInfo(isVide, hvcc, stsz, stco, stcoIs64, stsc)
    }
  }

  /** The state of a whole walk. */
  class Scan {
    const buf: seq<byte>
    var nVide: nat
    var nMoof: nat
    var vtrak: TrackInfo
    var bad: bool

    constructor (buf: seq<byte>)
      ensures this.buf == buf && !bad && Knows([])
    {
      this.buf := buf;
      nVide, nMoof, vtrak, bad := 0, 0, NO_TRACK, false;
    }

    /** The counters and the selected track describe these top-level boxes. */
    ghost predicate Knows(seen: seq<Box>)
      reads this
    {
      Describes(buf, seen, nVide, nMoof, vtrak)
    }

    /** The box header at off: 32-bit size, 64-bit size (announced by 1), or "to the end" (0). */
    method ReadHeader(level: Level, off: nat, end: nat) returns (h: Option<Header>)
      requires off + 8 <= end <= |buf| && level != Entry
      ensures h == HeaderAt(buf, level, off, end)
    {
      var size, tag := Rd32(buf, off), Rd32(buf, off + 4);
      var hdr, bsize := 8, size;
      if size == 1 {
        if off + 16 > end {
          return None;
        }
        bsize, hdr := Rd64(buf, off + 8), 16;
      } else if size == 0 {
        bsize := end - off;
      }
      if bsize < hdr || off + bsize > end {
        return None;
      }
      return Some(Header(tag, off + hdr, off + bsize));
    }

    /** Looks into the first sample entry of an stsd payload; records its hvcC if the entry is HEVC. */
    method ScanStsd(t: Trak, off: nat, end: nat, ghost seen: seq<Box>)
      requires off <= end <= |buf|
      requires !bad && t.View() == TrackOf(buf, seen)
      modifies t, `bad
      ensures var kids := ParseKids(buf, Track, Header(STSD, off, end));
              bad == kids.None? && (kids.Some? ==> t.View() == TrackOf(buf, seen + Preorder(kids.value)))
    {
      var p := off + 8;
      if p + 8 <= end {
        var esize, etype := Rd32(buf, p), Rd32(buf, p + 4);
        var hevc := etype == HEV1 || etype == HVC1;
        if hevc && esize >= 8 && p + esize <= end {
          ScanEntry(t, p + 8 + 78, p + esize, seen);
          return;
        }
      }
      assert seen + [] == seen;
    }

    /** Walks the boxes of an HEVC sample entry. */
    method ScanEntry(t: Trak, c0: nat, cend: nat, ghost seen: seq<Box>)
      requires cend <= |buf|
      requires !bad && t.View() == TrackOf(buf, seen)
      modifies t, `bad
      ensures var boxes := Parse(buf, Entry, c0, cend);
              bad == boxes.None? && (boxes.Some? ==> t.View() == TrackOf(buf, seen + Preorder(boxes.value)))
    {
      hide TrackOf, Preorder, Parse, Continues;
      var c := c0;
      ghost var whole, done := Parse(buf, Entry, c, cend), [];
      WalkStarts(whole);
      NothingSeen(seen);
      while c + 8 <= cend
        invariant !bad
        invariant Continues(whole, done, Parse(buf, Entry, c, cend))
        invariant t.View() == TrackOf(buf, seen + Preorder(done))
        decreases cend - c
      {
        EntryBoxDone(buf, c, cend, whole, done, seen);
        var csize, ctype := Rd32(buf, c), Rd32(buf, c + 4);
        if csize < 8 || c + csize > cend {
          bad := true;
          return;
        }
        if ctype == HVCC {
          t.hvcc := Range(c + 8, csize - 8);
        }
        done := done + [Box(Entry, ctype, c + 8, c + csize, [])];
        c := c + csize;
      }
      EntryEnds(buf, c, cend);
      WalkEnds(whole, done);
    }

    /** Walks a trak subtree, filling t with its handler and its table ranges. */
    method ScanTrak(t: Trak, off0: nat, end: nat, ghost seen: seq<Box>)
      requires end <= |buf|
      requires !bad && t.View() == TrackOf(buf, seen)
      modifies t, `bad
      ensures var boxes := Parse(buf, Track, off0, end);
              bad == boxes.None? && (boxes.Some? ==> t.View() == TrackOf(buf, seen + Preorder(boxes.value)))
      decreases end - off0, 0
    {
      hide TrackOf, Preorder;
      var off := off0;
      ghost var whole, done := Parse(buf, Track, off, end), [];
      WalkStarts(whole);
      NothingSeen(seen);
      while off + 8 <= end && !bad
        invariant bad ==> whole.None?
        invariant !bad ==> Continues(whole, done, Parse(buf, Track, off, end))
        invariant !bad ==> t.View() == TrackOf(buf, seen + Preorder(done))
        invariant off0 <= off
        decreases end - off
      {
        var h := ReadHeader(Track, off, end);
        if h.None? {
          bad := true;
          return;
        }
        ghost var kids := ParseKids(buf, Track, h.value);
        ghost var b := BoxOf(Track, h.value, kids);
        BoxDone(buf, Track, off, end, whole, done, b);
        Extend(seen, done, b);
        VisitTrakBox(t, h.value, seen + Preorder(done));
        off := h.value.end;
        done := done + [b];
      }
      if !bad {
        WalkEnds(whole, done);
      }
    }

    /** What the trak walk does with one box. */
    method VisitTrakBox(t: Trak, h: Header, ghost seen: seq<Box>)
      requires h.start <= h.end <= |buf|
      requires !bad && t.View() == TrackOf(buf, seen)
      modifies t, `bad
      ensures var kids := ParseKids(buf, Track, h);
              && bad == kids.None?
              && (kids.Some? ==> t.View() == TrackOf(buf, seen + [BoxOf(Track, h, kids)] + Preorder(kids.value)))
      decreases h.end - h.start, 1
    {
      var p, pend := h.start, h.end;
      ghost var kids := ParseKids(buf, Track, h);
      ghost var b := BoxOf(Track, h, kids);
      NoteTrackBox(buf, seen, b);
      assert seen + [b] + [] == seen + [b];
      if h.tag == HDLR {
        if p + 12 <= pend && Rd32(buf, p + 8) == VIDE {
          t.isVide := true;
        }
      } else if h.tag == STSZ {
        t.stsz := Range(p, pend - p);
      } else if h.tag == STCO {
        t.stco, t.stcoIs64 := Range(p, pend - p), false;
      } else if h.tag == CO64 {
        t.stco, t.stcoIs64 := Range(p, pend - p), true;
      } else if h.tag == STSC {
        t.stsc := Range(p, pend - p);
      } else if h.tag == STSD {
        ScanStsd(t, p, pend, seen + [b]);
      } else if IsTrackContainer(h.tag) {
        ScanTrak(t, p, pend, seen + [b]);
      }
    }

    /** Walks file-level boxes and movie boxes: counts fragments and video tracks, keeps the last video track. */
    method ScanTop(off0: nat, end: nat, ghost seen: seq<Box>)
      requires end <= |buf|
      requires !bad && Knows(seen)
      modifies this
      ensures var boxes := Parse(buf, Top, off0, end);
              bad == boxes.None? && (boxes.Some? ==> Knows(seen + TopBoxes(boxes.value)))
      decreases end - off0, 0
    {
      hide Describes, TopBoxes;
      var off := off0;
      ghost var whole, done := Parse(buf, Top, off, end), [];
      WalkStarts(whole);
      NothingSeen(seen);
      while off + 8 <= end && !bad
        invariant bad ==> whole.None?
        invariant !bad ==> Continues(whole, done, Parse(buf, Top, off, end))
        invariant !bad ==> Knows(seen + TopBoxes(done))
        invariant off0 <= off
        decreases end - off
      {
        var h := ReadHeader(Top, off, end);
        if h.None? {
          bad := true;
          return;
        }
        ghost var kids := ParseKids(buf, Top, h.value);
        ghost var b := BoxOf(Top, h.value, kids);
        BoxDone(buf, Top, off, end, whole, done, b);
        ExtendTop(seen, done, b);
        VisitTopBox(h.value, seen + TopBoxes(done));
        off := h.value.end;
        done := done + [b];
      }
      if !bad {
        WalkEnds(whole, done);
      }
    }

    /** What the file-level walk does with one box. */
    method VisitTopBox(h: Header, ghost seen: seq<Box>)
      requires h.start <= h.end <= |buf|
      requires !bad && Knows(seen)
      modifies this
      ensures var kids := ParseKids(buf, Top, h);
              && bad == kids.None?
              && (kids.Some? ==>
                    Knows(seen + [BoxOf(Top, h, kids)] + if h.tag == TRAK then [] else TopBoxes(kids.value)))
      decreases h.end - h.start, 1
    {
      hide Describes, TrackOf, Preorder, TopBoxes;
      ghost var kids := ParseKids(buf, Top, h);
      ghost var b := BoxOf(Top, h, kids);
      NoteTopBox(buf, seen, b, nVide, nMoof, vtrak);
      NothingSeen(seen + [b]);
      assert seen + [b] + [] == seen + [b];
      if h.tag == MOOF {
        nMoof := nMoof + 1;
      } else if h.tag == TRAK {
        var t := new Trak();
        ghost var nothing: seq<Box> := [];
        NothingYet(buf);
        ScanTrak(t, h.start, h.end, nothing);
        assert kids.Some? ==> nothing + Preorder(kids.value) == Preorder(kids.value);
        if t.isVide {
          nVide := nVide + 1;
          vtrak := t.View();
        }
      } else if h.tag == MOOV {
        ScanTop(h.start, h.end, seen + [b]);
      }
    }
  }

  // ----- one step of a walk

  function BoxOf(level: Level, h: Header, kids: Option<seq<Box>>): Box {
    Box(level, h.tag, h.start, h.end, if kids.Some? then kids.value else [])
  }

  /** The whole range parses as the boxes done so far followed by what the rest parses as. */
  ghost predicate Continues(whole: Option<seq<Box>>, done: seq<Box>, rest: Option<seq<Box>>) {
    whole == if rest.Some? then Some(done + rest.value) else None
  }

  lemma WalkStarts(whole: Option<seq<Box>>)
    ensures Continues(whole, [], whole)
  {
    if whole.Some? {
      assert [] + whole.value == whole.value;
    }
  }

  lemma WalkEnds(whole: Option<seq<Box>>, done: seq<Box>)
    requires Continues(whole, done, Some([]))
    ensures whole == Some(done)
  {
    assert done + [] == done;
  }

  lemma {:induction false} BoxDone(buf: seq<byte>, level: Level, off: nat, end: nat, whole: Option<seq<Box>>,
                                   done: seq<Box>, b: Box)
    requires off + 8 <= end <= |buf|
    requires HeaderAt(buf, level, off, end) == Some(Header(b.tag, b.start, b.end)) && b.level == level
    requires Continues(whole, done, Parse(buf, level, off, end))
    ensures ParseKids(buf, level, Header(b.tag, b.start, b.end)).None? ==> whole.None?
    ensures ParseKids(buf, level, Header(b.tag, b.start, b.end)) == Some(b.kids) ==>
              Continues(whole, done + [b], Parse(buf, level, b.end, end))
  {
    var rest := Parse(buf, level, b.end, end);
    if rest.Some? {
      assert done + ([b] + rest.value) == done + [b] + rest.value;
    }
  }

  lemma NothingSeen(seen: seq<Box>)
    ensures seen + Preorder([]) == seen && seen + TopBoxes([]) == seen
  {
  }

  lemma PreorderOne(b: Box)
    ensures Preorder([b]) == [b] + Preorder(b.kids)
  {
    assert [b][1..] == [];
  }

  lemma {:induction false} Extend(seen: seq<Box>, done: seq<Box>, b: Box)
    ensures seen + Preorder(done + [b]) == seen + Preorder(done) + [b] + Preorder(b.kids)
  {
    hide *;
    PreorderAppend(done, [b]);
    PreorderOne(b);
    assert seen + (Preorder(done) + ([b] + Preorder(b.kids))) == seen + Preorder(done) + [b] + Preorder(b.kids);
  }

  lemma {:induction false} ExtendLeaf(seen: seq<Box>, done: seq<Box>, b: Box)
    requires b.kids == []
    ensures seen + Preorder(done + [b]) == seen + Preorder(done) + [b]
  {
    Extend(seen, done, b);
    assert seen + Preorder(done) + [b] + [] == seen + Preorder(done) + [b];
  }

  lemma {:induction false} EntryEnds(buf: seq<byte>, c: nat, cend: nat)
    requires c + 8 > cend && cend <= |buf|
    ensures Parse(buf, Entry, c, cend) == Some([])
  {
  }

  /** One step of the walk through a sample entry. */
  lemma EntryBoxDone(buf: seq<byte>, c: nat, cend: nat, whole: Option<seq<Box>>, done: seq<Box>, seen: seq<Box>)
    requires c + 8 <= cend <= |buf|
    requires Continues(whole, done, Parse(buf, Entry, c, cend))
    ensures var size, tag := Rd32(buf, c), Rd32(buf, c + 4);
            if size < 8 || c + size > cend then whole.None?
            else
              var b, t := Box(Entry, tag, c + 8, c + size, []), TrackOf(buf, seen + Preorder(done));
              && Continues(whole, done + [b], Parse(buf, Entry, c + size, cend))
              && TrackOf(buf, seen + Preorder(done + [b])) ==
                if tag == HVCC then t.(hvcc := Range(c + 8, size - 8)) else t
  {
    var size, tag := Rd32(buf, c), Rd32(buf, c + 4);
    if size >= 8 && c + size <= cend {
      var b := Box(Entry, tag, c + 8, c + size, []);
      BoxDone(buf, Entry, c, cend, whole, done, b);
      NoteEntryBox(buf, seen + Preorder(done), b);
      ExtendLeaf(seen, done, b);
    }
  }

  lemma {:induction false} ExtendTop(seen: seq<Box>, done: seq<Box>, b: Box)
    ensures seen + TopBoxes(done + [b]) ==
            seen + TopBoxes(done) + [b] + (if b.tag == TRAK then [] else TopBoxes(b.kids))
  {
    TopBoxesAppend(done, [b]);
    assert [b][1..] == [];
    assert TopBoxes([b]) == [b] + (if b.tag == TRAK then [] else TopBoxes(b.kids));
  }

  lemma NothingYet(buf: seq<byte>)
    ensures TrackOf(buf, []) == NO_TRACK
  {
  }

  /** What one more box of a trak changes in its description. */
  lemma NoteTrackBox(buf: seq<byte>, seen: seq<Box>, b: Box)
    requires b.start <= b.end && b.level == Track
    ensures var t, r := TrackOf(buf, seen), Range(b.start, b.end - b.start);
            TrackOf(buf, seen + [b]) ==
              if b.tag == HDLR then t.(isVide := t.isVide || SaysVideo(buf, b))
              else if b.tag == STSZ then t.(stsz := r)
              else if b.tag == STCO || b.tag == CO64 then t.(stco := r, is64 := b.tag == CO64)
              else if b.tag == STSC then t.(stsc := r)
              else t
  {
    var all := seen + [b];
    assert all[..|all| - 1] == seen;
    assert SaysVideo(buf, b) ==> SaysVideo(buf, all[|seen|]);
    assert forall i :: 0 <= i < |seen| ==> all[i] == seen[i];
  }

  /** What one more box of a sample entry changes in the description of its trak. */
  lemma NoteEntryBox(buf: seq<byte>, seen: seq<Box>, b: Box)
    requires b.start <= b.end && b.level == Entry
    ensures var t, r := TrackOf(buf, seen), Range(b.start, b.end - b.start);
            TrackOf(buf, seen + [b]) == if b.tag == HVCC then t.(hvcc := r) else t
  {
    var all := seen + [b];
    assert all[..|all| - 1] == seen;
    assert forall i :: 0 <= i < |seen| ==> all[i] == seen[i];
  }

  /** The number of video tracks and fragments among top-level boxes, and the last video track. */
  ghost predicate Describes(buf: seq<byte>, seen: seq<Box>, nVide: nat, nMoof: nat, vtrak: TrackInfo) {
    var vt := VideoTracks(buf, seen);
    && nVide == |vt|
    && nMoof == CountMoof(seen)
    && vtrak == if vt == [] then NO_TRACK else TrackOfBox(buf, vt[|vt| - 1])
  }

  lemma NoteTopBox(buf: seq<byte>, seen: seq<Box>, b: Box, nVide: nat, nMoof: nat, vtrak: TrackInfo)
    requires Describes(buf, seen, nVide, nMoof, vtrak)
    ensures var nMoof' := if b.tag == MOOF then nMoof + 1 else nMoof;
            if b.tag == TRAK && TrackOfBox(buf, b).isVide
            then Describes(buf, seen + [b], nVide + 1, nMoof', TrackOfBox(buf, b))
            else Describes(buf, seen + [b], nVide, nMoof', vtrak)
  {
    assert (seen + [b])[..|seen|] == seen;
  }
}

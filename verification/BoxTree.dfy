// The box structure of an ISO base media file (sections 4.2, 8.3, 8.4.3, 8.5 and 8.7 of
// ISO/IEC 14496-12) as a tree, and what a track is, stated on that tree.

module BoxTree {
  import opened Bytes

  // Four-character codes as big-endian 32-bit numbers: comparing the numbers is comparing the codes.
  const MOOV := 0x6D6F_6F76
  const TRAK := 0x7472_616B
  const MOOF := 0x6D6F_6F66
  const MDIA := 0x6D64_6961
  const MINF := 0x6D69_6E66
  const STBL := 0x7374_626C
  const EDTS := 0x6564_7473
  const DINF := 0x6469_6E66
  const HDLR := 0x6864_6C72
  const VIDE := 0x7669_6465
  const STSZ := 0x7374_737A
  const STCO := 0x7374_636F
  const CO64 := 0x636F_3634
  const STSC := 0x7374_7363
  const STSD := 0x7374_7364
  const HEV1 := 0x6865_7631
  const HVC1 := 0x6876_6331
  const HVCC := 0x6876_6343

  /** Where a walk is: at file level (or in moov), inside a trak, or inside an HEVC sample entry. */
  datatype Level = Top | Track | Entry

  /** A box with its payload range [start, end) and the boxes the walk finds inside it. */
  datatype Box = Box(level: Level, tag: nat, start: nat, end: nat, kids: seq<Box>)

  datatype Header = Header(tag: nat, start: nat, end: nat)

  predicate IsTrackContainer(tag: nat) {
    tag == MDIA || tag == MINF || tag == STBL || tag == EDTS || tag == DINF
  }

  /** The header at off, if it is well formed and its box ends by end. Inside a sample entry only the
      32-bit size form exists; elsewhere size 1 announces a 64-bit size and size 0 means "to the end". */
  function HeaderAt(buf: seq<byte>, level: Level, off: nat, end: nat): (h: Option<Header>)
    requires off + 8 <= end <= |buf|
    ensures h.Some? ==> off + 8 <= h.value.start <= h.value.end <= end
  {
    var size, tag := Rd32(buf, off), Rd32(buf, off + 4);
    if level == Entry then
      if size < 8 || off + size > end then None else Some(Header(tag, off + 8, off + size))
    else if size == 1 && off + 16 > end then None
    else
      var hdr := if size == 1 then 16 else 8;
      var bsize := if size == 1 then Rd64(buf, off + 8) else if size == 0 then end - off else size;
      if bsize < hdr || off + bsize > end then None else Some(Header(tag, off + hdr, off + bsize))
  }

  /** The range of a walk's next level down, if the walk descends into this box at all. For a sample
      description it is the box list of its first entry, behind the 78 bytes of a visual sample entry,
      and only if that entry is an HEVC one that fits. */
  function Inside(buf: seq<byte>, level: Level, h: Header): (r: Option<(Level, nat, nat)>)
    requires h.start <= h.end <= |buf|
    ensures r.Some? ==> h.start <= r.value.1 && r.value.2 <= h.end
  {
    if level == Top && h.tag == MOOV then Some((Top, h.start, h.end))
    else if level == Top && h.tag == TRAK then Some((Track, h.start, h.end))
    else if level == Track && IsTrackContainer(h.tag) then Some((Track, h.start, h.end))
    else if level == Track && h.tag == STSD then
      var p := h.start + 8;
      if p + 8 > h.end then None
      else
        var esize, etype := Rd32(buf, p), Rd32(buf, p + 4);
        if (etype != HEV1 && etype != HVC1) || esize < 8 || p + esize > h.end then None
        else Some((Entry, p + 8 + 78, p + esize))
    else None
  }

  /** The boxes of a range; None if any box the walk reaches is malformed. Up to 7 bytes may follow the last box. */
  function Parse(buf: seq<byte>, level: Level, off: nat, end: nat): (r: Option<seq<Box>>)
    requires end <= |buf|
    decreases end - off, 0
  {
    if off + 8 > end then Some([])
    else match HeaderAt(buf, level, off, end)
      case None => None
      case Some(h) =>
        match ParseKids(buf, level, h)
        case None => None
        case Some(kids) =>
          match Parse(buf, level, h.end, end)
          case None => None
          case Some(rest) => Some([Box(level, h.tag, h.start, h.end, kids)] + rest)
  }

  function ParseKids(buf: seq<byte>, level: Level, h: Header): Option<seq<Box>>
    requires h.start <= h.end <= |buf|
    decreases h.end - h.start, 1
  {
    match Inside(buf, level, h)
    case None => Some([])
    case Some((inner, a, b)) => Parse(buf, inner, a, b)
  }

  /** A list of boxes and everything below them, in file order. */
  function Preorder(boxes: seq<Box>): seq<Box> {
    if boxes == [] then [] else [boxes[0]] + Preorder(boxes[0].kids) + Preorder(boxes[1..])
  }

  lemma {:induction false} PreorderAppend(a: seq<Box>, b: seq<Box>)
    ensures Preorder(a + b) == Preorder(a) + Preorder(b)
  {
    if a == [] {
      assert a + b == b;
    } else {
      PreorderAppend(a[1..], b);
      assert (a + b)[1..] == a[1..] + b;
      var head := [a[0]] + Preorder(a[0].kids);
      assert Preorder(a + b) == head + Preorder(a[1..] + b);
      assert head + (Preorder(a[1..]) + Preorder(b)) == head + Preorder(a[1..]) + Preorder(b);
    }
  }

  /** The boxes of a range and of the movie boxes in it, in file order; nothing below a track. */
  function TopBoxes(boxes: seq<Box>): seq<Box> {
    if boxes == [] then []
    else [boxes[0]] + (if boxes[0].tag == TRAK then [] else TopBoxes(boxes[0].kids)) + TopBoxes(boxes[1..])
  }

  lemma {:induction false} TopBoxesAppend(a: seq<Box>, b: seq<Box>)
    ensures TopBoxes(a + b) == TopBoxes(a) + TopBoxes(b)
  {
    if a == [] {
      assert a + b == b;
    } else {
      TopBoxesAppend(a[1..], b);
      assert (a + b)[1..] == a[1..] + b;
      var head := [a[0]] + (if a[0].tag == TRAK then [] else TopBoxes(a[0].kids));
      assert TopBoxes(a + b) == head + TopBoxes(a[1..] + b);
      assert head + (TopBoxes(a[1..]) + TopBoxes(b)) == head + TopBoxes(a[1..]) + TopBoxes(b);
    }
  }

  // ----- tracks

  datatype Range = Range(off: nat, len: nat)

  const EMPTY := Range(0, 0)

  /** What the demuxer keeps about one track: the payload ranges of its tables. */
  datatype TrackInfo = TrackInfo(isVide: bool, hvcc: Range, stsz: Range, stco: Range, is64: bool, stsc: Range)

  const NO_TRACK := TrackInfo(false, EMPTY, EMPTY, EMPTY, false, EMPTY)

  /** A handler box that says "video". */
  predicate SaysVideo(buf: seq<byte>, b: Box) {
    b.level == Track && b.tag == HDLR && b.start + 12 <= b.end <= |buf| && Rd32(buf, b.start + 8) == VIDE
  }

  predicate Is(b: Box, level: Level, tags: set<nat>) {
    b.level == level && b.tag in tags
  }

  /** The last box of a kind, in file order. */
  function Latest(boxes: seq<Box>, level: Level, tags: set<nat>): Option<Box> {
    if boxes == [] then None
    else
      var n := |boxes| - 1;
      if Is(boxes[n], level, tags) then Some(boxes[n]) else Latest(boxes[..n], level, tags)
  }

  lemma {:induction false} LatestIsLast(boxes: seq<Box>, level: Level, tags: set<nat>) returns (i: nat)
    ensures Latest(boxes, level, tags).None? ==> forall j :: 0 <= j < |boxes| ==> !Is(boxes[j], level, tags)
    ensures Latest(boxes, level, tags).Some? ==> i < |boxes| && Latest(boxes, level, tags) == Some(boxes[i])
    ensures Latest(boxes, level, tags).Some? ==> Is(boxes[i], level, tags)
    ensures Latest(boxes, level, tags).Some? ==> forall j :: i < j < |boxes| ==> !Is(boxes[j], level, tags)
  {
    i := 0;
    if boxes != [] {
      var n := |boxes| - 1;
      if Is(boxes[n], level, tags) {
        i := n;
      } else {
        i := LatestIsLast(boxes[..n], level, tags);
      }
    }
  }

  function RangeOf(b: Option<Box>): Range {
    if b.Some? && b.value.start <= b.value.end then Range(b.value.start, b.value.end - b.value.start) else EMPTY
  }

  /** What a track's boxes say, taken together: a table is where the last box of its kind put it. */
  function TrackOf(buf: seq<byte>, boxes: seq<Box>): TrackInfo {
    var offsets := Latest(boxes, Track, {STCO, CO64});
    TrackInfo(
      exists i :: 0 <= i < |boxes| && SaysVideo(buf, boxes[i]),
      RangeOf(Latest(boxes, Entry, {HVCC})),
      RangeOf(Latest(boxes, Track, {STSZ})),
      RangeOf(offsets),
      offsets.Some? && offsets.value.tag == CO64,
      RangeOf(Latest(boxes, Track, {STSC})))
  }

  function TrackOfBox(buf: seq<byte>, b: Box): TrackInfo {
    TrackOf(buf, Preorder(b.kids))
  }

  /** The video tracks among some boxes, in file order. */
  function VideoTracks(buf: seq<byte>, boxes: seq<Box>): seq<Box> {
    if boxes == [] then []
    else
      var n := |boxes| - 1;
      VideoTracks(buf, boxes[..n]) +
      (if boxes[n].tag == TRAK && TrackOfBox(buf, boxes[n]).isVide then [boxes[n]] else [])
  }

  function CountMoof(boxes: seq<Box>): nat {
    if boxes == [] then 0
    else CountMoof(boxes[..|boxes| - 1]) + (if boxes[|boxes| - 1].tag == MOOF then 1 else 0)
  }
}

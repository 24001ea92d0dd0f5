// A printer of boxes (section 4.2 of ISO/IEC 14496-12): types are written as their four characters, sizes in any of
// the three forms; and what the parser of BoxTree makes of them.

module Mp4Boxes {
  import opened Bytes
  import opened AnnexB
  import opened BoxTree
  import opened NalFraming

  const TWO32 := 0x1_0000_0000

  function Word(n: nat): (s: seq<byte>)
    ensures |s| == 4
  {
    BeBytes(n, 4)
  }

  function Long(n: nat): (s: seq<byte>)
    ensures |s| == 8
  {
    BeBytes(n, 8)
  }

  function Words(ns: seq<nat>): (s: seq<byte>)
    ensures |s| == 4 * |ns|
  {
    if ns == [] then [] else Word(ns[0]) + Words(ns[1..])
  }

  function Longs(ns: seq<nat>): (s: seq<byte>)
    ensures |s| == 8 * |ns|
  {
    if ns == [] then [] else Long(ns[0]) + Longs(ns[1..])
  }

  /** A character of ASCII. */
  type Letter = c: char | c as int < 128

  /** A box type: four characters. */
  datatype Four = Four(a: Letter, b: Letter, c: Letter, d: Letter)

  const T_FTYP := Four('f', 't', 'y', 'p')
  const T_MOOV := Four('m', 'o', 'o', 'v')
  const T_TRAK := Four('t', 'r', 'a', 'k')
  const T_MOOF := Four('m', 'o', 'o', 'f')
  const T_MDIA := Four('m', 'd', 'i', 'a')
  const T_MINF := Four('m', 'i', 'n', 'f')
  const T_STBL := Four('s', 't', 'b', 'l')
  const T_EDTS := Four('e', 'd', 't', 's')
  const T_DINF := Four('d', 'i', 'n', 'f')
  const T_HDLR := Four('h', 'd', 'l', 'r')
  const T_VIDE := Four('v', 'i', 'd', 'e')
  const T_SOUN := Four('s', 'o', 'u', 'n')
  const T_STSZ := Four('s', 't', 's', 'z')
  const T_STCO := Four('s', 't', 'c', 'o')
  const T_CO64 := Four('c', 'o', '6', '4')
  const T_STSC := Four('s', 't', 's', 'c')
  const T_STSD := Four('s', 't', 's', 'd')
  const T_HEV1 := Four('h', 'e', 'v', '1')
  const T_HVC1 := Four('h', 'v', 'c', '1')
  const T_HVCC := Four('h', 'v', 'c', 'C')
  const T_MDAT := Four('m', 'd', 'a', 't')
  const T_COLR := Four('c', 'o', 'l', 'r')

  function Tag(tag: Four): (s: seq<byte>)
    ensures |s| == 4
  {
    [tag.a as int, tag.b as int, tag.c as int, tag.d as int]
  }

  function TagValue(tag: Four): nat {
    0x100_0000 * tag.a as int + 0x1_0000 * tag.b as int + 0x100 * tag.c as int + tag.d as int
  }

  /** How a box tells its size: in 32 bits, in 64 bits, or as the rest of its range. */
  datatype Form = Short | Wide | ToEnd

  function Hdr(f: Form): nat {
    if f == Wide then 16 else 8
  }

  function PrintBox(f: Form, tag: Four, payload: seq<byte>): (s: seq<byte>)
    ensures |s| == Hdr(f) + |payload|
  {
    (match f
     case Short => Word(8 + |payload|) + Tag(tag)
     case Wide => Word(1) + Tag(tag) + Long(16 + |payload|)
     case ToEnd => Word(0) + Tag(tag)) + payload
  }

  // ----- words

  lemma WordOfBe(s: seq<byte>, i: nat)
    requires i + 4 <= |s|
    ensures Rd32(s, i) == Be(s[i..i + 4])
  {
    var t := s[i..i + 4];
    assert t[..3][..2] == t[..2] && t[..2][..1] == t[..1] && t[..1][..0] == [];
    assert Be(t[..1]) == s[i];
    assert Be(t[..2]) == 256 * s[i] as int + s[i + 1] as int;
    assert Be(t[..3]) == 65536 * s[i] as int + 256 * s[i + 1] as int + s[i + 2] as int;
  }

  lemma Pow256Of4()
    ensures Pow256(4) == TWO32
  {
    assert Pow256(0) == 1 && Pow256(1) == 256 && Pow256(2) == 0x1_0000 && Pow256(3) == 0x100_0000;
  }

  lemma WordReads(buf: seq<byte>, p: nat, n: nat)
    requires n < TWO32 && HoldsAt(buf, p, Word(n))
    ensures p + 4 <= |buf| && Rd32(buf, p) == n
  {
    Pow256Of4();
    BeOfBeBytes(n, 4);
    WordOfBe(buf, p);
  }

  /** A number that fits the lower bytes leaves the upper ones 0. */
  lemma {:induction false} UpperBytes(n: nat, high: nat, low: nat)
    requires n < Pow256(low)
    ensures BeBytes(n, high + low) == BeBytes(0, high) + BeBytes(n, low)
    decreases low
  {
    if low > 0 {
      UpperBytes(n / 256, high, low - 1);
      var upper, lower, last := BeBytes(0, high), BeBytes(n / 256, low - 1), n % 256;
      assert BeBytes(n, high + low) == upper + lower + [last];
      assert upper + (lower + [last]) == upper + lower + [last];
    }
  }

  lemma LongIsWords(n: nat)
    requires n < TWO32
    ensures Long(n) == Word(0) + Word(n)
  {
    Pow256Of4();
    UpperBytes(n, 4, 4);
  }

  lemma LongReads(buf: seq<byte>, p: nat, n: nat)
    requires n < TWO32 && HoldsAt(buf, p, Long(n))
    ensures p + 8 <= |buf| && Rd64(buf, p) == n
  {
    hide Word, Long, HoldsAt;
    LongIsWords(n);
    HoldsAtConcat(buf, p, Word(0), Word(n));
    WordReads(buf, p, 0);
    WordReads(buf, p + 4, n);
  }

  lemma {:induction false} WordsRead(buf: seq<byte>, p: nat, ns: seq<nat>, k: nat)
    requires HoldsAt(buf, p, Words(ns)) && k < |ns| && ns[k] < TWO32
    ensures p + 4 * k + 4 <= |buf| && Rd32(buf, p + 4 * k) == ns[k]
    decreases k
  {
    hide HoldsAt, Word, Rd32;
    HoldsAtConcat(buf, p, Word(ns[0]), Words(ns[1..]));
    if k == 0 {
      WordReads(buf, p, ns[0]);
    } else {
      WordsRead(buf, p + 4, ns[1..], k - 1);
    }
  }

  lemma {:induction false} LongsRead(buf: seq<byte>, p: nat, ns: seq<nat>, k: nat)
    requires HoldsAt(buf, p, Longs(ns)) && k < |ns| && ns[k] < TWO32
    ensures p + 8 * k + 8 <= |buf| && Rd64(buf, p + 8 * k) == ns[k]
    decreases k
  {
    hide HoldsAt, Long, Rd64;
    HoldsAtConcat(buf, p, Long(ns[0]), Longs(ns[1..]));
    if k == 0 {
      LongReads(buf, p, ns[0]);
    } else {
      LongsRead(buf, p + 8, ns[1..], k - 1);
    }
  }

  lemma TagReads(buf: seq<byte>, p: nat, tag: Four)
    requires HoldsAt(buf, p, Tag(tag))
    ensures p + 4 <= |buf| && Rd32(buf, p) == TagValue(tag)
  {
    var s := buf[p..p + 4];
    assert s[0] == buf[p] && s[1] == buf[p + 1] && s[2] == buf[p + 2] && s[3] == buf[p + 3];
  }

  /** The box types the walk knows, by their characters. */
  lemma KnownTags()
    ensures TagValue(T_MOOV) == MOOV && TagValue(T_TRAK) == TRAK && TagValue(T_MOOF) == MOOF
    ensures TagValue(T_MDIA) == MDIA && TagValue(T_MINF) == MINF && TagValue(T_STBL) == STBL
    ensures TagValue(T_EDTS) == EDTS && TagValue(T_DINF) == DINF
    ensures TagValue(T_HDLR) == HDLR && TagValue(T_VIDE) == VIDE
    ensures TagValue(T_STSZ) == STSZ && TagValue(T_STCO) == STCO && TagValue(T_CO64) == CO64 && TagValue(T_STSC) == STSC
    ensures TagValue(T_STSD) == STSD && TagValue(T_HEV1) == HEV1 && TagValue(T_HVC1) == HVC1 && TagValue(T_HVCC) == HVCC
  {
  }

  // ----- boxes

  /** The box at off is read back: its type, its payload range, its payload. */
  lemma BoxReads(buf: seq<byte>, level: Level, off: nat, end: nat, f: Form, tag: Four, payload: seq<byte>)
    requires HoldsAt(buf, off, PrintBox(f, tag, payload)) && off + Hdr(f) + |payload| <= end <= |buf| < TWO32
    requires (level == Entry ==> f == Short) && (f == ToEnd ==> off + Hdr(f) + |payload| == end)
    ensures HeaderAt(buf, level, off, end) == Some(Header(TagValue(tag), off + Hdr(f), off + Hdr(f) + |payload|))
    ensures HoldsAt(buf, off + Hdr(f), payload)
  {
    hide HoldsAt, Word, Long, Tag, TagValue, Rd32, Rd64;
    match f
    case Short =>
      HoldsAtConcat(buf, off, Word(8 + |payload|) + Tag(tag), payload);
      HoldsAtConcat(buf, off, Word(8 + |payload|), Tag(tag));
      WordReads(buf, off, 8 + |payload|);
      TagReads(buf, off + 4, tag);
    case Wide =>
      HoldsAtConcat(buf, off, Word(1) + Tag(tag) + Long(16 + |payload|), payload);
      HoldsAtConcat(buf, off, Word(1) + Tag(tag), Long(16 + |payload|));
      HoldsAtConcat(buf, off, Word(1), Tag(tag));
      WordReads(buf, off, 1);
      TagReads(buf, off + 4, tag);
      LongReads(buf, off + 8, 16 + |payload|);
    case ToEnd =>
      HoldsAtConcat(buf, off, Word(0) + Tag(tag), payload);
      HoldsAtConcat(buf, off, Word(0), Tag(tag));
      WordReads(buf, off, 0);
      TagReads(buf, off + 4, tag);
  }

  function BoxAt(level: Level, f: Form, tag: Four, off: nat, len: nat, kids: seq<Box>): Box {
    Box(level, TagValue(tag), off + Hdr(f), off + Hdr(f) + len, kids)
  }

  /** A printed box is parsed as the i-th of some boxes, if what follows is parsed as the later ones. */
  lemma BoxParses(buf: seq<byte>, level: Level, off: nat, end: nat, f: Form, tag: Four, payload: seq<byte>,
                  boxes: seq<Box>, i: nat)
    requires HoldsAt(buf, off, PrintBox(f, tag, payload)) && off + Hdr(f) + |payload| <= end <= |buf| < TWO32
    requires (level == Entry ==> f == Short) && (f == ToEnd ==> off + Hdr(f) + |payload| == end)
    requires i < |boxes| && boxes[i] == BoxAt(level, f, tag, off, |payload|, boxes[i].kids)
    requires ParseKids(buf, level, Header(TagValue(tag), off + Hdr(f), off + Hdr(f) + |payload|)) == Some(boxes[i].kids)
    requires Parse(buf, level, off + Hdr(f) + |payload|, end) == Some(boxes[i + 1..])
    ensures Parse(buf, level, off, end) == Some(boxes[i..])
  {
    hide HoldsAt, PrintBox, TagValue, HeaderAt, ParseKids;
    BoxReads(buf, level, off, end, f, tag, payload);
    assert [boxes[i]] + boxes[i + 1..] == boxes[i..];
  }

  /** At the end of a range there is nothing. */
  lemma {:induction false} NothingParses(buf: seq<byte>, level: Level, end: nat, boxes: seq<Box>)
    requires end <= |buf|
    ensures Parse(buf, level, end, end) == Some([]) && boxes[|boxes|..] == []
  {
  }

  /** The walk enters movies and tracks on top, and these five containers in a track. */
  predicate IsContainer(level: Level, tag: Four) {
    tag in (if level == Top then [T_MOOV, T_TRAK] else if level ==
      Track then [T_MDIA, T_MINF, T_STBL, T_EDTS, T_DINF] else [])
  }

  /** A box whose own range is parsed as boxes. */
  lemma ContainerParses(buf: seq<byte>, level: Level, off: nat, end: nat, f: Form, tag: Four, payload: seq<byte>,
                        boxes: seq<Box>, i: nat)
    requires HoldsAt(buf, off, PrintBox(f, tag, payload)) && off + Hdr(f) + |payload| <= end <= |buf| < TWO32
    requires IsContainer(level, tag) && (f == ToEnd ==> off + Hdr(f) + |payload| == end)
    requires i < |boxes| && boxes[i] == BoxAt(level, f, tag, off, |payload|, boxes[i].kids)
    requires Parse(buf, if tag == T_MOOV then Top else Track, off + Hdr(f), off + Hdr(f) + |payload|) ==
               Some(boxes[i].kids)
    requires Parse(buf, level, off + Hdr(f) + |payload|, end) == Some(boxes[i + 1..])
    ensures Parse(buf, level, off, end) == Some(boxes[i..])
  {
    hide HoldsAt, PrintBox, TagValue, HeaderAt, Parse;
    KnownTags();
    BoxParses(buf, level, off, end, f, tag, payload, boxes, i);
  }

  /** A box the walk does not look into. */
  lemma LeafParses(buf: seq<byte>, level: Level, off: nat, end: nat, f: Form, tag: Four, payload: seq<byte>,
                   boxes: seq<Box>, i: nat)
    requires HoldsAt(buf, off, PrintBox(f, tag, payload)) && off + Hdr(f) + |payload| <= end <= |buf| < TWO32
    requires (level == Entry ==> f == Short) && (f == ToEnd ==> off + Hdr(f) + |payload| == end)
    requires level == Top ==> TagValue(tag) != MOOV && TagValue(tag) != TRAK
    requires level == Track ==> TagValue(tag) != STSD && !IsTrackContainer(TagValue(tag))
    requires i < |boxes| && boxes[i] == BoxAt(level, f, tag, off, |payload|, [])
    requires Parse(buf, level, off + Hdr(f) + |payload|, end) == Some(boxes[i + 1..])
    ensures Parse(buf, level, off, end) == Some(boxes[i..])
  {
    hide HoldsAt, PrintBox, TagValue, HeaderAt, Parse;
    BoxParses(buf, level, off, end, f, tag, payload, boxes, i);
  }
}

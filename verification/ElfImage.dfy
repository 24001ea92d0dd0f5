// Where the loader puts the segments of a shared object: the reserved span and its contents before
// relocation (Program Header chapter of the System V gABI).

module ElfImage {
  import opened Bytes

  const PAGE := 0x1000
  const MAX64 := 0xFFFF_FFFF_FFFF_FFFF

  const PT_LOAD := 1
  const PT_DYNAMIC := 2

  /** A program header; writable and executable are the PF_W and PF_X bits of its flags. */
  datatype Phdr = Phdr(ptype: nat, writable: bool, executable: bool, offset: nat, vaddr: nat, filesz: nat, memsz: nat)

  function PageDown(x: nat): (p: nat)
    ensures p <= x < p + 0x1000 && p % 0x1000 == 0
  {
    x - x % PAGE
  }

  function PageUp(x: nat): (p: nat)
    ensures x <= p < x + 0x1000 && p % 0x1000 == 0
  {
    PageDown(x + PAGE - 1)
  }

  lemma PageBounds(x: nat, p: nat)
    requires p % PAGE == 0
    ensures p <= x ==> p <= PageDown(x)
    ensures x <= p ==> PageUp(x) <= p
  {
  }

  // ----- the span

  datatype Span = Span(vmin: nat, vmax: nat, dyn: nat)

  /** vmin and vmax are the least start and the greatest end of the first n headers' load segments;
      dyn is the place of the last dynamic segment among them. */
  ghost predicate IsSpan(ph: seq<Phdr>, n: nat, s: Span)
    requires n <= |ph|
  {
    && (forall i :: 0 <= i < n && ph[i].ptype == PT_LOAD ==>
          s.vmin <= ph[i].vaddr && ph[i].vaddr + ph[i].memsz <= s.vmax)
    && (s.vmin == MAX64 || exists i :: 0 <= i < n && ph[i].ptype == PT_LOAD && ph[i].vaddr == s.vmin)
    && (s.vmax == 0 || exists i :: 0 <= i < n && ph[i].ptype == PT_LOAD && ph[i].vaddr + ph[i].memsz == s.vmax)
    && (s.dyn == 0 || exists i :: 0 <= i < n && ph[i].ptype == PT_DYNAMIC && ph[i].vaddr == s.dyn
                                  && forall j :: i < j < n ==> ph[j].ptype != PT_DYNAMIC)
    && (s.dyn == 0 ==> forall i :: 0 <= i < n && ph[i].ptype == PT_DYNAMIC && ph[i].vaddr != 0 ==>
          exists j :: i < j < n && ph[j].ptype == PT_DYNAMIC)
  }

  method ComputeSpan(ph: seq<Phdr>) returns (s: Span)
    requires forall i :: 0 <= i < |ph| ==> ph[i].vaddr <= MAX64
    ensures IsSpan(ph, |ph|, s) && s.vmin <= MAX64
  {
    var vmin, vmax, dyn := MAX64, 0, 0;
    for i := 0 to |ph|
      invariant 0 <= vmin <= MAX64 && 0 <= vmax && 0 <= dyn
      invariant IsSpan(ph, i, Span(vmin, vmax, dyn))
    {
      if ph[i].ptype == PT_LOAD {
        if ph[i].vaddr < vmin {
          vmin := ph[i].vaddr;
        }
        if ph[i].vaddr + ph[i].memsz > vmax {
          vmax := ph[i].vaddr + ph[i].memsz;
        }
      } else if ph[i].ptype == PT_DYNAMIC {
        dyn := ph[i].vaddr;
      }
    }
    s := Span(vmin, vmax, dyn);
  }

  /** First address and size of the reserved span. */
  function SpanStart(s: Span): nat {
    PageDown(s.vmin)
  }

  function SpanSize(s: Span): int {
    PageUp(s.vmax) - PageDown(s.vmin)
  }

  /** The page-rounded memory of every load segment lies inside the reserved span. */
  lemma SpanCovers(ph: seq<Phdr>, s: Span, i: nat)
    requires IsSpan(ph, |ph|, s) && i < |ph| && ph[i].ptype == PT_LOAD
    ensures SpanStart(s) <= PageDown(ph[i].vaddr) && PageUp(ph[i].vaddr + ph[i].memsz) <= SpanStart(s) + SpanSize(s)
  {
    PageBounds(ph[i].vaddr, PageDown(s.vmin));
    PageBounds(ph[i].vaddr + ph[i].memsz, PageUp(s.vmax));
  }

  // ----- mapping

  /** A segment of the shape the gABI asks for: file part within the file and not larger than the memory part. */
  predicate SegmentOk(p: Phdr, file: seq<byte>) {
    p.filesz <= p.memsz && p.offset + p.filesz <= |file|
  }

  /** A file mapping continues with zeros behind the end of the file. */
  function FileByte(file: seq<byte>, i: nat): byte {
    if i < |file| then file[i] else 0
  }

  /** Where a segment's mapping ends: its memory if it is writable, its file part if it is mapped from the file. */
  function MapEnd(p: Phdr): nat {
    PageUp(p.vaddr + if p.writable then p.memsz else p.filesz)
  }

  /** The byte that mapping segment p leaves at address v, given what was there before. */
  function MappedByte(p: Phdr, file: seq<byte>, v: nat, before: byte): byte
    requires SegmentOk(p, file)
  {
    if !(PageDown(p.vaddr) <= v < MapEnd(p)) then before
    else if !p.writable then FileByte(file, PageDown(p.offset) + (v - PageDown(p.vaddr)))
    else if p.vaddr <= v < p.vaddr + p.filesz then file[p.offset + (v - p.vaddr)]
    else 0
  }

  function MapSegment(mem: seq<byte>, lo: nat, p: Phdr, file: seq<byte>): (r: seq<byte>)
    requires SegmentOk(p, file)
    ensures |r| == |mem|
  {
    seq(|mem|, i requires 0 <= i < |mem| => MappedByte(p, file, lo + i, mem[i]))
  }

  predicate SegmentsOk(ph: seq<Phdr>, file: seq<byte>) {
    forall i :: 0 <= i < |ph| && ph[i].ptype == PT_LOAD ==> SegmentOk(ph[i], file)
  }

  /** The span after the first n headers have been handled. */
  function Mapped(mem: seq<byte>, lo: nat, ph: seq<Phdr>, n: nat, file: seq<byte>): (r: seq<byte>)
    requires n <= |ph| && SegmentsOk(ph, file)
    ensures |r| == |mem|
  {
    if n == 0 then mem
    else
      var before := Mapped(mem, lo, ph, n - 1, file);
      if ph[n - 1].ptype == PT_LOAD then MapSegment(before, lo, ph[n - 1], file) else before
  }

  function Zeros(n: nat): (z: seq<byte>)
    ensures |z| == n && forall i :: 0 <= i < n ==> z[i] == 0
  {
    seq(n, i => 0)
  }

  /** The image of a file, before relocation. It does not depend on where the span is. */
  function Image(ph: seq<Phdr>, s: Span, file: seq<byte>): (r: seq<byte>)
    requires SegmentsOk(ph, file) && SpanSize(s) >= 0
    ensures |r| == SpanSize(s)
  {
    Mapped(Zeros(SpanSize(s)), SpanStart(s), ph, |ph|, file)
  }

  /** Maps all load segments into the span, in header order. */
  method MapSegments(mem: array<byte>, ph: seq<Phdr>, s: Span, file: seq<byte>)
    requires IsSpan(ph, |ph|, s) && SegmentsOk(ph, file) && mem.Length == SpanSize(s)
    modifies mem
    ensures mem[..] == Mapped(old(mem[..]), SpanStart(s), ph, |ph|, file)
  {
    var lo := SpanStart(s);
    for i := 0 to |ph|
      invariant mem[..] == Mapped(old(mem[..]), lo, ph, i, file)
    {
      if ph[i].ptype != PT_LOAD {
        continue;
      }
      SpanCovers(ph, s, i);
      if ph[i].writable {
        MapAnonymous(mem, lo, ph[i], file);
      } else {
        MapFromFile(mem, lo, ph[i], file);
      }
    }
  }

  /** Zeroed pages, then the file bytes copied in. */
  method MapAnonymous(mem: array<byte>, lo: nat, p: Phdr, file: seq<byte>)
    requires SegmentOk(p, file) && p.writable && lo <= PageDown(p.vaddr) && PageUp(p.vaddr + p.memsz) <= lo + mem.Length
    modifies mem
    ensures mem[..] == MapSegment(old(mem[..]), lo, p, file)
  {
    var segStart, mapEnd := PageDown(p.vaddr), PageUp(p.vaddr + p.memsz);
    forall i | segStart - lo <= i < mapEnd - lo {
      mem[i] := 0;
    }
    forall k | 0 <= k < p.filesz {
      mem[p.vaddr - lo + k] := file[p.offset + k];
    }
    forall i | 0 <= i < mem.Length
      ensures mem[i] == MappedByte(p, file, lo + i, old(mem[i]))
    {
      var k := lo + i - p.vaddr;
      assert 0 <= k < p.filesz ==> mem[p.vaddr - lo + k] == file[p.offset + k];
    }
  }

  /** Pages of the file, at page granularity. */
  method MapFromFile(mem: array<byte>, lo: nat, p: Phdr, file: seq<byte>)
    requires SegmentOk(p, file) && !p.writable
    requires lo <= PageDown(p.vaddr) && PageUp(p.vaddr + p.memsz) <= lo + mem.Length
    modifies mem
    ensures mem[..] == MapSegment(old(mem[..]), lo, p, file)
  {
    var segStart, segOff, mapEnd := PageDown(p.vaddr), PageDown(p.offset), PageUp(p.vaddr + p.filesz);
    PageBounds(p.vaddr + p.filesz, PageUp(p.vaddr + p.memsz));
    forall i | segStart - lo <= i < mapEnd - lo {
      mem[i] := FileByte(file, segOff + (lo + i - segStart));
    }
  }

  // ----- placement

  /** The pages of two segments do not meet. */
  predicate PagesApart(p: Phdr, q: Phdr) {
    MapEnd(p) <= PageDown(q.vaddr) || MapEnd(q) <= PageDown(p.vaddr)
  }

  ghost predicate PageDisjoint(ph: seq<Phdr>) {
    forall i, j :: 0 <= i < j < |ph| && ph[i].ptype == PT_LOAD && ph[j].ptype == PT_LOAD ==> PagesApart(ph[i], ph[j])
  }

  lemma {:induction false} LaterSegmentsKeep(mem: seq<byte>, lo: nat, ph: seq<Phdr>, n: nat, file: seq<byte>, i: nat,
                                             k: nat)
    requires i < n <= |ph| && SegmentsOk(ph, file) && PageDisjoint(ph) && ph[i].ptype == PT_LOAD
    requires k < |mem| && PageDown(ph[i].vaddr) <= lo + k < MapEnd(ph[i])
    ensures Mapped(mem, lo, ph, n, file)[k] == MappedByte(ph[i], file, lo + k, Mapped(mem, lo, ph, i, file)[k])
    decreases n
  {
    if i + 1 < n {
      LaterSegmentsKeep(mem, lo, ph, n - 1, file, i, k);
      if ph[n - 1].ptype == PT_LOAD {
        assert PagesApart(ph[i], ph[n - 1]);
      }
    }
  }

  lemma SamePageOffset(p: Phdr, v: nat)
    requires p.offset % PAGE == p.vaddr % PAGE && PageDown(p.vaddr) <= v
    ensures PageDown(p.offset) + (v - PageDown(p.vaddr)) == p.offset + (v - p.vaddr)
  {
  }

  /** Main result: if the segments' pages are disjoint, every load segment's file bytes are at its address and the rest
      of a writable segment is zero. Only a segment mapped from the file needs an offset congruent to its address
      modulo the page size; the bytes of a writable one are copied. */
  lemma SegmentIsPlaced(ph: seq<Phdr>, s: Span, file: seq<byte>, i: nat, k: nat)
    requires IsSpan(ph, |ph|, s) && SpanSize(s) >= 0 && SegmentsOk(ph, file) && PageDisjoint(ph)
    requires i < |ph| && ph[i].ptype == PT_LOAD
    requires !ph[i].writable ==> ph[i].offset % PAGE == ph[i].vaddr % PAGE
    requires k < ph[i].memsz
    ensures SpanStart(s) <= ph[i].vaddr && ph[i].vaddr + k - SpanStart(s) < SpanSize(s)
    ensures k < ph[i].filesz ==>
              Image(ph, s, file)[ph[i].vaddr + k - SpanStart(s)] == file[ph[i].offset + k]
    ensures ph[i].filesz <= k && ph[i].writable ==> Image(ph, s, file)[ph[i].vaddr + k - SpanStart(s)] == 0
  {
    SpanCovers(ph, s, i);
    var p := ph[i];
    if k < p.filesz || p.writable {
      LaterSegmentsKeep(Zeros(SpanSize(s)), SpanStart(s), ph, |ph|, file, i, p.vaddr + k - SpanStart(s));
      if !p.writable {
        SamePageOffset(p, p.vaddr + k);
      }
    }
  }
}

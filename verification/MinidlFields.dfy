// The whole load in terms of the file's fields: which words stand where once an object is open, and what symbol
// lookup returns (the Dynamic Section and Symbol Table chapters of the System V gABI).

module MinidlFields {
  import opened Bytes
  import opened ElfImage
  import opened ElfMemory
  import opened ElfReloc
  import opened ElfGuarantee
  import opened ElfFields
  import opened Minidl

  // ----- the dynamic section

  /** The tag of the j-th entry of 16 bytes at o, and its value. */
  function TagOf(mem: seq<byte>, o: int, j: nat): nat {
    if Has(mem, o + 16 * j, 16) then U64(mem, o + 16 * j) else 0
  }

  function ValueOf(mem: seq<byte>, o: int, j: nat): nat {
    if Has(mem, o + 16 * j, 16) then U64(mem, o + 16 * j + 8) else 0
  }

  /** The section at o has n entries in front of its terminator. */
  ghost predicate IsSection(mem: seq<byte>, o: int, n: nat) {
    && 0 <= o && o + 16 * (n + 1) <= |mem|
    && (forall j :: 0 <= j < n ==> TagOf(mem, o, j) != 0)
    && TagOf(mem, o, n) == 0
  }

  /** The last of the first n entries with this tag has this value. */
  ghost predicate Tagged(mem: seq<byte>, o: int, n: nat, tag: nat, v: nat) {
    exists k :: 0 <= k < n && TagOf(mem, o, k) == tag && ValueOf(mem, o, k) == v && LastTag(mem, o, n, tag, k)
  }

  ghost predicate LastTag(mem: seq<byte>, o: int, n: nat, tag: nat, k: nat) {
    forall j :: k < j < n ==> TagOf(mem, o, j) != tag
  }

  lemma {:induction false} SectionIsCounted(mem: seq<byte>, o: int, n: nat)
    ensures DynCount(mem, o) == Some(n) <==> IsSection(mem, o, n)
    decreases n
  {
    hide U64, Read;
    if InSpan(mem, o, 16) {
      Read64(mem, o);
      assert TagOf(mem, o, 0) == U64(mem, o);
      if n > 0 {
        SectionIsCounted(mem, o + 16, n - 1);
        ShorterSection(mem, o, n);
      }
    }
  }

  lemma ShorterSection(mem: seq<byte>, o: int, n: nat)
    requires InSpan(mem, o, 16) && n > 0
    ensures IsSection(mem, o, n) <==> TagOf(mem, o, 0) != 0 && IsSection(mem, o + 16, n - 1)
  {
    hide U64;
    var p := o + 16;
    forall j | 0 <= j < n
      ensures TagOf(mem, p, j) == TagOf(mem, o, j + 1)
    {
      assert p + 16 * j == o + 16 * (j + 1);
    }
    forall j | 0 < j <= n
      ensures TagOf(mem, o, j) == TagOf(mem, p, j - 1)
    {
      assert p + 16 * (j - 1) == o + 16 * j;
    }
  }

  lemma {:induction false} ValueIsTagged(mem: seq<byte>, o: int, n: nat, tag: nat, v: nat)
    requires InSpan(mem, o, DYN_SIZE * n)
    ensures DynValue(mem, o, n, tag) == Some(v) <==> Tagged(mem, o, n, tag, v)
    decreases n
  {
    hide U64, Read;
    if n > 0 {
      var last := o + DYN_SIZE * (n - 1);
      Read64(mem, last);
      Read64(mem, last + 8);
      assert TagOf(mem, o, n - 1) == Read(mem, last, 8) && ValueOf(mem, o, n - 1) == Read(mem, last + 8, 8);
      ValueIsTagged(mem, o, n - 1, tag, v);
      FewerTagged(mem, o, n, tag, v);
    }
  }

  lemma FewerTagged(mem: seq<byte>, o: int, n: nat, tag: nat, v: nat)
    requires n > 0
    ensures Tagged(mem, o, n, tag, v) <==>
            if TagOf(mem, o, n - 1) == tag then ValueOf(mem, o, n - 1) == v else Tagged(mem, o, n - 1, tag, v)
  {
    hide TagOf, ValueOf;
    if TagOf(mem, o, n - 1) == tag {
      assert LastTag(mem, o, n, tag, n - 1);
      assert forall k :: 0 <= k < n - 1 ==> !LastTag(mem, o, n, tag, k);
    } else {
      assert forall k :: 0 <= k < n - 1 ==> (LastTag(mem, o, n, tag, k) <==> LastTag(mem, o, n - 1, tag, k));
    }
  }

  // ----- the load

  /** The words of the 24-byte entries of a table: the one whose address and size carry these two tags. */
  ghost predicate TableStands(image: seq<byte>, env: Env, o: int, n: nat, addrTag: nat, sizeTag: nat, m: seq<byte>) {
    forall addr: nat, size: nat :: Tagged(image, o, n, addrTag, addr) && Tagged(image, o, n, sizeTag, size) ==>
      EntriesStand(image, env, addr - env.lo, size, m)
  }

  ghost predicate EntriesStand(image: seq<byte>, env: Env, table: int, size: nat, m: seq<byte>) {
    forall i: nat :: i < size / 24 ==> EntryStands(image, env, table, i, m)
  }

  ghost predicate EntryStands(image: seq<byte>, env: Env, table: int, i: nat, m: seq<byte>) {
    WordStands(image, env, table + 24 * i, m)
  }

  /** Main result: once a file is open, every entry of its two relocation tables (tags 7 and 8, 23 and 2) has its word
      in memory, as its own fields and its symbol's (tags 6 and 5) say: see AsksFor. */
  lemma OpenedFields(ph: seq<Phdr>, s: Span, file: seq<byte>, base: nat, hosts: seq<HostSym>)
    returns (n: nat, symtab: nat, strtab: nat)
    requires SegmentsOk(ph, file) && SpanSize(s) >= 0 && Opened(ph, s, file, base, hosts).Success?
    requires var d := Dyn(ph, s, file);
             var image, env, slots := Image(ph, s, file), EnvOf(d, s, base, hosts), AllSlots(d, s, base);
             TablesUntouched(image, env, slots) && TargetsApart(image, env, slots)
    ensures var image, m, lo := Image(ph, s, file), Opened(ph, s, file, base, hosts).value, PageDown(s.vmin);
            var o, env := s.dyn - lo, Env((base - lo) % TWO64, lo, symtab - lo, strtab - lo, hosts);
            && IsSection(image, o, n) && Tagged(image, o, n, 6, symtab) && Tagged(image, o, n, 5, strtab)
            && TableStands(image, env, o, n, 7, 8, m) && TableStands(image, env, o, n, 23, 2, m)
  {
    hide TablesUntouched, TargetsApart, Relocate, Image, WordStands, Tagged, IsSection, Opened, Layout, DynCount,
        DynValue,
         Slots, Meets;
    OpenedIs(ph, s, file, base, hosts);
    var image, o, d := Image(ph, s, file), s.dyn - SpanStart(s), Dyn(ph, s, file);
    var m := Opened(ph, s, file, base, hosts).value;
    n := DynCount(image, o).value;
    SectionIsCounted(image, o, n);
    var env, slots := EnvOf(d, s, base, hosts), AllSlots(d, s, base);
    symtab, strtab := d.symtab.value, d.strtab.value;
    ValueIsTagged(image, o, n, 6, symtab);
    ValueIsTagged(image, o, n, 5, strtab);
    RelocatedFields(image, env, slots);
    assert forall slot :: slot in slots ==> WordStands(image, env, slot, m);
    TableIsStanding(image, env, s, base, n, 7, 8, d.rela, d.relasz, m);
    TableIsStanding(image, env, s, base, n, 23, 2, d.jmprel, d.pltrelsz, m);
  }

  /** The dynamic section of a file. */
  function Dyn(ph: seq<Phdr>, s: Span, file: seq<byte>): Dynamic
    requires SegmentsOk(ph, file) && SpanSize(s) >= 0 && Layout(Image(ph, s, file), s).Success?
  {
    Layout(Image(ph, s, file), s).value.0
  }

  lemma OpenedIs(ph: seq<Phdr>, s: Span, file: seq<byte>, base: nat, hosts: seq<HostSym>)
    requires SegmentsOk(ph, file) && SpanSize(s) >= 0 && Opened(ph, s, file, base, hosts).Success?
    ensures var image, o := Image(ph, s, file), s.dyn - SpanStart(s);
            && Layout(image, s).Success? && DynCount(image, o).Some?
            && var d, n := Dyn(ph, s, file), DynCount(image, o).value;
            && InSpan(image, o, DYN_SIZE * n) && d == DynamicOf(image, o, n) && d.symtab.Some? && d.strtab.Some?
            && Opened(ph, s, file, base, hosts) == Relocate(image, EnvOf(d, s, base, hosts), AllSlots(d, s, base))
  {
    hide Relocate, Image, DynCount, DynValue, Slots;
    DynCountFits(Image(ph, s, file), s.dyn - SpanStart(s));
  }

  lemma TableIsStanding(image: seq<byte>, env: Env, s: Span, base: nat, n: nat, addrTag: nat, sizeTag: nat,
                        table: Option<nat>, size: nat, m: seq<byte>)
    requires env.lo == SpanStart(s) && InSpan(image, s.dyn - SpanStart(s), DYN_SIZE * n)
    requires DynValue(image, s.dyn - SpanStart(s), n, addrTag) == table
    requires OrZero(DynValue(image, s.dyn - SpanStart(s), n, sizeTag)) == size
    requires forall slot :: slot in Slots(TableBase(table, s, base), size) ==> WordStands(image, env, slot, m)
    ensures TableStands(image, env, s.dyn - SpanStart(s), n, addrTag, sizeTag, m)
  {
    hide WordStands, Tagged, DynValue;
    var o := s.dyn - SpanStart(s);
    forall addr: nat, bytes: nat | Tagged(image, o, n, addrTag, addr) && Tagged(image, o, n, sizeTag, bytes)
      ensures EntriesStand(image, env, addr - env.lo, bytes, m)
    {
      ValueIsTagged(image, o, n, addrTag, addr);
      ValueIsTagged(image, o, n, sizeTag, bytes);
      var slots, at := Slots(TableBase(table, s, base), size), addr - env.lo;
      forall i: nat | i < bytes / 24
        ensures EntryStands(image, env, at, i, m)
      {
        assert slots[i] == at + 24 * i && slots[i] in slots;
      }
    }
  }

  // ----- lookup

  /** Symbol k of the table is defined in the object and has this name. */
  ghost predicate DefinesName(mem: seq<byte>, env: Env, k: nat, name: seq<byte>) {
    var st := env.symtab + 24 * k;
    Has(mem, st, 24) && U16(mem, st + 6) != 0 && NameAt(mem, env.strtab + U32(mem, st), name)
  }

  /** What lookup goes by, and what it returns. */
  lemma ExportIsFields(o: Obj, k: nat, name: seq<byte>)
    ensures o.Exports(k, name) <==> DefinesName(o.mem[..], o.env, k, name)
    ensures o.Exports(k, name) ==> o.Address(k) == (o.env.bias + U64(o.mem[..], o.env.symtab + 24 * k + 8)) % TWO64
  {
    hide NameAt, NameOf, U16, U32, U64, Read;
    var mem, st := o.mem[..], o.env.symtab + 24 * k;
    if Has(mem, st, 24) {
      Read16(mem, st + 6);
      Read32(mem, st);
      Read64(mem, st + 8);
      NameIs(mem, o.env, SymAt(mem, st), name);
    }
  }

  /** The number of symbols is the second word of the hash table (tag 4), 0 without one. */
  lemma SymbolsAreCounted(image: seq<byte>, s: Span, n: nat)
    requires Layout(image, s).Success? && IsSection(image, s.dyn - PageDown(s.vmin), n)
    ensures var o, count := s.dyn - PageDown(s.vmin), Layout(image, s).value.1;
            && (forall hash: nat :: Tagged(image, o, n, 4, hash) ==>
                  var h := hash - PageDown(s.vmin); Has(image, h, 8) && count == U32(image, h + 4))
            && ((forall hash: nat :: !Tagged(image, o, n, 4, hash)) ==> count == 0)
  {
    hide Tagged, IsSection, DynValue, U32, Read;
    var o := s.dyn - SpanStart(s);
    SectionIsCounted(image, o, n);
    DynCountFits(image, o);
    var d := Layout(image, s).value.0;
    forall hash: nat
      ensures Tagged(image, o, n, 4, hash) <==> d.hash == Some(hash)
    {
      ValueIsTagged(image, o, n, 4, hash);
    }
    if d.hash.Some? {
      assert Tagged(image, o, n, 4, d.hash.value);
      Read32(image, d.hash.value - SpanStart(s) + 4);
    }
  }
}

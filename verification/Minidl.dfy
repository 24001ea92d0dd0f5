// The in-process loader as a whole: span, image, dynamic section, relocation passes, and symbol lookup.

module Minidl {
  import opened Bytes
  import opened ElfImage
  import opened ElfMemory
  import opened ElfReloc
  import opened ElfGuarantee

  const DT_NULL := 0
  const DT_PLTRELSZ := 2
  const DT_HASH := 4
  const DT_STRTAB := 5
  const DT_SYMTAB := 6
  const DT_RELA := 7
  const DT_RELASZ := 8
  const DT_JMPREL := 23
  const DYN_SIZE := 16

  // ----- the dynamic section

  /** Number of entries before the terminator; None if the section runs off the span. */
  function DynCount(mem: seq<byte>, o: int): (n: Option<nat>)
    decreases |mem| - o
  {
    if !InSpan(mem, o, DYN_SIZE) then None
    else if Read(mem, o, 8) == DT_NULL then Some(0)
    else match DynCount(mem, o + DYN_SIZE)
      case None => None
      case Some(n) => Some(n + 1)
  }

  /** The value of the last of the first n entries that carries a tag. */
  function DynValue(mem: seq<byte>, o: int, n: nat, tag: nat): Option<nat>
    requires InSpan(mem, o, DYN_SIZE * n)
  {
    if n == 0 then None
    else
      var last := o + DYN_SIZE * (n - 1);
      if Read(mem, last, 8) == tag then Some(Read(mem, last + 8, 8)) else DynValue(mem, o, n - 1, tag)
  }

  /** Link-time addresses and sizes of the tables; a missing size is 0. */
  datatype Dynamic = Dynamic(symtab: Option<nat>, strtab: Option<nat>, hash: Option<nat>,
                             rela: Option<nat>, relasz: nat, jmprel: Option<nat>, pltrelsz: nat)

  function OrZero(v: Option<nat>): nat {
    if v.Some? then v.value else 0
  }

  function DynamicOf(mem: seq<byte>, o: int, n: nat): Dynamic
    requires InSpan(mem, o, DYN_SIZE * n)
  {
    Dynamic(DynValue(mem, o, n, DT_SYMTAB), DynValue(mem, o, n, DT_STRTAB), DynValue(mem, o, n, DT_HASH),
            DynValue(mem, o, n, DT_RELA), OrZero(DynValue(mem, o, n, DT_RELASZ)),
            DynValue(mem, o, n, DT_JMPREL), OrZero(DynValue(mem, o, n, DT_PLTRELSZ)))
  }

  /** What one entry of the dynamic section sets. */
  function Note(d: Dynamic, tag: nat, value: nat): Dynamic {
    if tag == DT_SYMTAB then d.(symtab := Some(value))
    else if tag == DT_STRTAB then d.(strtab := Some(value))
    else if tag == DT_HASH then d.(hash := Some(value))
    else if tag == DT_RELA then d.(rela := Some(value))
    else if tag == DT_RELASZ then d.(relasz := value)
    else if tag == DT_JMPREL then d.(jmprel := Some(value))
    else if tag == DT_PLTRELSZ then d.(pltrelsz := value)
    else d
  }

  lemma DynamicStep(mem: seq<byte>, o: int, n: nat)
    requires InSpan(mem, o, DYN_SIZE * (n + 1))
    ensures DynamicOf(mem, o, n + 1) ==
            Note(DynamicOf(mem, o, n), Read(mem, o + DYN_SIZE * n, 8), Read(mem, o + DYN_SIZE * n + 8, 8))
  {
    var last := o + DYN_SIZE * (n + 1 - 1);
    assert last == o + DYN_SIZE * n;
  }

  lemma {:induction false} DynCountFits(mem: seq<byte>, o: int)
    ensures DynCount(mem, o).Some? ==> InSpan(mem, o, DYN_SIZE * DynCount(mem, o).value)
    decreases |mem| - o
  {
    if InSpan(mem, o, DYN_SIZE) && Read(mem, o, 8) != DT_NULL {
      DynCountFits(mem, o + DYN_SIZE);
    }
  }

  method WalkDynamic(mem: array<byte>, o: int) returns (r: Result<Dynamic, LoadError>)
    ensures match DynCount(mem[..], o)
            case None => r == Failure(Fault)
            case Some(n) => InSpan(mem[..], o, DYN_SIZE * n) && r == Success(DynamicOf(mem[..], o, n))
  {
    ghost var m, n := mem[..], 0;
    DynCountFits(m, o);
    var d := Dynamic(None, None, None, None, 0, None, 0);
    var p := o;
    while true
      invariant p == o + DYN_SIZE * n && 0 <= n
      invariant n == 0 ==> d == Dynamic(None, None, None, None, 0, None, 0)
      invariant n > 0 ==> InSpan(m, o, DYN_SIZE * n) && d == DynamicOf(m, o, n)
      invariant DynCount(m, o) == match DynCount(m, p) case None => None case Some(k) => Some(k + n)
      decreases |m| - p
    {
      if p < 0 || p + DYN_SIZE > mem.Length {
        return Failure(Fault);
      }
      var tag, value := Read(mem[..], p, 8), Read(mem[..], p + 8, 8);
      if tag == DT_NULL {
        return Success(d);
      }
      DynamicStep(m, o, n);
      d := Note(d, tag, value);
      p := p + DYN_SIZE;
      n := n + 1;
    }
  }

  // ----- opening

  /** What the loader is given: the program headers of a file, its bytes, and where the span was reserved. */
  ghost predicate Loadable(ph: seq<Phdr>, file: seq<byte>, mapBase: nat, hosts: seq<HostSym>) {
    && (forall i :: 0 <= i < |ph| ==> ph[i].vaddr + ph[i].memsz + PAGE <= TWO64)
    && SegmentsOk(ph, file) && HostsOk(hosts) && 0 < mapBase < TWO64
  }

  lemma SpanIsSane(ph: seq<Phdr>, s: Span)
    requires IsSpan(ph, |ph|, s) && s.vmin != MAX64
    ensures SpanSize(s) >= 0
  {
    var i :| 0 <= i < |ph| && ph[i].ptype == PT_LOAD && ph[i].vaddr == s.vmin;
    SpanCovers(ph, s, i);
  }

  /** The part of the load that does not depend on where the span is. */
  function Layout(mem: seq<byte>, s: Span): Result<(Dynamic, nat), LoadError> {
    var o := s.dyn - SpanStart(s);
    DynCountFits(mem, o);
    match DynCount(mem, o)
    case None => Failure(Fault)
    case Some(n) =>
      var d := DynamicOf(mem, o, n);
      if d.symtab.None? || d.strtab.None? then Failure(NoDynsym)
      else if d.hash.None? then Success((d, 0))
      else
        var h := d.hash.value - SpanStart(s);
        if InSpan(mem, h, 8) then Success((d, Read(mem, h + 4, 4))) else Failure(Fault)
  }

  function EnvOf(d: Dynamic, s: Span, mapBase: nat, hosts: seq<HostSym>): (env: Env)
    requires d.symtab.Some? && d.strtab.Some?
    ensures env.bias < TWO64
  {
    var lo := SpanStart(s);
    Env((mapBase - lo) % TWO64, lo, d.symtab.value - lo, d.strtab.value - lo, hosts)
  }

  /** Span offset of a relocation table; an absent table is at address 0. */
  function TableBase(table: Option<nat>, s: Span, mapBase: nat): int {
    match table
    case None => 0 - mapBase as int
    case Some(v) => v - SpanStart(s)
  }

  /** All relocation entries, those of DT_RELA before those of DT_JMPREL. */
  function AllSlots(d: Dynamic, s: Span, mapBase: nat): seq<int> {
    Slots(TableBase(d.rela, s, mapBase), d.relasz) + Slots(TableBase(d.jmprel, s, mapBase), d.pltrelsz)
  }

  /** The memory that opening leaves behind, or why it fails. */
  function Opened(ph: seq<Phdr>, s: Span, file: seq<byte>, mapBase: nat, hosts: seq<HostSym>)
    : Result<seq<byte>, LoadError>
    requires SegmentsOk(ph, file) && SpanSize(s) >= 0
  {
    var image := Image(ph, s, file);
    match Layout(image, s)
    case Failure(e) => Failure(e)
    case Success((d, n)) => Relocate(image, EnvOf(d, s, mapBase, hosts), AllSlots(d, s, mapBase))
  }

  /** A loaded object. */
  class Obj {
    var mem: array<byte>
    var env: Env
    var mapBase: nat
    var symcount: nat

    constructor (mem: array<byte>, env: Env, mapBase: nat, symcount: nat)
      ensures this.mem == mem && this.env == env && this.mapBase == mapBase && this.symcount == symcount
    {
      this.mem, this.env, this.mapBase, this.symcount := mem, env, mapBase, symcount;
    }

    /** Symbol k is defined here and has this name. */
    predicate Exports(k: nat, name: seq<byte>)
      reads this, mem
    {
      var o := SymOffset(env, k);
      InSpan(mem[..], o, SYM_SIZE) && SymAt(mem[..], o).shndx != 0 && NameOf(mem[..], env, SymAt(mem[..], o)) == name
    }

    /** The run-time address of symbol k. */
    function Address(k: nat): nat
      requires InSpan(mem[..], SymOffset(env, k), SYM_SIZE)
      reads this, mem
    {
      (env.bias + SymAt(mem[..], SymOffset(env, k)).value) % TWO64
    }

    /** Address of the first exported symbol of a name; NULL (0) if there is none. */
    method Sym(name: seq<byte>) returns (r: Result<nat, LoadError>)
      ensures match r
              case Success(a) =>
                if exists k :: 0 <= k < symcount && Exports(k, name)
                then exists k :: 0 <= k < symcount && Exports(k, name) && a == Address(k)
                                 && forall j :: 0 <= j < k ==> !Exports(j, name)
                else a == 0
              case Failure(e) =>
                e == Fault && exists k :: 0 <= k < symcount && !InSpan(mem[..], SymOffset(env, k), SYM_SIZE)
                                          && forall j :: 0 <= j < k ==> !Exports(j, name)
    {
      var i := 0;
      while i < symcount
        invariant 0 <= i <= symcount
        invariant forall j :: 0 <= j < i ==> !Exports(j, name)
      {
        var o := SymOffset(env, i);
        if o < 0 || o + SYM_SIZE > mem.Length {
          return Failure(Fault);
        }
        var sym := SymAt(mem[..], o);
        if sym.shndx != 0 && NameOf(mem[..], env, sym) == name {
          assert Exports(i, name);
          return Success((env.bias + sym.value) % TWO64);
        }
        i := i + 1;
      }
      return Success(0);
    }
  }

  /** Loads and relocates a shared object at the given base. */
  method Open(ph: seq<Phdr>, file: seq<byte>, mapBase: nat, hosts: seq<HostSym>)
    returns (e: Option<LoadError>, o: Obj?, ghost s: Span)
    requires Loadable(ph, file, mapBase, hosts)
    ensures IsSpan(ph, |ph|, s)
    ensures s.vmin == MAX64 || s.dyn == 0 ==> e == Some(NoSegments) && o == null
    ensures s.vmin != MAX64 && s.dyn != 0 ==>
              && SpanSize(s) >= 0
              && match Opened(ph, s, file, mapBase, hosts)
                 case Failure(x) => e == Some(x) && o == null
                 case Success(m) =>
                   && e == None && o != null && fresh(o) && fresh(o.mem) && o.mem[..] == m
                   && o.mapBase == mapBase
                   && var (d, n) := Layout(Image(ph, s, file), s).value;
                      o.env == EnvOf(d, s, mapBase, hosts) && o.symcount == n
  {
    var sp := ComputeSpan(ph);
    s, o := sp, null;
    if sp.vmin == MAX64 || sp.dyn == 0 {
      e := Some(NoSegments);
      return;
    }
    SpanIsSane(ph, sp);
    var mem := new byte[SpanSize(sp)](i => 0);
    assert mem[..] == Zeros(SpanSize(sp));
    MapSegments(mem, ph, sp, file);
    var layout := ReadLayout(mem, sp);
    if layout.Failure? {
      e := Some(layout.error);
      return;
    }
    var (d, n) := layout.value;
    var env := EnvOf(d, sp, mapBase, hosts);
    e := ApplyBoth(mem, env, d, sp, mapBase);
    if e.None? {
      o := new Obj(mem, env, mapBase, n);
    }
  }

  /** Walks the mapped dynamic section and reads the symbol count from the hash table. */
  method ReadLayout(mem: array<byte>, s: Span) returns (r: Result<(Dynamic, nat), LoadError>)
    ensures r == Layout(mem[..], s)
    ensures r.Success? ==> r.value.0.symtab.Some? && r.value.0.strtab.Some?
  {
    var dyn := WalkDynamic(mem, s.dyn - SpanStart(s));
    if dyn.Failure? {
      return Failure(dyn.error);
    }
    var d := dyn.value;
    if d.symtab.None? || d.strtab.None? {
      return Failure(NoDynsym);
    }
    if d.hash.None? {
      return Success((d, 0));
    }
    var h := d.hash.value - SpanStart(s);
    if h < 0 || h + 8 > mem.Length {
      return Failure(Fault);
    }
    return Success((d, Read(mem[..], h + 4, 4)));
  }

  /** The two relocation passes. */
  method ApplyBoth(mem: array<byte>, env: Env, d: Dynamic, s: Span, mapBase: nat) returns (e: Option<LoadError>)
    modifies mem
    ensures match Relocate(old(mem[..]), env, AllSlots(d, s, mapBase))
            case Failure(x) => e == Some(x)
            case Success(m) => e == None && mem[..] == m
  {
    RelocateAppend(mem[..], env, Slots(TableBase(d.rela, s, mapBase), d.relasz),
                   Slots(TableBase(d.jmprel, s, mapBase), d.pltrelsz));
    e := ApplyTable(mem, env, TableBase(d.rela, s, mapBase), d.relasz);
    if e.None? {
      e := ApplyTable(mem, env, TableBase(d.jmprel, s, mapBase), d.pltrelsz);
    }
  }

  /** A file whose relocation tables are present or empty has the same entries at every base. */
  lemma SlotsDoNotMove(d: Dynamic, s: Span, base: nat, base': nat)
    requires d.rela.Some? || d.relasz < RELA_SIZE
    requires d.jmprel.Some? || d.pltrelsz < RELA_SIZE
    ensures AllSlots(d, s, base) == AllSlots(d, s, base')
  {
  }

  /** Main result: two successful loads of one file, anywhere, agree except in the words that hold addresses inside
      the object, and those differ by the difference of the biases. */
  lemma LoadAddressIndependence(ph: seq<Phdr>, s: Span, file: seq<byte>, base: nat, base': nat, hosts: seq<HostSym>)
    requires SegmentsOk(ph, file) && SpanSize(s) >= 0
    requires Opened(ph, s, file, base, hosts).Success? && Opened(ph, s, file, base', hosts).Success?
    requires var image := Image(ph, s, file);
             var (d, n) := Layout(image, s).value;
             var env, slots := EnvOf(d, s, base, hosts), AllSlots(d, s, base);
             && TablesUntouched(image, env, slots) && TargetsApart(image, env, slots)
             && (d.rela.Some? || d.relasz < RELA_SIZE) && (d.jmprel.Some? || d.pltrelsz < RELA_SIZE)
    ensures var image := Image(ph, s, file);
            var (d, n) := Layout(image, s).value;
            var env, slots := EnvOf(d, s, base, hosts), AllSlots(d, s, base);
            var m, m' := Opened(ph, s, file, base, hosts).value, Opened(ph, s, file, base', hosts).value;
            && (forall k :: 0 <= k < |slots| ==>
                  WordShifted(image, env, EnvOf(d, s, base', hosts).bias, slots[k], m, m'))
            && (forall i :: 0 <= i < |image| && NotShifted(image, env, slots, i) ==> m[i] == m'[i])
  {
    var image := Image(ph, s, file);
    var (d, n) := Layout(image, s).value;
    var env, env' := EnvOf(d, s, base, hosts), EnvOf(d, s, base', hosts);
    assert env' == env.(bias := env'.bias);
    SlotsDoNotMove(d, s, base, base');
    LoadsDifferByBias(image, env, env'.bias, AllSlots(d, s, base));
  }
}

// The two relocation passes of the loader (section 5.7 of ELF for the Arm 64-bit Architecture): what
// they do to memory as they go, and the list of constant writes that they amount to.

module ElfReloc {
  import opened Bytes
  import opened ElfMemory

  const R_ABS64 := 257
  const R_GLOB_DAT := 1025
  const R_JUMP_SLOT := 1026
  const R_RELATIVE := 1027

  const RELA_SIZE := 24
  const SYM_SIZE := 24

  /** Fault: an access outside the reserved span, which the original leaves to the page tables. */
  datatype LoadError = NoSegments | NoDynsym | Unresolved(symbol: nat) | UnsupportedType(rtype: nat) | Fault

  /** A host export; names have no NUL inside. */
  datatype HostSym = HostSym(name: seq<byte>, addr: nat)

  predicate HostsOk(hosts: seq<HostSym>) {
    forall i :: 0 <= i < |hosts| ==> 0 !in hosts[i].name && hosts[i].addr < TWO64
  }

  /** Where things are. Table places are offsets into the span; bias is modulo 2^64, and lo is the link-time
      address of the span's first byte. */
  datatype Env = Env(bias: nat, lo: nat, symtab: int, strtab: int, hosts: seq<HostSym>)

  predicate InSpan(mem: seq<byte>, o: int, n: nat) {
    0 <= o && o + n <= |mem|
  }

  // ----- symbols

  /** The NUL-terminated string at o; a string that runs off the span ends with it. */
  function CStr(mem: seq<byte>, o: nat): (s: seq<byte>)
    decreases |mem| - o
  {
    if o >= |mem| || mem[o] == 0 then [] else [mem[o]] + CStr(mem, o + 1)
  }

  /** A symbol table entry: name offset, section index (0 means undefined) and value. */
  datatype Sym = Sym(name: nat, shndx: nat, value: nat)

  function SymOffset(env: Env, idx: nat): int {
    env.symtab + SYM_SIZE * idx
  }

  function SymAt(mem: seq<byte>, o: nat): (s: Sym)
    requires o + SYM_SIZE <= |mem|
  {
    Sym(Read(mem, o, 4), Read(mem, o + 6, 2), Read(mem, o + 8, 8))
  }

  /** Address of the first host export with this name; 0 (NULL) if there is none. */
  function HostAddr(hosts: seq<HostSym>, name: seq<byte>): nat {
    if hosts == [] then 0 else if hosts[0].name == name then hosts[0].addr else HostAddr(hosts[1..], name)
  }

  function NameOf(mem: seq<byte>, env: Env, sym: Sym): seq<byte> {
    var o := env.strtab + sym.name;
    if o < 0 then [] else CStr(mem, o)
  }

  function Resolve(mem: seq<byte>, env: Env, sym: Sym): nat {
    if sym.shndx != 0 then (env.bias + sym.value) % TWO64 else HostAddr(env.hosts, NameOf(mem, env, sym))
  }

  method ResolveSymbol(mem: array<byte>, env: Env, idx: nat) returns (r: Result<nat, LoadError>)
    ensures var o := SymOffset(env, idx);
            r == if !InSpan(mem[..], o, SYM_SIZE) then Failure(Fault)
                 else Success(Resolve(mem[..], env, SymAt(mem[..], o)))
  {
    var o := SymOffset(env, idx);
    if o < 0 || o + SYM_SIZE > mem.Length {
      return Failure(Fault);
    }
    var sym := SymAt(mem[..], o);
    if sym.shndx != 0 {
      return Success((env.bias + sym.value) % TWO64);
    }
    var name := NameOf(mem[..], env, sym);
    var i := 0;
    while i < |env.hosts|
      invariant 0 <= i <= |env.hosts|
      invariant HostAddr(env.hosts, name) == HostAddr(env.hosts[i..], name)
    {
      if env.hosts[i].name == name {
        return Success(env.hosts[i].addr);
      }
      i := i + 1;
    }
    return Success(0);
  }

  // ----- one relocation

  /** A relocation entry: target offset in the span, type, symbol index and addend. */
  datatype Rela = Rela(target: int, rtype: nat, symbol: nat, addend: nat)

  function RelaAt(mem: seq<byte>, env: Env, o: nat): Rela
    requires o + RELA_SIZE <= |mem|
  {
    Rela(Read(mem, o, 8) - env.lo, Read(mem, o + 8, 4), Read(mem, o + 12, 4), Read(mem, o + 16, 8))
  }

  predicate IsSymbolic(rtype: nat) {
    rtype == R_GLOB_DAT || rtype == R_JUMP_SLOT || rtype == R_ABS64
  }

  /** The value a relocation stores, or why it cannot be applied. */
  function Value(mem: seq<byte>, env: Env, r: Rela): Result<nat, LoadError> {
    if r.rtype == R_RELATIVE then Success((env.bias + r.addend) % TWO64)
    else if !IsSymbolic(r.rtype) then Failure(UnsupportedType(r.rtype))
    else if !InSpan(mem, SymOffset(env, r.symbol), SYM_SIZE) then Failure(Fault)
    else
      var val := Resolve(mem, env, SymAt(mem, SymOffset(env, r.symbol)));
      if val == 0 then Failure(Unresolved(r.symbol)) else Success((val + r.addend) % TWO64)
  }

  /** The word that the relocation entry at a slot asks to be written. */
  function Decode(mem: seq<byte>, env: Env, slot: int): (w: Result<Write, LoadError>)
    ensures w.Success? ==> Fits(mem, w.value)
  {
    if !InSpan(mem, slot, RELA_SIZE) then Failure(Fault)
    else
      var r := RelaAt(mem, env, slot);
      match Value(mem, env, r)
      case Failure(e) => Failure(e)
      case Success(val) => if InSpan(mem, r.target, 8) then Success(Write(r.target, val)) else Failure(Fault)
  }

  // ----- the passes

  /** Offsets of the entries of a table of sz bytes. */
  function Slots(base: int, sz: nat): (s: seq<int>)
    ensures |s| == sz / RELA_SIZE
  {
    seq(sz / RELA_SIZE, k => base + RELA_SIZE * k)
  }

  /** Entries are read from memory as the relocations before them have left it. */
  function Relocate(mem: seq<byte>, env: Env, slots: seq<int>): (r: Result<seq<byte>, LoadError>)
    ensures r.Success? ==> |r.value| == |mem|
    decreases |slots|
  {
    if slots == [] then Success(mem)
    else match Decode(mem, env, slots[0])
      case Failure(e) => Failure(e)
      case Success(w) => Relocate(Put(mem, w), env, slots[1..])
  }

  lemma {:induction false} RelocateAppend(mem: seq<byte>, env: Env, a: seq<int>, b: seq<int>)
    ensures Relocate(mem, env, a + b) ==
            match Relocate(mem, env, a) case Failure(e) => Failure(e) case Success(m) => Relocate(m, env, b)
    decreases |a|
  {
    if a == [] {
      assert a + b == b;
    } else {
      assert (a + b)[0] == a[0] && (a + b)[1..] == a[1..] + b;
      var w := Decode(mem, env, a[0]);
      if w.Success? {
        RelocateAppend(Put(mem, w.value), env, a[1..], b);
      }
    }
  }

  lemma {:induction false} RelocateStep(mem: seq<byte>, env: Env, slots: seq<int>, k: nat)
    requires k < |slots|
    ensures Relocate(mem, env, slots[k..]) ==
            match Decode(mem, env, slots[k])
            case Failure(e) => Failure(e)
            case Success(w) => Relocate(Put(mem, w), env, slots[k + 1..])
  {
    assert slots[k..][0] == slots[k] && slots[k..][1..] == slots[k + 1..];
  }

  /** Applies one entry. */
  method ApplyEntry(mem: array<byte>, env: Env, slot: int) returns (e: Option<LoadError>)
    modifies mem
    ensures match Decode(old(mem[..]), env, slot)
            case Failure(x) => e == Some(x)
            case Success(w) => e == None && mem[..] == Put(old(mem[..]), w)
  {
    if slot < 0 || slot + RELA_SIZE > mem.Length {
      return Some(Fault);
    }
    var r := RelaAt(mem[..], env, slot);
    var v := ComputeValue(mem, env, r);
    if v.Failure? {
      return Some(v.error);
    }
    if r.target < 0 || r.target + 8 > mem.Length {
      return Some(Fault);
    }
    var word := LeBytes(v.value, 8);
    forall j | 0 <= j < 8 {
      mem[r.target + j] := word[j];
    }
    assert mem[..] == Put(old(mem[..]), Write(r.target, v.value));
    return None;
  }

  method ComputeValue(mem: array<byte>, env: Env, r: Rela) returns (v: Result<nat, LoadError>)
    ensures v == Value(mem[..], env, r)
  {
    if r.rtype == R_RELATIVE {
      return Success((env.bias + r.addend) % TWO64);
    } else if r.rtype == R_GLOB_DAT || r.rtype == R_JUMP_SLOT || r.rtype == R_ABS64 {
      var val := ResolveSymbol(mem, env, r.symbol);
      if val.Failure? {
        return val;
      }
      if val.value == 0 {
        return Failure(Unresolved(r.symbol));
      }
      return Success((val.value + r.addend) % TWO64);
    } else {
      return Failure(UnsupportedType(r.rtype));
    }
  }

  /** One pass over a table. */
  method ApplyTable(mem: array<byte>, env: Env, base: int, sz: nat) returns (e: Option<LoadError>)
    modifies mem
    ensures match Relocate(old(mem[..]), env, Slots(base, sz))
            case Failure(x) => e == Some(x)
            case Success(m) => e == None && mem[..] == m
  {
    var off := 0;
    ghost var slots, k := Slots(base, sz), 0;
    while off + RELA_SIZE <= sz
      invariant off == RELA_SIZE * k && 0 <= k <= |slots|
      invariant Relocate(mem[..], env, slots[k..]) == Relocate(old(mem[..]), env, slots)
    {
      RelocateStep(mem[..], env, slots, k);
      e := ApplyEntry(mem, env, base + off);
      if e.Some? {
        return;
      }
      off := off + RELA_SIZE;
      k := k + 1;
    }
    assert slots[k..] == [];
    e := None;
  }
}

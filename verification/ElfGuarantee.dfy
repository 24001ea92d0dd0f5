// What relocation amounts to when relocation targets do not meet the tables it reads: constant writes
// into the loaded image, the same at every load address up to the difference of the biases.

module ElfGuarantee {
  import opened Bytes
  import opened ElfMemory
  import opened ElfReloc

  // ----- what is read and what is written

  function Entry(mem: seq<byte>, env: Env, slot: int): Rela
    requires InSpan(mem, slot, RELA_SIZE)
  {
    RelaAt(mem, env, slot)
  }

  /** The symbol entry that a relocation entry refers to, if it refers to one that can be read. */
  predicate HasSymbol(mem: seq<byte>, env: Env, slot: int) {
    && InSpan(mem, slot, RELA_SIZE)
    && IsSymbolic(Entry(mem, env, slot).rtype)
    && InSpan(mem, SymOffset(env, Entry(mem, env, slot).symbol), SYM_SIZE)
  }

  function SymbolOf(mem: seq<byte>, env: Env, slot: int): Sym
    requires HasSymbol(mem, env, slot)
  {
    SymAt(mem, SymOffset(env, Entry(mem, env, slot).symbol))
  }

  /** Decoding the entry at slot reads byte i: of the entry, of its symbol, or of the name of an undefined
      symbol up to and with its NUL. */
  ghost predicate Reads(mem: seq<byte>, env: Env, slot: int, i: int) {
    || slot <= i < slot + RELA_SIZE
    || (HasSymbol(mem, env, slot) &&
        var o := SymOffset(env, Entry(mem, env, slot).symbol);
        var sym := SymbolOf(mem, env, slot);
        var name := env.strtab + sym.name;
        || o <= i < o + SYM_SIZE
        || (sym.shndx == 0 && 0 <= name <= i <= name + |CStr(mem, name)|))
  }

  /** The relocation at slot writes byte i. */
  ghost predicate Targets(mem: seq<byte>, env: Env, slot: int, i: int) {
    InSpan(mem, slot, RELA_SIZE) && Entry(mem, env, slot).target <= i < Entry(mem, env, slot).target + 8
  }

  /** No relocation writes what a relocation reads. */
  ghost predicate TablesUntouched(mem: seq<byte>, env: Env, slots: seq<int>) {
    forall s, t, i {:trigger Reads(mem, env, s, i), Targets(mem, env, t, i)} ::
      s in slots && t in slots && Reads(mem, env, s, i) ==> !Targets(mem, env, t, i)
  }

  /** The second memory agrees with the first wherever no relocation writes. */
  ghost predicate AgreesOffTarget(mem: seq<byte>, m: seq<byte>, env: Env, slots: seq<int>) {
    |m| == |mem| && forall i :: 0 <= i < |mem| && (forall t :: t in slots ==> !Targets(mem, env, t, i)) ==>
      m[i] == mem[i]
  }

  lemma {:induction false} SameString(mem: seq<byte>, m: seq<byte>, o: nat)
    requires |m| == |mem| && forall i :: o <= i <= o + |CStr(mem, o)| && i < |mem| ==> m[i] == mem[i]
    ensures CStr(m, o) == CStr(mem, o)
    decreases |mem| - o
  {
    if o < |mem| && mem[o] != 0 {
      SameString(mem, m, o + 1);
    }
  }

  lemma SameRead(mem: seq<byte>, m: seq<byte>, o: nat, n: nat)
    requires |m| == |mem| && o + n <= |mem| && forall i :: o <= i < o + n ==> m[i] == mem[i]
    ensures m[o..o + n] == mem[o..o + n]
  {
  }

  /** Decoding depends only on the bytes it reads. */
  lemma DecodeDependsOnReads(mem: seq<byte>, m: seq<byte>, env: Env, slot: int)
    requires |m| == |mem| && forall i :: 0 <= i < |mem| && Reads(mem, env, slot, i) ==> m[i] == mem[i]
    ensures Decode(m, env, slot) == Decode(mem, env, slot)
  {
    if InSpan(mem, slot, RELA_SIZE) {
      EntryDependsOnReads(mem, m, env, slot);
      if HasSymbol(mem, env, slot) {
        SymbolDependsOnReads(mem, m, env, slot);
      }
    }
  }

  lemma EntryDependsOnReads(mem: seq<byte>, m: seq<byte>, env: Env, slot: int)
    requires |m| == |mem| && InSpan(mem, slot, RELA_SIZE)
    requires forall i :: 0 <= i < |mem| && Reads(mem, env, slot, i) ==> m[i] == mem[i]
    ensures RelaAt(m, env, slot) == RelaAt(mem, env, slot)
  {
    assert forall i :: slot <= i < slot + RELA_SIZE ==> Reads(mem, env, slot, i);
    SameRead(mem, m, slot, 8);
    SameRead(mem, m, slot + 8, 4);
    SameRead(mem, m, slot + 12, 4);
    SameRead(mem, m, slot + 16, 8);
  }

  lemma SymbolDependsOnReads(mem: seq<byte>, m: seq<byte>, env: Env, slot: int)
    requires |m| == |mem| && HasSymbol(mem, env, slot)
    requires forall i :: 0 <= i < |mem| && Reads(mem, env, slot, i) ==> m[i] == mem[i]
    ensures var o := SymOffset(env, Entry(mem, env, slot).symbol);
            SymAt(m, o) == SymAt(mem, o) && Resolve(m, env, SymAt(mem, o)) == Resolve(mem, env, SymAt(mem, o))
  {
    var o := SymOffset(env, Entry(mem, env, slot).symbol);
    assert forall i :: o <= i < o + SYM_SIZE ==> Reads(mem, env, slot, i);
    SameRead(mem, m, o, 4);
    SameRead(mem, m, o + 6, 2);
    SameRead(mem, m, o + 8, 8);
    var sym := SymAt(mem, o);
    var name := env.strtab + sym.name;
    if sym.shndx == 0 && name >= 0 {
      assert forall i :: name <= i <= name + |CStr(mem, name)| ==> Reads(mem, env, slot, i);
      SameString(mem, m, name);
    }
  }

  // ----- relocation is a list of constant writes

  /** The words that the entries of the loaded image ask for. */
  ghost predicate DecodesTo(mem: seq<byte>, env: Env, slots: seq<int>, ws: seq<Write>) {
    |ws| <= |slots| && forall k :: 0 <= k < |ws| ==> Decode(mem, env, slots[k]) == Success(ws[k])
  }

  lemma DecodedWrite(mem: seq<byte>, env: Env, slots: seq<int>, ws: seq<Write>, k: nat)
    requires DecodesTo(mem, env, slots, ws) && k < |ws|
    ensures Fits(mem, ws[k]) && InSpan(mem, slots[k], RELA_SIZE)
    ensures ws[k].off == Entry(mem, env, slots[k]).target
    ensures forall i :: Covers(ws[k], i) <==> Targets(mem, env, slots[k], i)
  {
  }

  lemma WritesFit(mem: seq<byte>, env: Env, slots: seq<int>, ws: seq<Write>, m: seq<byte>)
    requires DecodesTo(mem, env, slots, ws) && |m| == |mem|
    ensures AllFit(m, ws)
  {
    forall k | 0 <= k < |ws|
      ensures Fits(m, ws[k])
    {
      DecodedWrite(mem, env, slots, ws, k);
    }
  }

  /** Writing decoded words touches only targets. */
  lemma {:induction false} WritesStayOnTarget(mem: seq<byte>, m: seq<byte>, env: Env, slots: seq<int>, ws: seq<Write>)
    requires DecodesTo(mem, env, slots, ws) && AgreesOffTarget(mem, m, env, slots) && AllFit(m, ws)
    ensures AgreesOffTarget(mem, PutAll(m, ws), env, slots)
  {
    forall i | 0 <= i < |mem| && forall t :: t in slots ==> !Targets(mem, env, t, i)
      ensures PutAll(m, ws)[i] == mem[i]
    {
      LastWriteWins(m, ws, i);
      forall k | 0 <= k < |ws|
        ensures !Covers(ws[k], i)
      {
        DecodedWrite(mem, env, slots, ws, k);
        assert slots[k] in slots;
      }
    }
  }

  lemma DecodeOffTarget(mem: seq<byte>, m: seq<byte>, env: Env, slots: seq<int>, k: nat)
    requires TablesUntouched(mem, env, slots) && AgreesOffTarget(mem, m, env, slots) && k < |slots|
    ensures Decode(m, env, slots[k]) == Decode(mem, env, slots[k])
  {
    forall i | 0 <= i < |mem| && Reads(mem, env, slots[k], i)
      ensures m[i] == mem[i]
    {
      assert slots[k] in slots;
      assert forall t :: t in slots ==> !Targets(mem, env, t, i);
    }
    DecodeDependsOnReads(mem, m, env, slots[k]);
  }

  /** From any memory that agrees with the image off target: after k writes, the rest of the pass makes the rest of
      them. */
  lemma {:induction false} PassFrom(mem: seq<byte>, m: seq<byte>, env: Env, slots: seq<int>, ws: seq<Write>)
    returns (all: seq<Write>)
    requires TablesUntouched(mem, env, slots) && AgreesOffTarget(mem, m, env, slots)
    requires DecodesTo(mem, env, slots, ws) && AllFit(m, ws)
    requires Relocate(PutAll(m, ws), env, slots[|ws|..]).Success?
    ensures |all| == |slots| && DecodesTo(mem, env, slots, all) && AllFit(m, all)
    ensures Relocate(PutAll(m, ws), env, slots[|ws|..]) == Success(PutAll(m, all))
    decreases |slots| - |ws|
  {
    hide TablesUntouched, AgreesOffTarget, Decode;
    var k := |ws|;
    if k == |slots| {
      all := ws;
    } else {
      var now := PutAll(m, ws);
      WritesStayOnTarget(mem, m, env, slots, ws);
      DecodeOffTarget(mem, now, env, slots, k);
      RelocateStep(now, env, slots, k);
      var w := Decode(now, env, slots[k]).value;
      var more := ws + [w];
      assert more[..k] == ws;
      all := PassFrom(mem, m, env, slots, more);
    }
  }

  lemma {:induction false} PassAlong(mem: seq<byte>, m: seq<byte>, env: Env, slots: seq<int>, ws: seq<Write>, k: nat)
    requires TablesUntouched(mem, env, slots) && AgreesOffTarget(mem, m, env, slots)
    requires |ws| == |slots| && DecodesTo(mem, env, slots, ws) && AllFit(m, ws) && k <= |ws|
    ensures AllFit(m, ws[..k]) && Relocate(PutAll(m, ws[..k]), env, slots[k..]) == Success(PutAll(m, ws))
    decreases |ws| - k
  {
    if k == |ws| {
      assert ws[..k] == ws && slots[k..] == [];
    } else {
      var now := PutAll(m, ws[..k]);
      assert DecodesTo(mem, env, slots, ws[..k]);
      WritesStayOnTarget(mem, m, env, slots, ws[..k]);
      DecodeOffTarget(mem, now, env, slots, k);
      RelocateStep(now, env, slots, k);
      assert ws[..k + 1][..k] == ws[..k];
      PassAlong(mem, m, env, slots, ws, k + 1);
    }
  }

  /** Main result: if no relocation writes what one reads, the passes succeed exactly if every entry of the loaded
      image can be decoded, and they leave the image with those words written, in table order. */
  lemma {:induction false} RelocationIsWrites(mem: seq<byte>, env: Env, slots: seq<int>)
    requires TablesUntouched(mem, env, slots)
    ensures Relocate(mem, env, slots).Success? <==> exists ws :: |ws| == |slots| && DecodesTo(mem, env, slots, ws)
    ensures forall ws :: |ws| == |slots| && DecodesTo(mem, env, slots, ws) ==>
              AllFit(mem, ws) && Relocate(mem, env, slots) == Success(PutAll(mem, ws))
  {
    assert slots[0..] == slots;
    if Relocate(mem, env, slots).Success? {
      assert PutAll(mem, []) == mem;
      var all := PassFrom(mem, mem, env, slots, []);
    }
    forall ws | |ws| == |slots| && DecodesTo(mem, env, slots, ws)
      ensures AllFit(mem, ws) && Relocate(mem, env, slots) == Success(PutAll(mem, ws))
    {
      WritesFit(mem, env, slots, ws, mem);
      PassAlong(mem, mem, env, slots, ws, 0);
      assert PutAll(mem, ws[..0]) == mem;
    }
  }

  /** Running the passes again over relocated memory changes nothing. */
  lemma {:induction false} RelocatingTwice(mem: seq<byte>, env: Env, slots: seq<int>)
    requires TablesUntouched(mem, env, slots) && Relocate(mem, env, slots).Success?
    ensures Relocate(Relocate(mem, env, slots).value, env, slots) == Relocate(mem, env, slots)
  {
    RelocationIsWrites(mem, env, slots);
    var ws :| |ws| == |slots| && DecodesTo(mem, env, slots, ws);
    WritesFit(mem, env, slots, ws, mem);
    var once := PutAll(mem, ws);
    WritesFit(mem, env, slots, ws, once);
    WritesStayOnTarget(mem, mem, env, slots, ws);
    PassAlong(mem, once, env, slots, ws, 0);
    assert slots[0..] == slots && PutAll(once, ws[..0]) == once;
    WritingTwice(mem, ws);
  }

  // ----- load addresses

  /** The relocation stores an address inside the object: a base-relative word or a symbol the object defines. */
  predicate BaseRelative(mem: seq<byte>, env: Env, slot: int)
    requires InSpan(mem, slot, RELA_SIZE)
  {
    || Entry(mem, env, slot).rtype == R_RELATIVE
    || (HasSymbol(mem, env, slot) && SymbolOf(mem, env, slot).shndx != 0)
  }

  ghost predicate TargetsApart(mem: seq<byte>, env: Env, slots: seq<int>) {
    forall j, k, i :: 0 <= j < k < |slots| && Targets(mem, env, slots[j], i) ==> !Targets(mem, env, slots[k], i)
  }

  /** Words of two loads: a base-relative one differs by exactly the difference of the biases, any other one not
      at all. */
  predicate Shifted(baseRelative: bool, v: nat, w: nat, bias: nat, bias': nat) {
    if baseRelative then (v + bias') % TWO64 == (w + bias) % TWO64 else v == w
  }

  lemma ResolveAtOtherBase(mem: seq<byte>, env: Env, bias': nat, sym: Sym, addend: nat)
    requires env.bias < TWO64 && bias' < TWO64
    ensures var v := (Resolve(mem, env, sym) + addend) % TWO64;
            var w := (Resolve(mem, env.(bias := bias'), sym) + addend) % TWO64;
            Shifted(sym.shndx != 0, v, w, env.bias, bias')
  {
    if sym.shndx != 0 {
      AddTwice(env.bias, sym.value, addend);
      AddTwice(bias', sym.value, addend);
      ShiftedSums(env.bias, bias', sym.value + addend);
    }
  }

  lemma ValuesAtOtherBase(mem: seq<byte>, env: Env, bias': nat, r: Rela)
    requires env.bias < TWO64 && bias' < TWO64
    requires Value(mem, env, r).Success? && Value(mem, env.(bias := bias'), r).Success?
    ensures var v, w := Value(mem, env, r).value, Value(mem, env.(bias := bias'), r).value;
            && v < TWO64 && w < TWO64
            && Shifted(r.rtype == R_RELATIVE || SymAt(mem, SymOffset(env, r.symbol)).shndx != 0, v, w, env.bias, bias')
  {
    if r.rtype == R_RELATIVE {
      ShiftedSums(env.bias, bias', r.addend);
    } else {
      ResolveAtOtherBase(mem, env, bias', SymAt(mem, SymOffset(env, r.symbol)), r.addend);
    }
  }

  lemma DecodesAtOtherBase(mem: seq<byte>, env: Env, bias': nat, slot: int)
    requires env.bias < TWO64 && bias' < TWO64
    requires Decode(mem, env, slot).Success? && Decode(mem, env.(bias := bias'), slot).Success?
    ensures var v, w := Decode(mem, env, slot).value, Decode(mem, env.(bias := bias'), slot).value;
            && v.off == w.off && v.val < TWO64 && w.val < TWO64
            && Shifted(BaseRelative(mem, env, slot), v.val, w.val, env.bias, bias')
  {
    var r := RelaAt(mem, env, slot);
    assert RelaAt(mem, env.(bias := bias'), slot) == r;
    ValuesAtOtherBase(mem, env, bias', r);
  }

  lemma ShiftedSums(b: nat, c: nat, a: nat)
    ensures ((b + a) % TWO64 + c) % TWO64 == ((c + a) % TWO64 + b) % TWO64
  {
  }

  lemma AddTwice(b: nat, x: nat, a: nat)
    ensures ((b + x) % TWO64 + a) % TWO64 == (b + (x + a)) % TWO64
  {
  }

  lemma ApartTargets(mem: seq<byte>, env: Env, slots: seq<int>, ws: seq<Write>)
    requires DecodesTo(mem, env, slots, ws) && |ws| == |slots| && TargetsApart(mem, env, slots)
    ensures AllApart(ws)
  {
    forall j, k | 0 <= j < k < |ws|
      ensures Apart(ws[j], ws[k])
    {
      DecodedWrite(mem, env, slots, ws, j);
      DecodedWrite(mem, env, slots, ws, k);
      var i := if ws[j].off < ws[k].off then ws[k].off else ws[j].off;
      assert Covers(ws[j], i) ==> !Covers(ws[k], i);
    }
  }

  /** The same tables are untouched at every base: neither reads nor targets depend on the bias. */
  lemma SameTablesAtOtherBase(mem: seq<byte>, env: Env, bias': nat, slots: seq<int>)
    requires TablesUntouched(mem, env, slots)
    ensures TablesUntouched(mem, env.(bias := bias'), slots)
  {
    var env' := env.(bias := bias');
    forall s, t, i {:trigger Reads(mem, env', s, i), Targets(mem, env', t, i)}
      | s in slots && t in slots && Reads(mem, env', s, i)
      ensures !Targets(mem, env', t, i)
    {
      assert Reads(mem, env, s, i);
      assert Targets(mem, env', t, i) == Targets(mem, env, t, i);
    }
  }

  /** The words that a successful load writes. */
  lemma WordsOfLoad(mem: seq<byte>, env: Env, slots: seq<int>) returns (ws: seq<Write>)
    requires TablesUntouched(mem, env, slots) && Relocate(mem, env, slots).Success?
    ensures |ws| == |slots| && DecodesTo(mem, env, slots, ws) && AllFit(mem, ws)
    ensures Relocate(mem, env, slots) == Success(PutAll(mem, ws))
  {
    RelocationIsWrites(mem, env, slots);
    ws :| |ws| == |slots| && DecodesTo(mem, env, slots, ws);
  }

  /** The word at a relocation's target in two memories: shifted by the difference of the biases if it is
      base-relative, the same otherwise. */
  ghost predicate WordShifted(mem: seq<byte>, env: Env, bias': nat, slot: int, m: seq<byte>, m': seq<byte>)
    requires |m| == |mem| == |m'|
  {
    && InSpan(mem, slot, RELA_SIZE) && InSpan(mem, Entry(mem, env, slot).target, 8)
    && var t := Entry(mem, env, slot).target;
       Shifted(BaseRelative(mem, env, slot), Read(m, t, 8), Read(m', t, 8), env.bias, bias')
  }

  /** No base-relative relocation writes byte i. */
  ghost predicate NotShifted(mem: seq<byte>, env: Env, slots: seq<int>, i: int) {
    forall k :: 0 <= k < |slots| && Targets(mem, env, slots[k], i) ==> !BaseRelative(mem, env, slots[k])
  }

  lemma {:induction false} WordIsShifted(mem: seq<byte>, env: Env, bias': nat, slots: seq<int>, ws: seq<Write>,
                                         vs: seq<Write>, k: nat)
    requires env.bias < TWO64 && bias' < TWO64 && k < |slots| == |ws| == |vs|
    requires DecodesTo(mem, env, slots, ws) && DecodesTo(mem, env.(bias := bias'), slots, vs)
    requires AllFit(mem, ws) && AllFit(mem, vs) && AllApart(ws) && AllApart(vs)
    ensures WordShifted(mem, env, bias', slots[k], PutAll(mem, ws), PutAll(mem, vs))
  {
    DecodesAtOtherBase(mem, env, bias', slots[k]);
    DecodedWrite(mem, env, slots, ws, k);
    ReadsBoth(mem, ws, vs, k);
  }

  lemma {:induction false} ReadsBoth(mem: seq<byte>, ws: seq<Write>, vs: seq<Write>, k: nat)
    requires AllFit(mem, ws) && AllFit(mem, vs) && AllApart(ws) && AllApart(vs) && k < |ws| == |vs|
    requires ws[k].off == vs[k].off && ws[k].val < TWO64 && vs[k].val < TWO64
    ensures Read(PutAll(mem, ws), ws[k].off, 8) == ws[k].val && Read(PutAll(mem, vs), ws[k].off, 8) == vs[k].val
  {
    WordReadsBack(mem, ws, k);
    WordReadsBack(mem, vs, k);
  }

  lemma {:induction false} ByteIsSame(mem: seq<byte>, env: Env, bias': nat, slots: seq<int>, ws: seq<Write>,
                                      vs: seq<Write>, i: nat)
    requires env.bias < TWO64 && bias' < TWO64 && |slots| == |ws| == |vs| && i < |mem|
    requires DecodesTo(mem, env, slots, ws) && DecodesTo(mem, env.(bias := bias'), slots, vs)
    requires AllFit(mem, ws) && AllFit(mem, vs) && NotShifted(mem, env, slots, i)
    ensures PutAll(mem, ws)[i] == PutAll(mem, vs)[i]
  {
    forall k | 0 <= k < |ws|
      ensures ws[k].off == vs[k].off && (Covers(ws[k], i) ==> ws[k].val == vs[k].val)
    {
      DecodesAtOtherBase(mem, env, bias', slots[k]);
      DecodedWrite(mem, env, slots, ws, k);
    }
    SameByte(mem, ws, vs, i);
  }

  lemma TargetsApartAtOtherBase(mem: seq<byte>, env: Env, bias': nat, slots: seq<int>)
    requires TargetsApart(mem, env, slots)
    ensures TargetsApart(mem, env.(bias := bias'), slots)
  {
    var env' := env.(bias := bias');
    forall j, k, i | 0 <= j < k < |slots| && Targets(mem, env', slots[j], i)
      ensures !Targets(mem, env', slots[k], i)
    {
      assert Targets(mem, env, slots[j], i);
      assert Targets(mem, env', slots[k], i) == Targets(mem, env, slots[k], i);
    }
  }

  /** Main result: two successful loads of one image at different bases agree byte for byte, except in the words
      of base-relative and defined-symbol relocations, and those differ exactly by the difference of the biases. */
  lemma {:induction false} LoadsDifferByBias(mem: seq<byte>, env: Env, bias': nat, slots: seq<int>)
    requires env.bias < TWO64 && bias' < TWO64
    requires TablesUntouched(mem, env, slots) && TargetsApart(mem, env, slots)
    requires Relocate(mem, env, slots).Success? && Relocate(mem, env.(bias := bias'), slots).Success?
    ensures var m, m' := Relocate(mem, env, slots).value, Relocate(mem, env.(bias := bias'), slots).value;
            && (forall k :: 0 <= k < |slots| ==> WordShifted(mem, env, bias', slots[k], m, m'))
            && (forall i :: 0 <= i < |mem| && NotShifted(mem, env, slots, i) ==> m[i] == m'[i])
  {
    var env' := env.(bias := bias');
    var ws := WordsOfLoad(mem, env, slots);
    SameTablesAtOtherBase(mem, env, bias', slots);
    var vs := WordsOfLoad(mem, env', slots);
    ApartTargets(mem, env, slots, ws);
    TargetsApartAtOtherBase(mem, env, bias', slots);
    ApartTargets(mem, env', slots, vs);
    forall k | 0 <= k < |slots|
      ensures WordShifted(mem, env, bias', slots[k], PutAll(mem, ws), PutAll(mem, vs))
    {
      WordIsShifted(mem, env, bias', slots, ws, vs, k);
    }
    forall i | 0 <= i < |mem| && NotShifted(mem, env, slots, i)
      ensures PutAll(mem, ws)[i] == PutAll(mem, vs)[i]
    {
      ByteIsSame(mem, env, bias', slots, ws, vs, i);
    }
  }

  /** Two write lists with the same places leave the same byte where their last covers have the same value. */
  lemma {:induction false} SameByte(mem: seq<byte>, ws: seq<Write>, vs: seq<Write>, i: nat)
    requires AllFit(mem, ws) && AllFit(mem, vs) && |ws| == |vs| && i < |mem|
    requires forall k :: 0 <= k < |ws| ==> ws[k].off == vs[k].off && (Covers(ws[k], i) ==> ws[k].val == vs[k].val)
    ensures PutAll(mem, ws)[i] == PutAll(mem, vs)[i]
    decreases |ws|
  {
    if ws != [] {
      SameByte(mem, ws[..|ws| - 1], vs[..|vs| - 1], i);
    }
  }

  // ----- order

  lemma {:induction false} TwoPlaces(s: seq<int>, x: int) returns (p: nat, q: nat)
    requires multiset(s)[x] >= 2
    ensures p < q < |s| && s[p] == s[q] == x
  {
    var n := |s| - 1;
    assert s == s[..n] + [s[n]];
    if s[n] == x {
      assert x in s[..n];
      p :| 0 <= p < n && s[p] == x;
      q := n;
    } else {
      p, q := TwoPlaces(s[..n], x);
    }
  }

  lemma TwiceInSequence(s: seq<int>, j: nat, k: nat)
    requires j < k < |s| && s[j] == s[k]
    ensures multiset(s)[s[j]] >= 2
  {
    assert s == s[..k] + s[k..];
    assert s[j] in s[..k] && s[k] in s[k..];
  }

  /** Whether targets overlap does not depend on the order of the entries. */
  lemma TargetsApartInAnyOrder(mem: seq<byte>, env: Env, slots: seq<int>, slots': seq<int>)
    requires TargetsApart(mem, env, slots) && multiset(slots) == multiset(slots')
    ensures TargetsApart(mem, env, slots')
  {
    hide Targets;
    forall j, k, i | 0 <= j < k < |slots'| && Targets(mem, env, slots'[j], i)
      ensures !Targets(mem, env, slots'[k], i)
    {
      if slots'[j] == slots'[k] {
        TwiceInSequence(slots', j, k);
        var p, q := TwoPlaces(slots, slots'[j]);
      } else {
        assert slots'[j] in multiset(slots') && slots'[k] in multiset(slots');
        var p :| 0 <= p < |slots| && slots[p] == slots'[j];
        var q :| 0 <= q < |slots| && slots[q] == slots'[k];
      }
    }
  }

  lemma SameEntries(slots: seq<int>, slots': seq<int>)
    requires multiset(slots) == multiset(slots')
    ensures |slots| == |slots'| && forall s :: s in slots <==> s in slots'
  {
    assert |slots| == |multiset(slots)| == |multiset(slots')| == |slots'|;
    assert forall s :: s in slots <==> s in multiset(slots);
  }

  lemma WordIsAmong(mem: seq<byte>, env: Env, slots: seq<int>, slots': seq<int>, ws: seq<Write>, vs: seq<Write>,
                    w: Write)
    requires |ws| == |slots| && DecodesTo(mem, env, slots, ws) && |vs| == |slots'| && DecodesTo(mem, env, slots', vs)
    requires (forall s :: s in slots ==> s in slots') && w in ws
    ensures w in vs
  {
    hide Decode;
    var p :| 0 <= p < |ws| && ws[p] == w;
    assert slots[p] in slots';
    var k :| 0 <= k < |slots'| && slots'[k] == slots[p];
    assert vs[k] == w;
  }

  /** The words that the entries in another order ask for are the same words. */
  lemma WordsInOrder(mem: seq<byte>, env: Env, slots: seq<int>, slots': seq<int>, ws: seq<Write>)
    returns (vs: seq<Write>)
    requires (forall s :: s in slots <==> s in slots') && |ws| == |slots| && DecodesTo(mem, env, slots, ws)
    ensures |vs| == |slots'| && DecodesTo(mem, env, slots', vs)
    ensures forall w :: w in ws <==> w in vs
  {
    hide Decode;
    forall k | 0 <= k < |slots'|
      ensures Decode(mem, env, slots'[k]).Success?
    {
      assert slots'[k] in slots';
      var p :| 0 <= p < |slots| && slots[p] == slots'[k];
      assert Decode(mem, env, slots[p]) == Success(ws[p]);
    }
    vs := seq(|slots'|, k requires 0 <= k < |slots'| => Decode(mem, env, slots'[k]).value);
    forall w | w in ws
      ensures w in vs
    {
      WordIsAmong(mem, env, slots, slots', ws, vs, w);
    }
    forall w | w in vs
      ensures w in ws
    {
      WordIsAmong(mem, env, slots', slots, vs, ws, w);
    }
  }

  lemma {:induction false} ReorderedIsDone(mem: seq<byte>, env: Env, slots: seq<int>, slots': seq<int>)
    requires TablesUntouched(mem, env, slots) && TargetsApart(mem, env, slots)
    requires multiset(slots) == multiset(slots') && Relocate(mem, env, slots).Success?
    ensures Relocate(mem, env, slots') == Relocate(mem, env, slots)
  {
    SameEntries(slots, slots');
    var ws := WordsOfLoad(mem, env, slots);
    var vs := WordsInOrder(mem, env, slots, slots', ws);
    TargetsApartInAnyOrder(mem, env, slots, slots');
    ApartTargets(mem, env, slots, ws);
    ApartTargets(mem, env, slots', vs);
    assert TablesUntouched(mem, env, slots');
    RelocationIsWrites(mem, env, slots');
    OrderDoesNotMatter(mem, ws, vs);
  }

  /** Main result: if no relocation writes what one reads or writes, the entries may be applied in any order. The passes
      succeed in every order or in none, and leave the same memory. */
  lemma {:induction false} RelocationsInAnyOrder(mem: seq<byte>, env: Env, slots: seq<int>, slots': seq<int>)
    requires TablesUntouched(mem, env, slots) && TargetsApart(mem, env, slots)
    requires multiset(slots) == multiset(slots')
    ensures Relocate(mem, env, slots).Success? <==> Relocate(mem, env, slots').Success?
    ensures Relocate(mem, env, slots).Success? ==> Relocate(mem, env, slots') == Relocate(mem, env, slots)
  {
    if Relocate(mem, env, slots).Success? {
      ReorderedIsDone(mem, env, slots, slots');
    }
    if Relocate(mem, env, slots').Success? {
      SameEntries(slots, slots');
      TargetsApartInAnyOrder(mem, env, slots, slots');
      assert TablesUntouched(mem, env, slots');
      ReorderedIsDone(mem, env, slots', slots);
    }
  }
}

// What relocation leaves in memory, said in terms of the file's own fields: bytes at the offsets that the ELF
// structures give them (section 5.7 of ELF for the Arm 64-bit Architecture).

module ElfFields {
  import opened Bytes
  import opened ElfMemory
  import opened ElfReloc
  import opened ElfGuarantee

  // ----- fields

  predicate Has(mem: seq<byte>, o: int, n: nat) {
    0 <= o && o + n <= |mem|
  }

  function U16(mem: seq<byte>, o: int): nat
    requires Has(mem, o, 2)
  {
    mem[o] as int + 0x100 * mem[o + 1] as int
  }

  function U32(mem: seq<byte>, o: int): nat
    requires Has(mem, o, 4)
  {
    mem[o] as int + 0x100 * mem[o + 1] as int + 0x1_0000 * mem[o + 2] as int + 0x100_0000 * mem[o + 3] as int
  }

  function U64(mem: seq<byte>, o: int): nat
    requires Has(mem, o, 8)
  {
    U32(mem, o) + 0x1_0000_0000 * U32(mem, o + 4)
  }

  lemma {:induction false} LeSplit(s: seq<byte>, t: seq<byte>)
    ensures Le(s + t) == Le(s) + Pow256(|s|) * Le(t)
  {
    if s == [] {
      assert s + t == t;
    } else {
      LeSplit(s[1..], t);
      assert (s + t)[1..] == s[1..] + t;
      LeDistributes(s[0] as int, Le(s[1..]), Pow256(|s| - 1), Le(t));
    }
  }

  lemma LeDistributes(a: int, b: int, p: int, c: int)
    ensures a + 256 * (b + p * c) == a + 256 * b + 256 * p * c
  {
  }

  lemma LeOfTwo(a: byte, b: byte)
    ensures Le([a, b]) == a as int + 0x100 * b as int
  {
    assert [a, b][1..] == [b] && [b][1..] == [];
    assert Le([b]) == b as int;
  }

  lemma Read16(mem: seq<byte>, o: int)
    requires Has(mem, o, 2)
    ensures Read(mem, o, 2) == U16(mem, o)
  {
    assert mem[o..o + 2] == [mem[o], mem[o + 1]];
    LeOfTwo(mem[o], mem[o + 1]);
  }

  lemma Read32(mem: seq<byte>, o: int)
    requires Has(mem, o, 4)
    ensures Read(mem, o, 4) == U32(mem, o)
  {
    var low, high := mem[o..o + 2], mem[o + 2..o + 4];
    assert mem[o..o + 4] == low + high;
    assert low == [mem[o], mem[o + 1]] && high == [mem[o + 2], mem[o + 3]];
    LeSplit(low, high);
    LeOfTwo(mem[o], mem[o + 1]);
    LeOfTwo(mem[o + 2], mem[o + 3]);
    assert Pow256(2) == 256 * Pow256(1) && Pow256(1) == 256 * Pow256(0);
  }

  lemma Read64(mem: seq<byte>, o: int)
    requires Has(mem, o, 8)
    ensures Read(mem, o, 8) == U64(mem, o)
  {
    hide Le;
    var low, high := mem[o..o + 4], mem[o + 4..o + 8];
    assert mem[o..o + 8] == low + high;
    LeSplit(low, high);
    Read32(mem, o);
    Read32(mem, o + 4);
    assert Pow256(4) == 0x1_0000_0000 by {
      assert Pow256(0) == 1 && Pow256(1) == 256 && Pow256(2) == 0x1_0000 && Pow256(3) == 0x100_0000;
    }
  }

  /** The NUL-terminated string at o is this name. Nothing is read outside the span. */
  predicate NameAt(mem: seq<byte>, o: int, name: seq<byte>) {
    if o < 0 || o >= |mem| then name == []
    else
      && o + |name| <= |mem| && mem[o..o + |name|] == name
      && (forall i :: 0 <= i < |name| ==> name[i] != 0)
      && (o + |name| < |mem| ==> mem[o + |name|] == 0)
  }

  lemma {:induction false} CStrIsName(mem: seq<byte>, o: nat, name: seq<byte>)
    ensures CStr(mem, o) == name <==> NameAt(mem, o, name)
    decreases |mem| - o
  {
    if o < |mem| {
      if mem[o] != 0 && name != [] {
        CStrIsName(mem, o + 1, name[1..]);
        LongerName(mem, o, name);
      }
    }
  }

  lemma LongerName(mem: seq<byte>, o: nat, name: seq<byte>)
    requires o < |mem| && mem[o] != 0 && name != []
    ensures NameAt(mem, o, name) <==> mem[o] == name[0] && NameAt(mem, o + 1, name[1..])
  {
    var tail := name[1..];
    if o + |name| <= |mem| {
      assert mem[o..o + |name|] == [mem[o]] + mem[o + 1..o + |name|];
      assert name == [name[0]] + tail;
      assert mem[o..o + |name|] == name <==> mem[o] == name[0] && mem[o + 1..o + |name|] == tail by {
        if mem[o..o + |name|] == name {
          assert mem[o..o + |name|][0] == name[0];
          assert mem[o..o + |name|][1..] == mem[o + 1..o + |name|];
        }
      }
    }
    assert forall i :: 0 < i < |name| ==> name[i] == tail[i - 1];
  }

  /** a is the address of the first host export whose name is the string at o. */
  ghost predicate FirstHost(hosts: seq<HostSym>, mem: seq<byte>, o: int, a: nat) {
    exists i :: 0 <= i < |hosts| && IsFirstHost(hosts, mem, o, i) && a == hosts[i].addr
  }

  ghost predicate IsFirstHost(hosts: seq<HostSym>, mem: seq<byte>, o: int, i: nat)
    requires i < |hosts|
  {
    NameAt(mem, o, hosts[i].name) && forall j :: 0 <= j < i ==> !NameAt(mem, o, hosts[j].name)
  }

  // ----- what an entry asks for

  /** The relocation entry at slot asks for word at off. Offsets count from the link-time address lo. */
  ghost predicate AsksFor(mem: seq<byte>, env: Env, slot: int, off: int, word: nat) {
    && Has(mem, slot, 24)
    && off == U64(mem, slot) - env.lo && Has(mem, off, 8)
    && var rtype, addend := U32(mem, slot + 8), U64(mem, slot + 16);
    || (rtype == 1027 && word == (env.bias + addend) % TWO64)
    || (rtype in {257, 1025, 1026} && SymbolGives(mem, env, env.symtab + 24 * U32(mem, slot + 12), addend, word))
  }

  /** The symbol entry at st, whose name offset, section index and value are at 0, 6 and 8, leads to this word. */
  ghost predicate SymbolGives(mem: seq<byte>, env: Env, st: int, addend: nat, word: nat) {
    && Has(mem, st, 24)
    && var name, shndx, value := U32(mem, st), U16(mem, st + 6), U64(mem, st + 8);
    if shndx != 0 then (env.bias + value) % TWO64 != 0 && word == (env.bias + value + addend) % TWO64
    else HostGives(env.hosts, mem, env.strtab + name, addend, word)
  }

  ghost predicate HostGives(hosts: seq<HostSym>, mem: seq<byte>, o: int, addend: nat, word: nat) {
    exists a: nat :: FirstHost(hosts, mem, o, a) && a != 0 && word == (a + addend) % TWO64
  }

  lemma {:induction false} HostIsFirst(hosts: seq<HostSym>, mem: seq<byte>, o: int, name: seq<byte>, a: nat)
    requires forall n :: NameAt(mem, o, n) <==> n == name
    requires a != 0
    ensures HostAddr(hosts, name) == a <==> FirstHost(hosts, mem, o, a)
  {
    hide NameAt;
    if hosts != [] {
      HostIsFirst(hosts[1..], mem, o, name, a);
      if hosts[0].name == name {
        assert IsFirstHost(hosts, mem, o, 0);
        assert forall i :: 0 < i < |hosts| ==> !IsFirstHost(hosts, mem, o, i);
      } else {
        LaterHost(hosts, mem, o, a);
      }
    }
  }

  lemma LaterHost(hosts: seq<HostSym>, mem: seq<byte>, o: int, a: nat)
    requires hosts != [] && !NameAt(mem, o, hosts[0].name)
    ensures FirstHost(hosts, mem, o, a) <==> FirstHost(hosts[1..], mem, o, a)
  {
    hide NameAt;
    var rest := hosts[1..];
    forall i | 0 <= i < |rest|
      ensures IsFirstHost(rest, mem, o, i) <==> IsFirstHost(hosts, mem, o, i + 1)
    {
      assert forall j :: 0 <= j < |rest| ==> rest[j] == hosts[j + 1];
      if IsFirstHost(rest, mem, o, i) {
        forall j | 0 <= j < i + 1
          ensures !NameAt(mem, o, hosts[j].name)
        {
          assert j > 0 ==> hosts[j] == rest[j - 1];
        }
      }
      if IsFirstHost(hosts, mem, o, i + 1) {
        forall j | 0 <= j < i
          ensures !NameAt(mem, o, rest[j].name)
        {
          assert rest[j] == hosts[j + 1];
        }
      }
    }
    if FirstHost(hosts, mem, o, a) {
      var i :| 0 <= i < |hosts| && IsFirstHost(hosts, mem, o, i) && a == hosts[i].addr;
      assert IsFirstHost(rest, mem, o, i - 1);
    }
    if FirstHost(rest, mem, o, a) {
      var i :| 0 <= i < |rest| && IsFirstHost(rest, mem, o, i) && a == rest[i].addr;
      assert IsFirstHost(hosts, mem, o, i + 1);
    }
  }

  lemma NameIs(mem: seq<byte>, env: Env, sym: Sym, n: seq<byte>)
    ensures NameAt(mem, env.strtab + sym.name, n) <==> n == NameOf(mem, env, sym)
  {
    var o := env.strtab + sym.name;
    if o >= 0 {
      CStrIsName(mem, o, n);
    }
  }

  /** What a symbol resolves to, when that is not NULL. */
  lemma ResolveIs(mem: seq<byte>, env: Env, st: int, a: nat)
    requires Has(mem, st, 24) && a != 0
    ensures Resolve(mem, env, SymAt(mem, st)) == a <==>
            if U16(mem, st + 6) != 0 then a == (env.bias + U64(mem, st + 8)) % TWO64
            else FirstHost(env.hosts, mem, env.strtab + U32(mem, st), a)
  {
    hide NameAt, FirstHost, NameOf, HostAddr, Read, U16, U32, U64;
    Read32(mem, st);
    Read16(mem, st + 6);
    Read64(mem, st + 8);
    var sym := SymAt(mem, st);
    var o := env.strtab + sym.name;
    forall n
      ensures NameAt(mem, o, n) <==> n == NameOf(mem, env, sym)
    {
      NameIs(mem, env, sym, n);
    }
    HostIsFirst(env.hosts, mem, o, NameOf(mem, env, sym), a);
  }

  lemma RelaFields(mem: seq<byte>, env: Env, slot: int)
    requires Has(mem, slot, 24)
    ensures RelaAt(mem, env, slot) ==
            Rela(U64(mem, slot) - env.lo, U32(mem, slot + 8), U32(mem, slot + 12), U64(mem, slot + 16))
  {
    hide U32, U64, Read;
    Read64(mem, slot);
    Read32(mem, slot + 8);
    Read32(mem, slot + 12);
    Read64(mem, slot + 16);
  }

  lemma SymbolValue(mem: seq<byte>, env: Env, st: int, addend: nat, word: nat)
    requires Has(mem, st, 24)
    ensures var a := Resolve(mem, env, SymAt(mem, st));
            SymbolGives(mem, env, st, addend, word) <==> a != 0 && word == (a + addend) % TWO64
  {
    hide FirstHost, Resolve, SymAt, U16, U32, U64;
    var a := Resolve(mem, env, SymAt(mem, st));
    if U16(mem, st + 6) != 0 {
      var b := (env.bias + U64(mem, st + 8)) % TWO64;
      AddTwice(env.bias, U64(mem, st + 8), addend);
      if a != 0 {
        ResolveIs(mem, env, st, a);
      }
      if b != 0 {
        ResolveIs(mem, env, st, b);
      }
      SumOfThree(env.bias, U64(mem, st + 8), addend);
    } else {
      var o := env.strtab + U32(mem, st);
      forall b: nat | b != 0
        ensures a == b <==> FirstHost(env.hosts, mem, o, b)
      {
        ResolveIs(mem, env, st, b);
      }
      assert a != 0 ==> FirstHost(env.hosts, mem, o, a);
    }
  }

  lemma SumOfThree(a: nat, b: nat, c: nat)
    ensures ((a + b) % TWO64 + c) % TWO64 == (a + b + c) % TWO64
  {
  }

  /** Reading an entry is exactly what the fields say. */
  lemma DecodeIsFields(mem: seq<byte>, env: Env, slot: int, off: nat, word: nat)
    ensures Decode(mem, env, slot) == Success(Write(off, word)) <==> AsksFor(mem, env, slot, off, word)
  {
    hide SymbolGives, Resolve, SymAt, U32, U64, RelaAt;
    if InSpan(mem, slot, RELA_SIZE) {
      RelaFields(mem, env, slot);
      var r := RelaAt(mem, env, slot);
      if IsSymbolic(r.rtype) && InSpan(mem, SymOffset(env, r.symbol), SYM_SIZE) {
        SymbolValue(mem, env, SymOffset(env, r.symbol), r.addend, word);
      }
      SymbolNeedsSpan(mem, env, SymOffset(env, r.symbol), r.addend, word);
    }
  }

  lemma SymbolNeedsSpan(mem: seq<byte>, env: Env, st: int, addend: nat, word: nat)
    ensures SymbolGives(mem, env, st, addend, word) ==> Has(mem, st, 24)
  {
  }

  // ----- what is left in memory

  /** After the passes the word of the entry at slot stands at its place. */
  ghost predicate WordStands(image: seq<byte>, env: Env, slot: int, m: seq<byte>) {
    exists off: nat, word: nat :: AsksFor(image, env, slot, off, word) && Has(m, off, 8) && U64(m, off) == word
  }

  /** Main result: where relocations do not disturb each other, the passes succeed exactly if every entry of the loaded
      image asks for a word, and then every such word stands at its place and every other byte is the image's. */
  lemma {:induction false} RelocatedFields(image: seq<byte>, env: Env, slots: seq<int>)
    requires TablesUntouched(image, env, slots) && TargetsApart(image, env, slots)
    ensures Relocate(image, env, slots).Success? <==>
            forall s :: s in slots ==> exists off: nat, word: nat :: AsksFor(image, env, s, off, word)
    ensures Relocate(image, env, slots).Success? ==>
              var m := Relocate(image, env, slots).value;
              && (forall s :: s in slots ==> WordStands(image, env, s, m))
              && forall i :: 0 <= i < |image| && (forall s :: s in slots ==> !Meets(image, env, s, i)) ==>
                m[i] == image[i]
  {
    hide AsksFor, Decode;
    RelocationIsWrites(image, env, slots);
    if Relocate(image, env, slots).Success? {
      var ws := WordsOfLoad(image, env, slots);
      ApartTargets(image, env, slots, ws);
      forall s | s in slots
        ensures exists off: nat, word: nat :: AsksFor(image, env, s, off, word)
        ensures WordStands(image, env, s, PutAll(image, ws))
      {
        var k :| 0 <= k < |slots| && slots[k] == s;
        OneStands(image, env, slots, ws, k);
      }
      forall i | 0 <= i < |image| && (forall s :: s in slots ==> !Meets(image, env, s, i))
        ensures PutAll(image, ws)[i] == image[i]
      {
        OthersStay(image, env, slots, ws, i);
      }
    }
    if forall s :: s in slots ==> exists off: nat, word: nat :: AsksFor(image, env, s, off, word) {
      var ws := AllAsk(image, env, slots);
    }
  }

  /** The entry at slot writes byte i. */
  predicate Meets(image: seq<byte>, env: Env, slot: int, i: int) {
    Has(image, slot, 24) && U64(image, slot) - env.lo <= i < U64(image, slot) - env.lo + 8
  }

  lemma {:induction false} OneStands(image: seq<byte>, env: Env, slots: seq<int>, ws: seq<Write>, k: nat)
    requires |ws| == |slots| && DecodesTo(image, env, slots, ws) && AllFit(image, ws) && AllApart(ws) && k < |ws|
    ensures AsksFor(image, env, slots[k], ws[k].off, ws[k].val)
    ensures WordStands(image, env, slots[k], PutAll(image, ws))
  {
    hide AsksFor;
    var off, word := ws[k].off, ws[k].val;
    DecodeIsFields(image, env, slots[k], off, word);
    AskedIsWord(image, env, slots[k], off, word);
    WordReadsBack(image, ws, k);
    Read64(PutAll(image, ws), off);
  }

  lemma AskedIsWord(mem: seq<byte>, env: Env, slot: int, off: int, word: nat)
    requires AsksFor(mem, env, slot, off, word)
    ensures word < TWO64
  {
  }

  lemma {:induction false} OthersStay(image: seq<byte>, env: Env, slots: seq<int>, ws: seq<Write>, i: nat)
    requires |ws| == |slots| && DecodesTo(image, env, slots, ws) && AllFit(image, ws) && i < |image|
    requires forall s :: s in slots ==> !Meets(image, env, s, i)
    ensures PutAll(image, ws)[i] == image[i]
  {
    LastWriteWins(image, ws, i);
    LastCoverIsLast(ws, i);
    if LastCover(ws, i).Some? {
      var k := LastCover(ws, i).value;
      WriteIsMet(image, env, slots, ws, k, i);
    }
  }

  lemma WriteIsMet(image: seq<byte>, env: Env, slots: seq<int>, ws: seq<Write>, k: nat, i: nat)
    requires |ws| == |slots| && DecodesTo(image, env, slots, ws) && k < |ws| && Covers(ws[k], i)
    ensures slots[k] in slots && Meets(image, env, slots[k], i)
  {
    DecodedWrite(image, env, slots, ws, k);
    RelaFields(image, env, slots[k]);
  }

  lemma AllAsk(image: seq<byte>, env: Env, slots: seq<int>) returns (ws: seq<Write>)
    requires forall s :: s in slots ==> exists off: nat, word: nat :: AsksFor(image, env, s, off, word)
    ensures |ws| == |slots| && DecodesTo(image, env, slots, ws)
  {
    hide AsksFor, Decode;
    ws := [];
    while |ws| < |slots|
      invariant |ws| <= |slots| && DecodesTo(image, env, slots, ws)
      decreases |slots| - |ws|
    {
      var s := slots[|ws|];
      assert s in slots;
      var off: nat, word: nat :| AsksFor(image, env, s, off, word);
      DecodeIsFields(image, env, s, off, word);
      ws := ws + [Write(off, word)];
    }
  }
}

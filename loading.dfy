/** What loading one module does to memory and to its module object, as pure
    functions of the memory before the load: check the MOD0 descriptor,
    zero-fill the bss, locate the module object, initialize it from the
    dynamic section and relocate the module. The methods of Rtld run these
    steps in place and are proved equal to them. */
module Loading {
  import opened Words
  import opened Faults
  import opened Elf
  import opened Memory
  import opened Layout
  import opened Dynamic
  import opened Relocation
  import opened RoModule

  /** "MOD0" read as a little-endian 32-bit word. */
  const MOD0_MAGIC: u32 := 0x30444F4D

  // Fields of the MOD0 descriptor, as 4-byte word indices from the magic.
  const MOD0_DYNAMIC: nat := 1
  const MOD0_BSS_START: nat := 2
  const MOD0_BSS_END: nat := 3
  const MOD0_MODULE_OBJECT: nat := 6

  /** Address of field `k` of the descriptor at `mod0`. */
  function Mod0Field(mod0: u64, k: nat): (r: u64)
    requires k <= 6
    ensures (r - mod0) % TWO_64 == 4 * k
  {
    Wrap64(mod0 + 4 * k)
  }

  /** The module-object field is a word of its own: no other word the loader
      reads from the descriptor before the bss clear is at its address. */
  lemma ObjectFieldDistinct(mod0: u64)
    ensures Mod0Field(mod0, MOD0_MODULE_OBJECT) != mod0
    ensures forall k :: 1 <= k <= 3 ==> Mod0Field(mod0, MOD0_MODULE_OBJECT) != Mod0Field(mod0, k)
  {
  }

  /** Fields of a descriptor are relative to the descriptor and signed. */
  function Relative(mod0: u64, field: u32): u64 {
    Wrap64(mod0 + SignExtend32(field))
  }

  /** The descriptor fields read before the bss clear. */
  datatype Descriptor = Descriptor(dynamic: u64, bssStart: u64, bssEnd: u64)

  /** Reads the descriptor at `mod0`: the magic, then the dynamic, bss-start
      and bss-end fields. */
  function ReadMod0(m: seq<byte>, mod0: u64): (r: Result<Descriptor>)
    ensures r.Ok? <==>
      && Load32(m, mod0) == Some(MOD0_MAGIC)
      && Load32(m, Mod0Field(mod0, MOD0_DYNAMIC)).Some?
      && Load32(m, Mod0Field(mod0, MOD0_BSS_START)).Some?
      && Load32(m, Mod0Field(mod0, MOD0_BSS_END)).Some?
    ensures Load32(m, mod0).Some? && Load32(m, mod0).value != MOD0_MAGIC ==> r == Fatal(BadMagic(mod0))
    ensures r.Fatal? && r.fault != Unmapped ==> r == Fatal(BadMagic(mod0))
  {
    match Load32(m, mod0)
    case None => Fatal(Unmapped)
    case Some(magic) =>
      if magic != MOD0_MAGIC then Fatal(BadMagic(mod0))
      else
        match (Load32(m, Mod0Field(mod0, MOD0_DYNAMIC)), Load32(m, Mod0Field(mod0, MOD0_BSS_START)),
               Load32(m, Mod0Field(mod0, MOD0_BSS_END)))
        case (Some(d), Some(s), Some(e)) => Ok(Descriptor(Relative(mod0, d), Relative(mod0, s), Relative(mod0, e)))
        case _ => Fatal(Unmapped)
  }

  /** The module after its descriptor was checked and its bss cleared: the
      dynamic pointer, the module object's address and the memory. */
  datatype Preparation = Preparation(dynamic: u64, objAddr: u64, mem: seq<byte>)

  /** Checks the descriptor at `mod0`, zero-fills the bss it names, then reads
      the module-object field from the cleared memory. */
  function Prepared(m: seq<byte>, mod0: u64): (r: Result<Preparation>)
  {
    match ReadMod0(m, mod0)
    case Fatal(f) => Fatal(f)
    case Ok(d) =>
      if !(d.bssStart <= d.bssEnd <= |m|) then Fatal(Unmapped)
      else
        var cleared := Zeroed(m, d.bssStart, d.bssEnd);
        match Load32(cleared, Mod0Field(mod0, MOD0_MODULE_OBJECT))
        case None => Fatal(Unmapped)
        case Some(field) => Ok(Preparation(d.dynamic, Relative(mod0, field), cleared))
  }

  /** The preparation halts exactly when the descriptor is unreadable or has
      the wrong magic, when the bss does not lie inside memory, or when the
      module-object field cannot be read after the clear; a bad descriptor
      halts before anything is written. On success the bss is zero, every
      other byte is as it was, and the module object is where field 6 of the
      cleared memory says. */
  lemma PreparedClearsBss(m: seq<byte>, mod0: u64)
    ensures ReadMod0(m, mod0).Fatal? ==> Prepared(m, mod0) == Fatal(ReadMod0(m, mod0).fault)
    ensures Prepared(m, mod0).Ok? <==>
      && ReadMod0(m, mod0).Ok?
      && var d := ReadMod0(m, mod0).value;
         && d.bssStart <= d.bssEnd <= |m|
         && Load32(Zeroed(m, d.bssStart, d.bssEnd), Mod0Field(mod0, MOD0_MODULE_OBJECT)).Some?
    ensures Prepared(m, mod0).Ok? ==>
      var d, p := ReadMod0(m, mod0).value, Prepared(m, mod0).value;
      && |p.mem| == |m|
      && p.dynamic == d.dynamic
      && (forall x :: d.bssStart <= x < d.bssEnd ==> p.mem[x] == 0)
      && (forall x :: 0 <= x < |m| && !(d.bssStart <= x < d.bssEnd) ==> p.mem[x] == m[x])
      && p.objAddr == Relative(mod0, Load32(p.mem, Mod0Field(mod0, MOD0_MODULE_OBJECT)).value)
  {
  }

  /** When the module-object field lies inside the bss, the loader reads it
      after the clear, so it finds offset zero: the object is taken to be at
      the descriptor itself. */
  lemma ObjectFieldInBss(m: seq<byte>, mod0: u64)
    requires Prepared(m, mod0).Ok?
    requires var d := ReadMod0(m, mod0).value;
      d.bssStart <= Mod0Field(mod0, MOD0_MODULE_OBJECT) && Mod0Field(mod0, MOD0_MODULE_OBJECT) + 4 <= d.bssEnd
    ensures Prepared(m, mod0).value.objAddr == mod0
  {
    PreparedClearsBss(m, mod0);
    var p, at := Prepared(m, mod0).value, Mod0Field(mod0, MOD0_MODULE_OBJECT);
    var zeros: seq<byte> := [0, 0, 0, 0];
    assert p.mem[at..at + 4] == zeros;
    assert DecodeLE(zeros) == 0 by {
      assert zeros[1..] == [0, 0, 0] && zeros[1..][1..] == [0, 0] && zeros[1..][1..][1..] == [0];
    }
  }

  /** The module object and memory after a load. */
  datatype ModuleImage = ModuleImage(slots: Slots, mem: seq<byte>)

  /** Resets the object at `objAddr` and parses the dynamic section into it,
      then applies the relocations the object describes. */
  function InitializedAndRelocated(m: seq<byte>, base: u64, dynamic: u64, objAddr: u64): Result<ModuleImage> {
    match ParseFrom(Initial(objAddr, base, dynamic), m, dynamic)
    case Fatal(f) => Fatal(f)
    case Ok(s) =>
      match Relocated(s, m)
      case Fatal(f) => Fatal(f)
      case Ok(m') => Ok(ModuleImage(s, m'))
  }

  /** The object and memory succeed exactly when the parse and then the
      relocation of the parsed object succeed; the object holds what the
      parse left, with self links, the base and the dynamic pointer, and
      memory is what the relocation left. */
  lemma InitializedThenRelocated(m: seq<byte>, base: u64, dynamic: u64, objAddr: u64)
    ensures var r := InitializedAndRelocated(m, base, dynamic, objAddr);
      var parsed := ParseFrom(Initial(objAddr, base, dynamic), m, dynamic);
      && (r.Ok? <==> parsed.Ok? && Relocated(parsed.value, m).Ok?)
      && (parsed.Fatal? ==> r == Fatal(parsed.fault))
      && (r.Ok? ==>
            && r.value.slots == parsed.value
            && r.value.mem == Relocated(parsed.value, m).value
            && Field(r.value.slots, PREV) == objAddr && Field(r.value.slots, NEXT) == objAddr
            && Field(r.value.slots, BASE) == base && Field(r.value.slots, DYNAMIC) == dynamic)
  {
    if ParseFrom(Initial(objAddr, base, dynamic), m, dynamic).Ok? {
      InitializedHeader(objAddr, base, dynamic, m);
    }
  }

  /** A whole load: where the module object is, what it holds and the memory
      afterwards. */
  datatype LoadedModule = LoadedModule(objAddr: u64, slots: Slots, mem: seq<byte>)

  /** Loads the module based at `base` whose descriptor is at `mod0`. */
  function LoadedFrom(m: seq<byte>, base: u64, mod0: u64): Result<LoadedModule> {
    match Prepared(m, mod0)
    case Fatal(f) => Fatal(f)
    case Ok(p) =>
      match InitializedAndRelocated(p.mem, base, p.dynamic, p.objAddr)
      case Fatal(f) => Fatal(f)
      case Ok(image) => Ok(LoadedModule(p.objAddr, image.slots, image.mem))
  }

  /** A load halts where the preparation halts (a bad magic among them) and
      otherwise where initialization or relocation halts; a loaded module's
      object is where the descriptor says, is linked to itself, and holds the
      base and the descriptor's dynamic pointer. */
  lemma LoadedFromDescriptor(m: seq<byte>, base: u64, mod0: u64)
    ensures Prepared(m, mod0).Fatal? ==> LoadedFrom(m, base, mod0) == Fatal(Prepared(m, mod0).fault)
    ensures Load32(m, mod0).Some? && Load32(m, mod0).value != MOD0_MAGIC ==>
      LoadedFrom(m, base, mod0) == Fatal(BadMagic(mod0))
    ensures LoadedFrom(m, base, mod0).Ok? <==>
      && Prepared(m, mod0).Ok?
      && var p := Prepared(m, mod0).value;
         InitializedAndRelocated(p.mem, base, p.dynamic, p.objAddr).Ok?
    ensures Prepared(m, mod0).Ok? ==>
      var p := Prepared(m, mod0).value;
      InitializedAndRelocated(p.mem, base, p.dynamic, p.objAddr).Fatal? ==>
        LoadedFrom(m, base, mod0) == Fatal(InitializedAndRelocated(p.mem, base, p.dynamic, p.objAddr).fault)
    ensures LoadedFrom(m, base, mod0).Ok? ==>
      var p, r := Prepared(m, mod0).value, LoadedFrom(m, base, mod0).value;
      && r.objAddr == p.objAddr
      && ModuleImage(r.slots, r.mem) == InitializedAndRelocated(p.mem, base, p.dynamic, p.objAddr).value
      && Field(r.slots, BASE) == base && Field(r.slots, DYNAMIC) == p.dynamic
      && Field(r.slots, PREV) == p.objAddr && Field(r.slots, NEXT) == p.objAddr
  {
    if Prepared(m, mod0).Ok? {
      var p := Prepared(m, mod0).value;
      InitializedThenRelocated(p.mem, base, p.dynamic, p.objAddr);
    }
  }

  /** A module whose relocation tables hold no relative entry: a whole load
      leaves memory as the preparation left it, so no byte outside the bss
      changes. */
  lemma NoRelativeOnlyClears(m: seq<byte>, base: u64, mod0: u64)
    requires Prepared(m, mod0).Ok? && LoadedFrom(m, base, mod0).Ok?
    requires var p, s := Prepared(m, mod0).value, LoadedFrom(m, base, mod0).value.slots;
      && NoRelativeEntries(p.mem, Field(s, REL_OR_RELA), REL_ENTRY_SIZE, 0, Field(s, REL_COUNT))
      && NoRelativeEntries(p.mem, Field(s, REL_OR_RELA), RELA_ENTRY_SIZE, 0, Field(s, RELA_COUNT))
    ensures LoadedFrom(m, base, mod0).value.mem == Prepared(m, mod0).value.mem
    ensures var d, after := ReadMod0(m, mod0).value, LoadedFrom(m, base, mod0).value.mem;
      && |after| == |m|
      && forall x :: 0 <= x < |m| && !(d.bssStart <= x < d.bssEnd) ==> after[x] == m[x]
  {
    hide LoadedFrom, Prepared, InitializedAndRelocated, ReadMod0;
    LoadedFromDescriptor(m, base, mod0);
    PreparedClearsBss(m, mod0);
    var p := Prepared(m, mod0).value;
    InitializedThenRelocated(p.mem, base, p.dynamic, p.objAddr);
    NoRelativeNoWrite(LoadedFrom(m, base, mod0).value.slots, p.mem);
  }

  /** Loads the module based at `base`: its descriptor is found through the
      4-byte offset at base + 4. */
  function LoadedAt(m: seq<byte>, base: u64): Result<LoadedModule> {
    match Load32(m, Wrap64(base + 4))
    case None => Fatal(Unmapped)
    case Some(offset) => LoadedFrom(m, base, Wrap64(base + offset))
  }

  /** A module whose offset word at base + 4 cannot be read halts the load;
      otherwise the load is the one from the descriptor that word points at,
      and a loaded module holds its base. */
  lemma LoadedAtOffset(m: seq<byte>, base: u64)
    ensures Load32(m, Wrap64(base + 4)).None? ==> LoadedAt(m, base) == Fatal(Unmapped)
    ensures Load32(m, Wrap64(base + 4)).Some? ==>
      LoadedAt(m, base) == LoadedFrom(m, base, Wrap64(base + Load32(m, Wrap64(base + 4)).value))
    ensures LoadedAt(m, base).Ok? ==> Field(LoadedAt(m, base).value.slots, BASE) == base
  {
    hide LoadedFrom, Prepared, InitializedAndRelocated, ReadMod0;
    if Load32(m, Wrap64(base + 4)).Some? {
      LoadedFromDescriptor(m, base, Wrap64(base + Load32(m, Wrap64(base + 4)).value));
    }
  }
}

/** The loader's bootstrap: load its own module from its own descriptor, then
    walk the address space with the memory query from 0x8000000 upward,
    loading every other module whose code segment it meets. */
module Rtld {
  import opened Words
  import opened Faults
  import opened Memory
  import opened Layout
  import opened Lifecycle
  import opened RoModule
  import opened Registry
  import opened Loading

  /** The first address the scan asks the kernel about. */
  const ADDRESS_SPACE_BEGIN: u64 := 0x8000000

  /** The kernel's answer to a memory query: a result code, the segment that
      holds the address, and whether that segment is a module's code. */
  datatype Reply = Reply(result: u32, base: u64, size: u64, moduleText: bool)

  /** What the kernel guarantees of a successful query: the returned segment
      holds the queried address and does not run past the top of the 64-bit
      address space. */
  ghost predicate KernelContract(query: u64 -> Reply) {
    forall a: u64 :: query(a).result == 0 ==>
      query(a).base <= a < query(a).base + query(a).size <= TWO_64
  }

  /** The address probed after a segment: its end, in 64-bit arithmetic. */
  function NextProbe(reply: Reply): u64 {
    Wrap64(reply.base + reply.size)
  }

  /** The scan goes on while the next probe is positive as a signed word. */
  predicate ScanContinues(reply: Reply) {
    Signed64(NextProbe(reply)) > 0
  }

  /** Under the kernel's contract the probe address strictly increases, so
      the scan ends. */
  lemma ProbeAdvances(query: u64 -> Reply, a: u64)
    requires KernelContract(query)
    requires query(a).result == 0 && ScanContinues(query(a))
    ensures NextProbe(query(a)) > a
  {
  }

  /** A segment the scan loads: a successfully queried module's code that is
      not the loader's own. */
  predicate Sibling(reply: Reply, ownBase: u64) {
    reply.result == 0 && reply.moduleText && reply.base != ownBase
  }

  /** One round of the scan: the probed address, the kernel's answer, the
      events of loading the module found there (none for other segments), and
      memory before and after the round. */
  datatype Step = Step(addr: u64, reply: Reply, events: seq<Event>, before: seq<byte>, after: seq<byte>)

  /** A step the scan recorded faithfully: the reply is the kernel's answer
      for the address; a sibling's load starts with the read of the word at
      base + 4, goes through the stages in order, reaches all of them exactly
      when the module at that base loads from the memory the round started
      with, and then leaves memory as that load does; any other segment,
      including the loader's own, is not read and memory is unchanged. */
  ghost predicate Probed(st: Step, query: u64 -> Reply, ownBase: u64) {
    && st.reply == query(st.addr)
    && (!Sibling(st.reply, ownBase) ==> st.events == [] && st.after == st.before)
    && (Sibling(st.reply, ownBase) ==>
          && |st.events| > 0 && st.events[0] == ReadWord(Wrap64(st.reply.base + 4)) && InOrder(st.events)
          && ObjectReadAfterClear(st.before, st.reply.base, st.events)
          && (Stages(st.events) == ORDER <==> LoadedAt(st.before, st.reply.base).Ok?)
          && (Stages(st.events) == ORDER ==> st.after == LoadedAt(st.before, st.reply.base).value.mem))
  }

  /** A step after which the scan went on to the next probe. */
  predicate Completed(st: Step, ownBase: u64) {
    && st.reply.result == 0
    && (Sibling(st.reply, ownBase) ==> Stages(st.events) == ORDER)
  }

  /** The base of the module a step loaded, if it loaded one. */
  function Found(st: Step, ownBase: u64): seq<u64> {
    if Sibling(st.reply, ownBase) && Stages(st.events) == ORDER then [st.reply.base] else []
  }

  /** The slots of the module a step loaded, if it loaded one. */
  ghost function FoundImage(st: Step, ownBase: u64): seq<Slots> {
    if Sibling(st.reply, ownBase) && LoadedAt(st.before, st.reply.base).Ok?
    then [LoadedAt(st.before, st.reply.base).value.slots] else []
  }

  /** The slots of the modules the scan loaded, in the order it loaded them. */
  ghost function LoadedImages(steps: seq<Step>, ownBase: u64): seq<Slots> {
    if steps == [] then []
    else LoadedImages(steps[..|steps| - 1], ownBase) + FoundImage(steps[|steps| - 1], ownBase)
  }

  /** Every read of word 6 of the descriptor that the offset word at base + 4
      of `m` points at comes after a bss clear, among the events that follow
      the read of that offset word. */
  predicate ObjectReadAfterClear(m: seq<byte>, base: u64, ev: seq<Event>) {
    && |ev| > 0
    && (Load32(m, Wrap64(base + 4)).Some? ==>
          ClearedBefore(ev[1..], ReadWord(Mod0Field(Wrap64(base + Load32(m, Wrap64(base + 4)).value), MOD0_MODULE_OBJECT))))
  }

  /** The bases of the modules the scan loaded, in the order it loaded them.
      The loader's own base is never among them. */
  function LoadedBases(steps: seq<Step>, ownBase: u64): (r: seq<u64>)
    ensures |r| <= |steps|
    ensures forall k :: 0 <= k < |r| ==> r[k] != ownBase
  {
    if steps == [] then []
    else LoadedBases(steps[..|steps| - 1], ownBase) + Found(steps[|steps| - 1], ownBase)
  }

  /** Checks the magic of the descriptor at `mod0` and reads its dynamic and
      bss fields. Reads only. */
  method ReadDescriptor(mem: array<byte>, mod0: u64)
    returns (o: Outcome, ev: seq<Event>, dynamic: u64, bssStart: u64, bssEnd: u64)
    ensures o == Success <==> ReadMod0(mem[..], mod0).Ok?
    ensures o == Success ==> ReadMod0(mem[..], mod0).value == Descriptor(dynamic, bssStart, bssEnd)
    ensures o.Halt? ==> ReadMod0(mem[..], mod0) == Fatal(o.fault)
    ensures |ev| > 0 && ev[0] == ReadWord(mod0)
    ensures ReadWord(Mod0Field(mod0, MOD0_MODULE_OBJECT)) !in ev
    ensures Load32(mem[..], mod0).None? ==> o == Halt(Unmapped) && Stages(ev) == []
    ensures Load32(mem[..], mod0).Some? && Load32(mem[..], mod0).value != MOD0_MAGIC ==>
      o == Halt(BadMagic(mod0)) && Stages(ev) == []
    ensures Load32(mem[..], mod0) == Some(MOD0_MAGIC) ==> Stages(ev) == [DescriptorLocated]
    ensures o == Success ==>
      && dynamic == Relative(mod0, Load32(mem[..], Mod0Field(mod0, MOD0_DYNAMIC)).value)
      && bssStart == Relative(mod0, Load32(mem[..], Mod0Field(mod0, MOD0_BSS_START)).value)
      && bssEnd == Relative(mod0, Load32(mem[..], Mod0Field(mod0, MOD0_BSS_END)).value)
  {
    ev := [ReadWord(mod0)];
    dynamic, bssStart, bssEnd := 0, 0, 0;
    var magic := Load32(mem[..], mod0);
    if magic.None? {
      return Halt(Unmapped), ev, dynamic, bssStart, bssEnd;
    }
    if magic.value != MOD0_MAGIC {
      return Halt(BadMagic(mod0)), ev, dynamic, bssStart, bssEnd;
    }
    ObjectFieldDistinct(mod0);
    StagesSnoc(ev, Enter(DescriptorLocated));
    ev := ev + [Enter(DescriptorLocated)];
    var dynamicField := Load32(mem[..], Mod0Field(mod0, MOD0_DYNAMIC));
    StagesSnoc(ev, ReadWord(Mod0Field(mod0, MOD0_DYNAMIC)));
    ev := ev + [ReadWord(Mod0Field(mod0, MOD0_DYNAMIC))];
    var startField := Load32(mem[..], Mod0Field(mod0, MOD0_BSS_START));
    StagesSnoc(ev, ReadWord(Mod0Field(mod0, MOD0_BSS_START)));
    ev := ev + [ReadWord(Mod0Field(mod0, MOD0_BSS_START))];
    var endField := Load32(mem[..], Mod0Field(mod0, MOD0_BSS_END));
    StagesSnoc(ev, ReadWord(Mod0Field(mod0, MOD0_BSS_END)));
    ev := ev + [ReadWord(Mod0Field(mod0, MOD0_BSS_END))];
    if dynamicField.None? || startField.None? || endField.None? {
      return Halt(Unmapped), ev, dynamic, bssStart, bssEnd;
    }
    dynamic := Relative(mod0, dynamicField.value);
    bssStart := Relative(mod0, startField.value);
    bssEnd := Relative(mod0, endField.value);
    o := Success;
  }

  /** Zero-fills [bssStart, bssEnd), then reads the module-object field of the
      descriptor, from memory as the clear left it. */
  method ClearBssThenLocateObject(mem: array<byte>, mod0: u64, bssStart: u64, bssEnd: u64)
    returns (o: Outcome, ev: seq<Event>, objAddr: u64)
    modifies mem
    ensures o == Success <==>
      bssStart <= bssEnd <= mem.Length && Load32(mem[..], Mod0Field(mod0, MOD0_MODULE_OBJECT)).Some?
    ensures o.Halt? ==> o == Halt(Unmapped)
    ensures Stages(ev) <= [BssCleared]
    ensures ClearedBefore(ev, ReadWord(Mod0Field(mod0, MOD0_MODULE_OBJECT)))
    ensures !(bssStart <= bssEnd <= mem.Length) ==> mem[..] == old(mem[..])
    ensures bssStart <= bssEnd <= mem.Length ==>
      && mem[..] == Zeroed(old(mem[..]), bssStart, bssEnd)
      && Stages(ev) == [BssCleared]
      && ClearBss(bssStart, bssEnd) in ev
      && ReadWord(Mod0Field(mod0, MOD0_MODULE_OBJECT)) in ev
    ensures o == Success ==>
      objAddr == Relative(mod0, Load32(mem[..], Mod0Field(mod0, MOD0_MODULE_OBJECT)).value)
  {
    ev, objAddr := [], 0;
    if !(bssStart <= bssEnd <= mem.Length) {
      return Halt(Unmapped), ev, objAddr;
    }
    ZeroFill(mem, bssStart, bssEnd);
    ev := [ClearBss(bssStart, bssEnd), Enter(BssCleared), ReadWord(Mod0Field(mod0, MOD0_MODULE_OBJECT))];
    assert Stages(ev[..1]) == [] && Stages(ev[..2]) == [BssCleared];
    assert ev[0].ClearBss?;
    var objectField := Load32(mem[..], Mod0Field(mod0, MOD0_MODULE_OBJECT));
    if objectField.None? {
      return Halt(Unmapped), ev, objAddr;
    }
    objAddr := Relative(mod0, objectField.value);
    o := Success;
  }

  /** Checks the descriptor, clears the bss and finds the module object: the
      in-place run of Prepared. */
  method Prepare(mem: array<byte>, mod0: u64) returns (o: Outcome, ev: seq<Event>, dynamic: u64, objAddr: u64)
    modifies mem
    ensures o == Success <==> Prepared(old(mem[..]), mod0).Ok?
    ensures o == Success ==> Prepared(old(mem[..]), mod0).value == Preparation(dynamic, objAddr, mem[..])
    ensures o.Halt? ==> Prepared(old(mem[..]), mod0) == Fatal(o.fault)
    ensures ReadMod0(old(mem[..]), mod0).Fatal? ==> mem[..] == old(mem[..])
    ensures |ev| > 0 && ev[0] == ReadWord(mod0)
    ensures Stages(ev) <= [DescriptorLocated, BssCleared]
    ensures o == Success ==> Stages(ev) == [DescriptorLocated, BssCleared]
    ensures ClearedBefore(ev, ReadWord(Mod0Field(mod0, MOD0_MODULE_OBJECT)))
  {
    ghost var m := mem[..];
    var bssStart, bssEnd;
    o, ev, dynamic, bssStart, bssEnd := ReadDescriptor(mem, mod0);
    objAddr := 0;
    if o.Halt? {
      return;
    }
    var cleared;
    o, cleared, objAddr := ClearBssThenLocateObject(mem, mod0, bssStart, bssEnd);
    StagesAppend(ev, cleared);
    ClearedBeforeAppend(ev, cleared, ReadWord(Mod0Field(mod0, MOD0_MODULE_OBJECT)));
    ev := ev + cleared;
  }

  /** Creates the module object at `objAddr`, initializes it from the dynamic
      section and relocates the module: the in-place run of
      InitializedAndRelocated. */
  method InitializeAndRelocate(mem: array<byte>, base: u64, dynamic: u64, objAddr: u64)
    returns (o: Outcome, ev: seq<Event>, obj: ModuleObject)
    modifies mem
    ensures fresh(obj) && obj.address == objAddr
    ensures o == Success <==> InitializedAndRelocated(old(mem[..]), base, dynamic, objAddr).Ok?
    ensures o == Success ==>
      InitializedAndRelocated(old(mem[..]), base, dynamic, objAddr).value == ModuleImage(obj.slots, mem[..])
    ensures o.Halt? ==> InitializedAndRelocated(old(mem[..]), base, dynamic, objAddr) == Fatal(o.fault)
    ensures o == Success ==>
      && Field(obj.slots, PREV) == objAddr && Field(obj.slots, NEXT) == objAddr
      && Field(obj.slots, BASE) == base && Field(obj.slots, DYNAMIC) == dynamic
    ensures forall e :: e in ev ==> e.Enter?
    ensures Stages(ev) <= [DynamicParsed, Relocated]
    ensures o == Success <==> Stages(ev) == [DynamicParsed, Relocated]
  {
    ev := [];
    obj := new ModuleObject(objAddr);
    o := obj.Initialize(base, dynamic, mem);
    if o.Halt? {
      return;
    }
    ev := [Enter(DynamicParsed)];
    o := obj.Relocate(mem);
    if o.Halt? {
      return;
    }
    ev := [Enter(DynamicParsed), Enter(Relocated)];
    assert Stages(ev[..1]) == [DynamicParsed];
  }

  /** Initializes and relocates the module object, then links it into the
      registry. On success the registry holds one more object, at `objAddr`,
      with the slots InitializedAndRelocated gives apart from its links. */
  method Install(mem: array<byte>, reg: ModuleList, base: u64, dynamic: u64, objAddr: u64)
    returns (o: Outcome, ev: seq<Event>)
    requires reg.Valid()
    modifies mem, reg, if reg.members == [] then {} else {reg.members[|reg.members| - 1]}
    ensures reg.Valid()
    ensures forall m :: m in old(reg.members) ==> Holds(m, old(m.slots))
    ensures o == Success <==> InitializedAndRelocated(old(mem[..]), base, dynamic, objAddr).Ok?
    ensures o.Halt? ==> InitializedAndRelocated(old(mem[..]), base, dynamic, objAddr) == Fatal(o.fault)
    ensures o.Halt? ==> reg.members == old(reg.members) && reg.bases == old(reg.bases) && reg.images == old(reg.images)
    ensures o == Success ==>
      var image := InitializedAndRelocated(old(mem[..]), base, dynamic, objAddr).value;
      && mem[..] == image.mem
      && Appended(reg, old(reg.members), old(reg.bases), old(reg.images), objAddr, image.slots, base)
      && fresh(reg.members[|old(reg.members)|])
    ensures forall e :: e in ev ==> e.Enter?
    ensures Stages(ev) <= [DynamicParsed, Relocated, Registered]
    ensures o == Success <==> Stages(ev) == [DynamicParsed, Relocated, Registered]
  {
    hide InitializedAndRelocated, ModuleList.Valid, ModuleList.LinkedAt;
    var obj;
    o, ev, obj := InitializeAndRelocate(mem, base, dynamic, objAddr);
    if o.Halt? {
      assert Stages(ev) != [DynamicParsed, Relocated, Registered];
      return;
    }
    reg.Link(obj);
    StagesSnoc(ev, Enter(Registered));
    ev := ev + [Enter(Registered)];
  }

  /** Loads the module whose descriptor is at `mod0`: checks the descriptor,
      clears the bss, initializes the module object, relocates, and links the
      object into the registry: the in-place run of LoadedFrom. The stages are
      reached in order; all five are reached exactly when the load succeeds. */
  method LoadFromDescriptor(mem: array<byte>, reg: ModuleList, base: u64, mod0: u64)
    returns (o: Outcome, ev: seq<Event>)
    requires reg.Valid()
    modifies mem, reg, if reg.members == [] then {} else {reg.members[|reg.members| - 1]}
    ensures reg.Valid()
    ensures forall m :: m in old(reg.members) ==> Holds(m, old(m.slots))
    ensures o == Success <==> LoadedFrom(old(mem[..]), base, mod0).Ok?
    ensures o.Halt? ==> LoadedFrom(old(mem[..]), base, mod0) == Fatal(o.fault)
    ensures o.Halt? ==> reg.members == old(reg.members) && reg.bases == old(reg.bases) && reg.images == old(reg.images)
    ensures ReadMod0(old(mem[..]), mod0).Fatal? ==> mem[..] == old(mem[..])
    ensures o == Success ==>
      var loaded := LoadedFrom(old(mem[..]), base, mod0).value;
      && mem[..] == loaded.mem
      && Appended(reg, old(reg.members), old(reg.bases), old(reg.images), loaded.objAddr, loaded.slots, base)
      && fresh(reg.members[|old(reg.members)|])
    ensures |ev| > 0 && ev[0] == ReadWord(mod0)
    ensures InOrder(ev)
    ensures o == Success <==> Stages(ev) == ORDER
    ensures ClearedBefore(ev, ReadWord(Mod0Field(mod0, MOD0_MODULE_OBJECT)))
  {
    hide LoadedAt, LoadedFrom, Prepared, InitializedAndRelocated, ReadMod0, ModuleList.Valid, ModuleList.LinkedAt;
    LoadedFromDescriptor(mem[..], base, mod0);
    PreparedClearsBss(mem[..], mod0);
    var dynamic, objAddr;
    o, ev, dynamic, objAddr := Prepare(mem, mod0);
    if o.Halt? {
      assert Stages(ev) != ORDER;
      return;
    }
    var installed;
    o, installed := Install(mem, reg, base, dynamic, objAddr);
    PreparedThenInstalled(ev, installed);
    ClearedBeforeExtend(ev, installed, ReadWord(Mod0Field(mod0, MOD0_MODULE_OBJECT)));
    ev := ev + installed;
  }

  /** Finds the descriptor of the module based at `base` through the offset
      word at base + 4, and loads the module from it: the in-place run of
      LoadedAt. */
  method LoadModule(mem: array<byte>, reg: ModuleList, base: u64) returns (o: Outcome, ev: seq<Event>)
    requires reg.Valid()
    modifies mem, reg, if reg.members == [] then {} else {reg.members[|reg.members| - 1]}
    ensures reg.Valid()
    ensures forall m :: m in old(reg.members) ==> Holds(m, old(m.slots))
    ensures o == Success <==> LoadedAt(old(mem[..]), base).Ok?
    ensures o.Halt? ==> LoadedAt(old(mem[..]), base) == Fatal(o.fault)
    ensures o.Halt? ==> reg.members == old(reg.members) && reg.bases == old(reg.bases) && reg.images == old(reg.images)
    ensures o == Success ==>
      var loaded := LoadedAt(old(mem[..]), base).value;
      && mem[..] == loaded.mem
      && Appended(reg, old(reg.members), old(reg.bases), old(reg.images), loaded.objAddr, loaded.slots, base)
      && fresh(reg.members[|old(reg.members)|])
    ensures |ev| > 0 && ev[0] == ReadWord(Wrap64(base + 4))
    ensures ObjectReadAfterClear(old(mem[..]), base, ev)
    ensures InOrder(ev)
    ensures o == Success <==> Stages(ev) == ORDER
  {
    hide LoadedAt, LoadedFrom, Prepared, InitializedAndRelocated, ReadMod0, ModuleList.Valid, ModuleList.LinkedAt;
    LoadedAtOffset(mem[..], base);
    ev := [ReadWord(Wrap64(base + 4))];
    assert Stages(ev) == [];
    var offset := Load32(mem[..], Wrap64(base + 4));
    if offset.None? {
      return Halt(Unmapped), ev;
    }
    var found;
    o, found := LoadFromDescriptor(mem, reg, base, Wrap64(base + offset.value));
    StagesAppend(ev, found);
    ev := ev + found;
    assert ev[1..] == found;
  }

  /** One round of the scan: queries the segment holding `addr` and, when it
      is a sibling module's code, loads that module. */
  method Probe(mem: array<byte>, reg: ModuleList, query: u64 -> Reply, ownBase: u64, addr: u64)
    returns (o: Outcome, st: Step)
    requires reg.Valid()
    modifies mem, reg, if reg.members == [] then {} else {reg.members[|reg.members| - 1]}
    ensures reg.Valid()
    ensures forall m :: m in old(reg.members) ==> Holds(m, old(m.slots))
    ensures st.addr == addr && Probed(st, query, ownBase)
    ensures st.before == old(mem[..]) && st.after == mem[..]
    ensures o == Success <==> Completed(st, ownBase)
    ensures st.reply.result != 0 ==> o == Halt(QueryFailed(st.reply.result))
    ensures o.Halt? && Sibling(st.reply, ownBase) ==> LoadedAt(st.before, st.reply.base) == Fatal(o.fault)
    ensures o.Halt? ==> reg.members == old(reg.members) && reg.bases == old(reg.bases) && reg.images == old(reg.images)
    ensures o == Success && !Sibling(st.reply, ownBase) ==> reg.members == old(reg.members)
    ensures o == Success && Sibling(st.reply, ownBase) ==>
      var loaded := LoadedAt(st.before, st.reply.base).value;
      && Appended(reg, old(reg.members), old(reg.bases), old(reg.images), loaded.objAddr, loaded.slots, st.reply.base)
      && fresh(reg.members[|old(reg.members)|])
    ensures o == Success ==> reg.bases == old(reg.bases) + Found(st, ownBase)
    ensures o == Success ==> reg.images == old(reg.images) + FoundImage(st, ownBase)
    ensures reg.members == old(reg.members)
      || (&& |reg.members| == |old(reg.members)| + 1 && reg.members[..|old(reg.members)|] == old(reg.members)
          && fresh(reg.members[|old(reg.members)|]))
  {
    hide LoadedAt, LoadedFrom, Prepared, InitializedAndRelocated, ReadMod0, ModuleList.Valid, ModuleList.LinkedAt;
    var reply := query(addr);
    st := Step(addr, reply, [], mem[..], mem[..]);
    if reply.result != 0 {
      return Halt(QueryFailed(reply.result)), st;
    }
    o := Success;
    if Sibling(reply, ownBase) {
      var events;
      o, events := LoadModule(mem, reg, reply.base);
      st := Step(addr, reply, events, st.before, mem[..]);
    }
  }

  /** The address the scan probes after `steps`. */
  function NextAddress(steps: seq<Step>): u64 {
    if steps == [] then ADDRESS_SPACE_BEGIN else NextProbe(steps[|steps| - 1].reply)
  }

  /** A run of the scan that went on after each of its steps. */
  ghost predicate Unfinished(steps: seq<Step>, query: u64 -> Reply, ownBase: u64)
    decreases |steps|, 1
  {
    steps == [] ||
      (Scan(steps, query, ownBase)
       && Completed(steps[|steps| - 1], ownBase) && ScanContinues(steps[|steps| - 1].reply))
  }

  /** A run of the scan: an unfinished run followed by one faithfully
      recorded step at the address that run leads to, starting from the
      memory that run left. */
  ghost predicate Scan(steps: seq<Step>, query: u64 -> Reply, ownBase: u64)
    decreases |steps|, 0
  {
    && steps != []
    && Unfinished(steps[..|steps| - 1], query, ownBase)
    && steps[|steps| - 1].addr == NextAddress(steps[..|steps| - 1])
    && (|steps| > 1 ==> steps[|steps| - 1].before == steps[|steps| - 2].after)
    && Probed(steps[|steps| - 1], query, ownBase)
  }

  /** What a run of the scan is, step by step: it starts at
      ADDRESS_SPACE_BEGIN, each probe is at the end of the segment before and
      starts from the memory the step before left, every step is recorded
      faithfully, and every step but the last let the scan go on. */
  lemma {:induction false} ScanShape(steps: seq<Step>, query: u64 -> Reply, ownBase: u64)
    requires Scan(steps, query, ownBase)
    ensures steps[0].addr == ADDRESS_SPACE_BEGIN
    ensures forall i :: 0 <= i < |steps| ==> Probed(steps[i], query, ownBase)
    ensures forall i :: 0 <= i < |steps| - 1 ==>
      && Completed(steps[i], ownBase) && ScanContinues(steps[i].reply)
      && steps[i + 1].addr == NextProbe(steps[i].reply)
      && steps[i + 1].before == steps[i].after
    decreases |steps|
  {
    hide Probed, Completed, ScanContinues, NextProbe;
    var prefix := steps[..|steps| - 1];
    if prefix != [] {
      ScanShape(prefix, query, ownBase);
      assert forall i :: 0 <= i < |prefix| ==> steps[i] == prefix[i];
    }
  }

  /** A faithful step at the address a run leads to, from the memory that run
      left, extends it, and adds the base of the module it loaded, if any. */
  lemma ScanExtends(steps: seq<Step>, st: Step, query: u64 -> Reply, ownBase: u64)
    requires Unfinished(steps, query, ownBase)
    requires st.addr == NextAddress(steps) && Probed(st, query, ownBase)
    requires steps != [] ==> st.before == steps[|steps| - 1].after
    ensures Scan(steps + [st], query, ownBase)
    ensures Completed(st, ownBase) && ScanContinues(st.reply) ==> Unfinished(steps + [st], query, ownBase)
    ensures LoadedBases(steps + [st], ownBase) == LoadedBases(steps, ownBase) + Found(st, ownBase)
    ensures LoadedImages(steps + [st], ownBase) == LoadedImages(steps, ownBase) + FoundImage(st, ownBase)
  {
    assert (steps + [st])[..|steps|] == steps;
  }

  /** The empty run: nothing probed yet, so nothing loaded. */
  lemma ScanStart(query: u64 -> Reply, ownBase: u64)
    ensures Unfinished([], query, ownBase)
    ensures LoadedBases([], ownBase) == [] && LoadedImages([], ownBase) == []
  {
  }

  /** Probes the address a run of the scan leads to and appends the step. */
  method ScanStep(mem: array<byte>, reg: ModuleList, query: u64 -> Reply, ownBase: u64, steps: seq<Step>)
    returns (o: Outcome, steps': seq<Step>)
    requires KernelContract(query)
    requires reg.Valid() && reg.members != []
    requires Unfinished(steps, query, ownBase)
    requires steps != [] ==> mem[..] == steps[|steps| - 1].after
    modifies mem, reg, reg.members[|reg.members| - 1]
    ensures reg.Valid() && reg.members != []
    ensures reg.members[|reg.members| - 1] == old(reg.members[|reg.members| - 1])
      || fresh(reg.members[|reg.members| - 1])
    ensures Scan(steps', query, ownBase) && |steps'| == |steps| + 1 && steps'[..|steps|] == steps
    ensures steps'[|steps|].before == old(mem[..]) && steps'[|steps|].after == mem[..]
    ensures LoadedBases(steps', ownBase) == LoadedBases(steps, ownBase) + Found(steps'[|steps|], ownBase)
    ensures LoadedImages(steps', ownBase) == LoadedImages(steps, ownBase) + FoundImage(steps'[|steps|], ownBase)
    ensures o == Success ==> reg.bases == old(reg.bases) + Found(steps'[|steps|], ownBase)
    ensures o == Success ==> reg.images == old(reg.images) + FoundImage(steps'[|steps|], ownBase)
    ensures |old(reg.members)| <= |reg.members| && reg.members[..|old(reg.members)|] == old(reg.members)
    ensures forall m :: m in old(reg.members) ==> Holds(m, old(m.slots))
    ensures o == Success <==> Completed(steps'[|steps'| - 1], ownBase)
    ensures steps'[|steps'| - 1].reply.result != 0 ==> o == Halt(QueryFailed(steps'[|steps'| - 1].reply.result))
    ensures o.Halt? && Sibling(steps'[|steps|].reply, ownBase) ==>
      LoadedAt(steps'[|steps|].before, steps'[|steps|].reply.base) == Fatal(o.fault)
    ensures o == Success && ScanContinues(steps'[|steps'| - 1].reply) ==>
      Unfinished(steps', query, ownBase) && NextAddress(steps') > NextAddress(steps)
  {
    hide LoadedAt, LoadedFrom, Prepared, InitializedAndRelocated, ReadMod0, ModuleList.Valid, ModuleList.LinkedAt, Appended,
      Holds, FoundImage, LoadedImages, LoadedBases, Found, Scan, Unfinished, Stages, InOrder, ObjectReadAfterClear;
    var st;
    o, st := Probe(mem, reg, query, ownBase, NextAddress(steps));
    ScanExtends(steps, st, query, ownBase);
    if o == Success && ScanContinues(st.reply) {
      ProbeAdvances(query, st.addr);
    }
    steps' := steps + [st];
    assert steps'[..|steps|] == steps;
  }

  /** The scan proper: probes from ADDRESS_SPACE_BEGIN until a segment ends
      past the top of the signed range, loading every sibling module into
      `reg` right after the query that finds it. A failed query or a failed
      load halts. On success the registry holds, after the objects it held,
      one object per loaded module, with that module's base, in scan order. */
  method ScanFrom(mem: array<byte>, reg: ModuleList, query: u64 -> Reply, ownBase: u64)
    returns (o: Outcome, steps: seq<Step>)
    requires KernelContract(query)
    requires reg.Valid() && reg.members != []
    modifies mem, reg, reg.members[|reg.members| - 1]
    ensures reg.Valid()
    ensures Scan(steps, query, ownBase)
    ensures |steps| > 0 && steps[0].before == old(mem[..]) && steps[|steps| - 1].after == mem[..]
    ensures o == Success <==> Completed(steps[|steps| - 1], ownBase) && !ScanContinues(steps[|steps| - 1].reply)
    ensures steps[|steps| - 1].reply.result != 0 ==> o == Halt(QueryFailed(steps[|steps| - 1].reply.result))
    ensures o.Halt? ==> !Completed(steps[|steps| - 1], ownBase)
    ensures o.Halt? && Sibling(steps[|steps| - 1].reply, ownBase) ==>
      LoadedAt(steps[|steps| - 1].before, steps[|steps| - 1].reply.base) == Fatal(o.fault)
    ensures o == Success ==> reg.bases == old(reg.bases) + LoadedBases(steps, ownBase)
    ensures o == Success ==> reg.images == old(reg.images) + LoadedImages(steps, ownBase)
    ensures |old(reg.members)| <= |reg.members| && reg.members[..|old(reg.members)|] == old(reg.members)
    ensures |reg.images| == |reg.members| && forall i :: 0 <= i < |reg.members| ==> Holds(reg.members[i], reg.images[i])
  {
    hide LoadedAt, LoadedFrom, Prepared, InitializedAndRelocated, ReadMod0, ModuleList.Valid, ModuleList.LinkedAt, Appended,
      Holds, FoundImage, LoadedImages, LoadedBases, Found, Scan, Unfinished, Stages, InOrder, ObjectReadAfterClear, Probed;
    ScanStart(query, ownBase);
    steps := [];
    while true
      invariant reg.Valid() && reg.members != []
      invariant reg.bases == old(reg.bases) + LoadedBases(steps, ownBase)
      invariant reg.images == old(reg.images) + LoadedImages(steps, ownBase)
      invariant |old(reg.members)| <= |reg.members| && reg.members[..|old(reg.members)|] == old(reg.members)
      invariant reg.members[|reg.members| - 1] == old(reg.members[|reg.members| - 1])
        || fresh(reg.members[|reg.members| - 1])
      invariant Unfinished(steps, query, ownBase)
      invariant steps == [] ==> mem[..] == old(mem[..])
      invariant steps != [] ==> steps[0].before == old(mem[..]) && mem[..] == steps[|steps| - 1].after
      decreases TWO_64 - NextAddress(steps)
    {
      o, steps := ScanStep(mem, reg, query, ownBase, steps);
      if o.Halt? || !ScanContinues(steps[|steps| - 1].reply) {
        reg.ImagesHeld();
        return;
      }
    }
  }

  /** The loader's bootstrap. Loads its own module from its own descriptor
      `ownMod0` into a fresh registry whose sentinel is at `sentinel`, then
      scans the address space for its siblings, starting from the memory its
      own load left. Its own segment is never read through the scan. On
      success the registry holds its own module first and then every loaded
      sibling, in scan order. */
  method Boot(mem: array<byte>, query: u64 -> Reply, sentinel: u64, ownBase: u64, ownMod0: u64)
    returns (o: Outcome, reg: ModuleList, ownEvents: seq<Event>, steps: seq<Step>)
    requires KernelContract(query)
    modifies mem
    ensures fresh(reg) && reg.Valid()
    ensures |ownEvents| > 0 && ownEvents[0] == ReadWord(ownMod0) && InOrder(ownEvents)
    ensures Stages(ownEvents) == ORDER <==> LoadedFrom(old(mem[..]), ownBase, ownMod0).Ok?
    ensures Stages(ownEvents) == ORDER <==> |steps| > 0
    ensures Stages(ownEvents) != ORDER ==>
      o.Halt? && reg.members == [] && LoadedFrom(old(mem[..]), ownBase, ownMod0) == Fatal(o.fault)
    ensures |steps| > 0 ==>
      && Scan(steps, query, ownBase)
      && steps[0].before == LoadedFrom(old(mem[..]), ownBase, ownMod0).value.mem
      && steps[|steps| - 1].after == mem[..]
    ensures o == Success <==>
      |steps| > 0 && Completed(steps[|steps| - 1], ownBase) && !ScanContinues(steps[|steps| - 1].reply)
    ensures o.Halt? && |steps| > 0 && steps[|steps| - 1].reply.result != 0 ==>
      o == Halt(QueryFailed(steps[|steps| - 1].reply.result))
    ensures o.Halt? && |steps| > 0 ==> !Completed(steps[|steps| - 1], ownBase)
    ensures o.Halt? && |steps| > 0 && Sibling(steps[|steps| - 1].reply, ownBase) ==>
      LoadedAt(steps[|steps| - 1].before, steps[|steps| - 1].reply.base) == Fatal(o.fault)
    ensures ClearedBefore(ownEvents, ReadWord(Mod0Field(ownMod0, MOD0_MODULE_OBJECT)))
    ensures o == Success ==> reg.bases == [ownBase] + LoadedBases(steps, ownBase)
    ensures o == Success ==>
      reg.images == [LoadedFrom(old(mem[..]), ownBase, ownMod0).value.slots] + LoadedImages(steps, ownBase)
    ensures |reg.images| == |reg.members| && forall i :: 0 <= i < |reg.members| ==> Holds(reg.members[i], reg.images[i])
  {
    hide LoadedAt, LoadedFrom, Prepared, InitializedAndRelocated, ReadMod0, ModuleList.Valid, ModuleList.LinkedAt, Appended,
      Holds, FoundImage, LoadedImages, LoadedBases, Found, Scan, Unfinished, Stages, InOrder, ObjectReadAfterClear, Probed,
      Completed, ScanContinues, ClearedBefore, KernelContract;
    reg := new ModuleList(sentinel);
    steps := [];
    o, ownEvents := LoadFromDescriptor(mem, reg, ownBase, ownMod0);
    if o.Halt? {
      return;
    }
    ghost var loaded := LoadedFrom(old(mem[..]), ownBase, ownMod0).value;
    AppendedToEmpty(reg, loaded.objAddr, loaded.slots, ownBase);
    o, steps := ScanFrom(mem, reg, query, ownBase);
  }
}

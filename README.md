# freertld bootstrap, modelled in Dafny

freertld is a runtime dynamic loader ("rtld") that runs first in a process
on a capability-based microkernel. It has no filesystem and no heap, and it
does its work through a handful of kernel calls:

1. It loads its own module from its own MOD0 descriptor.
2. It walks the address space with the memory-query call, starting at
   `0x8000000`. Each next probe is at `base + size` of the segment just
   returned. The walk stops when that sum is `<= 0` as a signed 64-bit word.
3. For every other module whose code segment it meets, it loads that
   module:
   - it follows the 4-byte offset at `base + 4` to the module's MOD0
     descriptor and checks the `"MOD0"` magic;
   - it zero-fills the module's bss;
   - it reads the module-object offset (descriptor field 6);
   - it resets the module object and parses the dynamic section into it
     (`RoModule::Initialize`);
   - it applies the relative relocations (`RoModule::Relocate`);
   - it links the object into a circular registry of loaded modules.

Every detected fault halts the process for good.

The repository shows this loader through its RSpec suite, which runs the
prebuilt binary under an emulator. The model states what those specs check,
as contracts and lemmas:

- the exact slot layout of the module object;
- what each dynamic tag leaves in it;
- what a relocation writes and what it leaves alone;
- the probe sequence of the scan;
- the order of a module's stages.

## Layout of the project

| file | module | contents |
|---|---|---|
| `words.dfy` | `Words` | bytes, `u32`/`u64`, 64-bit wrap-around, signed readings, little-endian encoding |
| `faults.dfy` | `Faults` | `Option`, `Result`, `Outcome` and the reasons for a halt |
| `elf.dfy` | `Elf` | dynamic tags, entry sizes, AArch64 relocation kinds (System V ABI chapter 5; ELF for the Arm 64-bit Architecture) |
| `memory.dfy` | `Memory` | byte memory as `seq<byte>` / `array<byte>`, word loads and stores, in-place write, zero-fill |
| `layout.dfy` | `Layout` | the 22 eight-byte slots of a module object at offsets 0x00..0xa8 |
| `dynamic.dfy` | `Dynamic` | per-tag dispatch (`ApplyEntry`), the walk over the section (`ParseFrom`), and what a parse leaves in each slot |
| `relocation.dfy` | `Relocation` | one Rel/Rela entry, the two counted passes, and the write / no-write lemmas |
| `ro_module.dfy` | `RoModule` | class `ModuleObject` with the imperative `Initialize` and `Relocate` loops |
| `registry.dfy` | `Registry` | class `ModuleList`: the intrusive circular list of module objects |
| `lifecycle.dfy` | `Lifecycle` | the stages of a module and the event record of a load |
| `rtld.dfy` | `Rtld` | descriptor reading, bss clear, the per-module load, the scan loop and the bootstrap |

Memory is one byte array. An access outside it is a data abort, so the
model halts with `Unmapped`. The memory query is a function
`query: u64 -> Reply`. The model assumes only the kernel's contract for it
(`KernelContract`): a successful reply holds the queried address and ends
at or below 2^64. That is what makes the scan terminate.

A load is also recorded as a list of events:

- the 4-byte words the loader itself reads;
- the bss range it clears;
- the stages it reaches.

With this record the specs' "reads X", "does not read Y" and "X before Y"
expectations become contracts.

Two points are fixed by the specs together with the standard formats:

- **The MOD0 descriptor.** A module's MOD0 descriptor has the standard
  layout of this platform's executable modules: seven 4-byte words. Word 0
  is the magic `"MOD0"`. Words 1 to 6 are signed offsets from the
  descriptor: the dynamic section, bss start, bss end, `.eh_frame_hdr`
  start and end, and the module object.
  - The specs observe the magic check (`spec/rtld_spec.rb:87-100`).
  - They observe the read of word 6 at `_mod0 + 6 * 4` after the bss clear
    and before the module object is written (`spec/rtld_spec.rb:117-120`,
    `spec/ro_module_initialize_spec.rb:24-26`).
  - Word 1 (the dynamic section) and words 2 and 3 (the bss bounds) come
    from the standard layout, not from a spec. The specs only agree with
    it: the object's `dynamic` slot receives `_dynamic_start`
    (`spec/ro_module_initialize_spec.rb:37`), and the bytes cleared are
    `_bss_start` to `_bss_end` (`spec/rtld_spec.rb:111-123`).
  - Words 4 and 5 are never read.
- **Which relocation table.** The specs read `rel_count` (+0x90) before
  `rela_count` (+0x98) even for a module built with a Rela table
  (`spec/ro_module_relocate_spec.rb:63-64`). The table pointer at +0x18 is
  read for both kinds of module (lines 49 and 65). So the model runs two
  passes over the table in the +0x18 slot: a Rel pass bounded by
  `rel_count`, then a Rela pass bounded by `rela_count`.

## Model

| member | source | states |
|---|---|---|
| Words.Signed64 | spec/rtld_spec.rb:29-31 | The signed reading of a 64-bit word is `<= 0` exactly when the word is zero or has its top bit set, and wrapping it gives the word back: this is the scan's `addr <= 0` stop test. |
| Words.EncodeLE | spec/ro_module_initialize_spec.rb:51-52 | The n-byte little-endian (`Q<`) encoding of v has n bytes and decodes back to v. |
| Words.EncodeOfDecode | spec/ro_module_initialize_spec.rb:51-52 | The other half of the round trip: encoding the value of a little-endian byte string gives the same string back. |
| Memory.Load | spec/ro_module_relocate_spec.rb:50 | A word read succeeds exactly when the whole word lies in mapped memory, and its value fits the width. |
| Memory.StoreThenLoad | spec/ro_module_relocate_spec.rb:34 | Reading a stored word gives the stored value back, and every byte outside the word keeps its old value. |
| Memory.LoadAfterDisjointStore | spec/ro_module_relocate_spec.rb:26-36 | A read that does not overlap a write sees memory as it was before the write. |
| Memory.Write | spec/ro_module_relocate_spec.rb:34 | Writing a word into the array in place leaves exactly `Store` of the old contents. |
| Memory.ZeroFill | spec/rtld_spec.rb:114-123 | After the clear, every byte of `[start, end)` is zero whatever it held, and every other byte is unchanged. |
| Layout.WithField | spec/ro_module_initialize_spec.rb:56 | Writing one slot of the module object sets that slot and leaves the other 21 as they were. |
| Layout.Initial | spec/ro_module_initialize_spec.rb:28-39 | A reset object has `prev` and `next` pointing at itself, `base` and `dynamic` as given, and every other slot zero. |
| Dynamic.HeaderNeverWritten | spec/ro_module_initialize_spec.rb:34-39 | No dynamic tag writes `prev`, `next`, `base` or `dynamic`. |
| Dynamic.SingleWriter | spec/ro_module_initialize_spec.rb:43-57 | Each scalar slot is written only by its own tag; `is_rela_plt` only by DT_PLTREL; the four hash slots only by DT_HASH. |
| Dynamic.ApplyEntryAccepts | spec/ro_module_initialize_spec.rb:41-139 | An entry is dispatched without a halt exactly when it passes every check (PLTREL value, the three entry sizes, a readable hash header); a dispatched entry changes no slot outside the ones its tag may write. |
| Dynamic.AddressTagOffsets | spec/ro_module_initialize_spec.rb:61-77 | Applying one entry (`ApplyEntry` through its dispatch) with an address tag stores `base + value` in that tag's slot, with tag numbers and slot offsets written out: DT_JMPREL (23) at 0x10, DT_RELA (7) and DT_REL (17) at the shared slot 0x18, DT_INIT (12) at 0x40, DT_FINI (13) at 0x48, DT_STRTAB (5) at 0x60, DT_SYMTAB (6) at 0x68 and DT_PLTGOT (3) at 0x78. The base is read from slot 0x20. |
| Dynamic.ScalarTagOffsets | spec/ro_module_initialize_spec.rb:43-101 | Likewise for the value tags, stored verbatim: DT_PLTRELSZ (2) at 0x38, DT_RELASZ (8) at 0x80, DT_STRSZ (10) at 0x70, DT_RELSZ (18) at 0x88, DT_RELACOUNT at 0x98 and DT_RELCOUNT at 0x90. DT_PLTREL (20) stores 1 at 0x30 for DT_RELA and 0 for DT_REL. |
| Dynamic.DispatchChecks | spec/ro_module_initialize_spec.rb:80-114 | DT_PLTREL stores 1 for DT_RELA and 0 for DT_REL, and halts on any other value. DT_RELENT other than 16, or DT_SYMENT or DT_RELAENT other than 24, halts; the right size changes nothing. |
| Dynamic.DispatchUnknownTag | spec/ro_module_initialize_spec.rb:50-57 | A tag outside the recognised set leaves the object unchanged, so the parse goes on past the entries the specs do not name. |
| Dynamic.DispatchHash | spec/ro_module_initialize_spec.rb:117-137 | With tag and offsets written out: DT_HASH (4) puts the first header word at `base + value` (base read from +0x20) in nbucket (+0xa8) and the second in nchain (+0xa0). The bucket pointer (+0x50) is the table address + 8, and the chain pointer (+0x58) is `nbucket * 4` bytes after it. No other slot changes. |
| Dynamic.ApplyAll | spec/ro_module_initialize_spec.rb:41-139 | A list of entries applies without a halt exactly when every entry is accepted; a slot that no entry's tag writes keeps its value. |
| Dynamic.EntriesRecords | spec/ro_module_initialize_spec.rb:50-57 | The entries the walk lists from `p` are exactly the 16-byte (tag, value) records laid out from `p`, entry k at `p + 16k`. None of them has the null tag, and a null tag follows the last. Both directions are proved. |
| Dynamic.ParseSucceeds | spec/ro_module_initialize_spec.rb:41-139 | The walk over the dynamic section (`ParseFrom`) succeeds exactly when the section is terminated inside mapped memory and every entry in it passes the loader's checks. |
| Dynamic.ParseIsApplyAll | spec/ro_module_initialize_spec.rb:54-56 | Walking the section from the dynamic pointer up to DT_NULL gives the same result as applying its entries in order; a section not terminated inside memory halts. |
| Dynamic.ParsedAddressTag | spec/ro_module_initialize_spec.rb:61-77 | After a whole parse, an address tag's slot holds `base + value`, unless a later entry writes the same slot. |
| Dynamic.ParsedScalarTag | spec/ro_module_initialize_spec.rb:43-57 | After a whole parse, a scalar tag's slot holds its value verbatim. |
| Dynamic.ParsedPltRel | spec/ro_module_initialize_spec.rb:80-101 | After a whole parse, any DT_PLTREL value was DT_REL or DT_RELA, and +0x30 is 1 exactly for DT_RELA and 0 for DT_REL. |
| Dynamic.ParsedHash | spec/ro_module_initialize_spec.rb:117-137 | After a whole parse whose last DT_HASH entry is entry i, the four hash slots hold that table's layout, stated with literal offsets as for `DispatchHash`: nbucket at +0xa8, nchain at +0xa0, the first bucket at +0x50 and the first chain slot at +0x58. |
| Dynamic.ParsedUntouched | spec/ro_module_initialize_spec.rb:38 | After a whole parse, a slot no entry writes keeps the value it was reset to. |
| Relocation.RelStepHalts | spec/ro_module_relocate_spec.rb:38-53 | One Rel entry (`RelStep`) halts exactly when its 16 bytes are unmapped, or when it is relative and the word at `base + offset` is unmapped. The halt is always a data abort. |
| Relocation.RelaStepHalts | spec/ro_module_relocate_spec.rb:26-36 | One Rela entry (`RelaStep`) halts exactly when its offset and info words are unmapped, or when it is relative and its addend or the word at `base + offset` is unmapped. The halt is always a data abort. |
| Relocation.RelLoopSplit | spec/ro_module_relocate_spec.rb:48-52 | The Rel pass (`RelLoop`) over entries [i, count) is the pass over [i, k) followed by the pass over [k, count), on the memory the first part left. Entries are applied strictly in table order, and a halt stops the pass. |
| Relocation.RelaLoopSplit | spec/ro_module_relocate_spec.rb:33-35 | The same for the Rela pass (`RelaLoop`). |
| Relocation.RelLoopFaults | spec/ro_module_relocate_spec.rb:38-53 | A Rel pass halts only on a data abort. |
| Relocation.RelaLoopFaults | spec/ro_module_relocate_spec.rb:26-36 | A Rela pass halts only on a data abort. |
| Relocation.RelocatedFaults | spec/ro_module_relocate_spec.rb:26-82 | Relocating a module (`Relocated`: the Rel pass, then the Rela pass) halts only on a data abort. With both counts zero it writes nothing. |
| Relocation.RelaRelativeWrites | spec/ro_module_relocate_spec.rb:26-36 | A relative Rela entry with offset o and addend a succeeds, leaves `base + a` in the word at `base + o`, and changes no other byte. |
| Relocation.RelRelativeAddsBase | spec/ro_module_relocate_spec.rb:38-53 | A relative Rel entry reads the word w at `base + o` and leaves `base + w` there (read-modify-write), changing no other byte. |
| Relocation.NonRelativeWritesNothing | spec/ro_module_relocate_spec.rb:55-82 | An entry of any other kind, such as R_AARCH64_GLOB_DAT, leaves memory exactly as it was, in a Rel or a Rela table. |
| Relocation.RelTableWithoutRelativeUnchanged | spec/ro_module_relocate_spec.rb:70-82 | A Rel pass over entries none of which is relative leaves memory unchanged. |
| Relocation.RelaTableWithoutRelativeUnchanged | spec/ro_module_relocate_spec.rb:55-68 | A Rela pass over entries none of which is relative leaves memory unchanged. |
| Relocation.NoRelativeNoWrite | spec/ro_module_relocate_spec.rb:55-82 | When neither table of a module holds a relative entry, the whole relocation of the module writes nothing. |
| Relocation.OneRelEntry | spec/ro_module_relocate_spec.rb:38-53 | With `rel_count` 1 and `rela_count` 0, relocating the module is exactly the one Rel entry at the start of the +0x18 table. |
| Relocation.OneRelaEntry | spec/ro_module_relocate_spec.rb:26-36 | With `rel_count` 0 and `rela_count` 1, relocating the module is exactly the one Rela entry at the start of the +0x18 table. |
| Loading.ReadMod0 | spec/rtld_spec.rb:87-100 | Reading the descriptor succeeds exactly when the magic word is "MOD0" and words 1 to 3 are readable. A readable magic other than "MOD0" halts with `BadMagic`, and every other halt is a data abort. |
| Loading.PreparedClearsBss | spec/rtld_spec.rb:102-124 | Preparing a module halts exactly when the descriptor is bad, the bss is not inside memory, or word 6 cannot be read after the clear. A bad descriptor halts before anything is written. On success the bss is zero, every other byte is unchanged, the dynamic pointer is the descriptor's, and the object address is word 6 of the cleared memory. |
| Loading.ObjectFieldInBss | spec/rtld_spec.rb:117-120 | When word 6 lies inside the bss, the loader reads it as zero after the clear, so it takes the object to be at the descriptor itself. |
| Loading.InitializedThenRelocated | spec/ro_module_relocate_spec.rb:22-24 | Initializing and relocating succeeds exactly when the parse succeeds and the relocation of the parsed object then succeeds. A failed parse is the halt. On success the object holds what the parse left (self links, base, dynamic pointer), and memory is what the relocation left. |
| Loading.NoRelativeOnlyClears | spec/ro_module_relocate_spec.rb:55-82 | For a whole load whose relocation tables hold no relative entry, memory after the load is the memory the preparation left: no byte outside the bss differs from the memory before the load. |
| Loading.LoadedFromDescriptor | spec/rtld_spec.rb:87-124 | A load from a descriptor halts where preparation halts (a bad magic halts with `BadMagic`), and otherwise where initialization or relocation halts. It succeeds exactly when both succeed. A loaded module's object is where word 6 says, links to itself, and holds the base and the descriptor's dynamic pointer. |
| Loading.LoadedAtOffset | spec/rtld_spec.rb:56-64 | Loading the module at `base` halts with a data abort when the word at `base + 4` is unreadable. Otherwise it is the load from the descriptor that word points at, and the loaded object holds `base`. |
| Lifecycle.StagesAppend | spec/ro_module_relocate_spec.rb:22-24 | The stages reached by two consecutive parts of a load are those of the first part followed by those of the second. |
| Lifecycle.PreparedThenInstalled | spec/ro_module_relocate_spec.rb:22-24 | A descriptor-and-bss part followed by a parse-relocate-link part is in stage order, and reaches all five stages exactly when the second part reaches all three of its stages. |
| Lifecycle.PrefixMonotone | spec/ro_module_relocate_spec.rb:22-24 | Stages reached in order have strictly increasing rank: none repeats and none goes backward. |
| Lifecycle.ReachedImpliesEarlier | spec/ro_module_relocate_spec.rb:22-24 | A module that reached a stage has reached every earlier stage. |
| Lifecycle.ClearedBeforeAppend | spec/rtld_spec.rb:117-120 | Prefixing events that do not contain the read keeps "every read of the object field comes after a bss clear". |
| Lifecycle.ClearedBeforeExtend | spec/rtld_spec.rb:117-120 | Appending events that do not contain the read keeps "every read of the object field comes after a bss clear". |
| RoModule.InitializedHeader | spec/ro_module_initialize_spec.rb:28-39 | After a successful parse, `prev` and `next` are the object's own address, `base` and `dynamic` are the ones given, and a slot that no entry of the section writes is zero. |
| RoModule.ApplyRel | spec/ro_module_relocate_spec.rb:38-53 | Applying one Rel entry in place leaves the array as the pure Rel step says, or reports the fault the step reports. |
| RoModule.ApplyRela | spec/ro_module_relocate_spec.rb:26-36 | Applying one Rela entry in place leaves the array as the pure Rela step says, or reports the fault the step reports. |
| RoModule.ModuleObject.constructor | spec/ro_module_initialize_spec.rb:38 | A new module object has every slot zero. |
| RoModule.ModuleObject.Initialize | spec/ro_module_initialize_spec.rb:28-57 | The in-place walk over the dynamic section succeeds exactly when the parse does. On success it leaves the parse's slots, with self links, `base` and `dynamic`. On a halt it reports the parse's fault. |
| RoModule.ModuleObject.Relocate | spec/ro_module_relocate_spec.rb:26-53 | The two in-place counted loops, with the count re-read before each entry, succeed exactly when the relocation does, and leave memory as it says; a halt reports its fault. |
| Registry.ModuleList.constructor | spec/ro_module_relocate_spec.rb:66 | An empty registry is a valid ring whose sentinel points at itself. |
| Registry.ModuleList.Link | spec/ro_module_relocate_spec.rb:66 | Linking an unlinked object keeps the ring valid and appends the object after the last member. It reads the object's own `prev` as the sentinel's new `prev`. No slot other than the links changes, in the object or in any earlier member, and no member before the old last one changes at all. The recorded bases grow by the object's base and the recorded images by what the object held, so every member still holds its image. |
| Rtld.ProbeAdvances | spec/rtld_spec.rb:22-34 | Under the kernel's contract, a successful probe that lets the scan go on moves the next probe strictly upward, so the scan ends. |
| Rtld.ReadDescriptor | spec/rtld_spec.rb:87-100 | Succeeds exactly when `ReadMod0` does: the magic is "MOD0" and words 1 to 3 are readable. It then yields the dynamic and bss addresses as signed offsets from the descriptor. Otherwise it halts with `ReadMod0`'s fault: a data abort or `BadMagic`, both before any stage. The magic is the first word read, and word 6 is not read. |
| Rtld.ClearBssThenLocateObject | spec/rtld_spec.rb:102-124 | Succeeds exactly when the bss lies inside memory and word 6 of the cleared memory is readable; any halt is a data abort. For a bss inside memory, the bss is all zeros afterwards and every other byte is unchanged. Word 6 is read only after the clear, and the object address comes from the cleared memory. A range outside memory halts with memory untouched. |
| Rtld.Prepare | spec/rtld_spec.rb:87-124 | Succeeds exactly when `Prepared` does, and then returns its dynamic pointer and object address and leaves its memory (the bss zeroed, every other byte kept, by `Loading.PreparedClearsBss`). A halt carries `Prepared`'s fault, and a bad descriptor leaves memory untouched. It starts with the magic read, reaches `DescriptorLocated` then `BssCleared`, and reads word 6 only after the clear. |
| Rtld.InitializeAndRelocate | spec/ro_module_relocate_spec.rb:22-24 | Succeeds exactly when `InitializedAndRelocated` does: the parse of the reset object and then the relocation both succeed (`Loading.InitializedThenRelocated`). The new object then holds the parsed slots, with self links, `base` and `dynamic`, and memory is the relocated memory. A halt carries the fault. Success means both stages were reached, in order. |
| Rtld.Install | spec/ro_module_relocate_spec.rb:63-66 | Succeeds exactly when initializing and relocating succeeds. Memory is then the relocated memory, and the registry grew by exactly one fresh object at `objAddr` holding every parsed slot (links aside). Earlier members stay in place and keep every non-link slot; bases gain `base` and images the parsed slots. A halt carries the fault and leaves the registry, its bases and its images unchanged. The object is linked only after relocation. |
| Rtld.LoadFromDescriptor | spec/rtld_spec.rb:87-124 | Succeeds exactly when `LoadedFrom` does, and otherwise halts with its fault (a bad magic with `BadMagic` and memory untouched). On success, memory is the loaded memory, and the registry grew by one fresh object holding the loaded slots, with bases extended by `base` and images by the loaded slots; earlier members keep every non-link slot. On a halt the registry is unchanged. The events start with the magic read and reach the stages in order. All five are reached exactly on success, and word 6 is read only after the bss clear. |
| Rtld.LoadModule | spec/rtld_spec.rb:56-64 | Succeeds exactly when `LoadedAt` does, the load through the 4-byte offset at `base + 4` (`Loading.LoadedAtOffset`). On success memory is the loaded memory, and the registry gains one fresh object holding the loaded slots, with bases extended by `base` and images by the loaded slots; earlier members keep every non-link slot. A halt carries the fault and leaves the registry unchanged. The events start with the read of `base + 4` and reach the stages in order, and word 6 of the descriptor that offset names is read only after the bss clear. |
| Rtld.Probe | spec/rtld_spec.rb:66-85 | One probe records the kernel's reply for the address, the memory before and after, and the events. A non-zero result code halts with `QueryFailed`, leaving memory and registry unchanged. A sibling's segment is read at `base + 4` within the same probe: it completes exactly when `LoadedAt` succeeds on the memory before, memory is then the loaded memory, and the sibling's word 6 is read only after its bss clear. A failed sibling load halts with `LoadedAt`'s fault. Any other segment, the loader's own included, is not read, and memory is unchanged. The registry either stays as it was or gains one fresh member after the old ones, which keep every non-link slot; on success bases grow by the sibling's `reply.base` and images by its loaded slots exactly when one was loaded. |
| Rtld.ScanShape | spec/rtld_spec.rb:22-34 | A recorded scan starts at 0x8000000, and each probe is at `base + size` of the segment before. Every step but the last succeeded and had a positive next address, and every step is the kernel's answer. |
| Rtld.ScanExtends | spec/rtld_spec.rb:26-33 | A faithful probe at the next address, from the memory the scan left, extends a scan that went on. The list of loaded bases grows by the module it loaded, if any. |
| Rtld.LoadedBases | spec/rtld_spec.rb:40-64 | The bases a scan loaded, in scan order, are never the loader's own base, and there are at most as many as steps. |
| Rtld.ScanStep | spec/rtld_spec.rb:73-84 | One round appends one faithful step at the address the scan leads to, from the current memory, and ends with the step's memory. It succeeds exactly when that step completed. It halts with `QueryFailed` on a failed query and with `LoadedAt`'s fault on a failed sibling load. The old members stay first and keep every non-link slot. On success bases and images grow by the base and slots the step loaded, if any. If the scan goes on, the next address is strictly higher. |
| Rtld.ScanFrom | spec/rtld_spec.rb:22-54 | The loop yields a non-empty recorded scan that starts from the memory given and ends with the final memory. It succeeds exactly when its last step completed and the next address is `<= 0`. It halts only when its last step did not complete: with `QueryFailed` when the last query failed, and with `LoadedAt`'s fault when the last sibling failed to load. So the scan never stops early. The old members stay first, and every member holds its recorded image. On success bases are the old ones followed by the base of every sibling loaded, and images the old ones followed by every loaded sibling's slots, in scan order. |
| Rtld.Boot | spec/rtld_spec.rb:7-20 | The scan starts at 0x8000000, and a failed query halts. Before the scan, the bootstrap loads its own module and succeeds in that exactly when `LoadedFrom` does, reading its own word 6 only after its bss clear (a design step the specs do not exercise; see "Left out"). A failed own load halts with its fault and an empty registry. Only if the own load reached all five stages does the scan start, from the memory that load left. Every member holds its recorded image. On success the bases are the loader's own base followed by every sibling's base, and the images are its own loaded slots followed by every loaded sibling's slots, in scan order. After the own load it halts only when the last step did not complete: with `QueryFailed` on a failed query, or with `LoadedAt`'s fault on a failed sibling load. |

## Left out

- The emulator, the image builder, the spec matchers and the supervisor-call numbers (6 for the memory query, 0x26 for break) belong to the test harness. The query is a function parameter with a stated contract, and break is `Halt`.
- `spec/rtld_helper.rb` only reads the prebuilt loader binary from disk, which is file I/O with nothing to model.
- Instruction-level access order is not modelled:
  - one store pair writing `prev` and `next` together;
  - the JMPREL slot written last, which the relocation specs use as their start signal;
  - the access pattern of the bss `memset`.

  The model keeps final values and the order of whole stages and of the 4-byte descriptor reads.
- Address-space limits per firmware version are an open TODO in the specs. The model scans the whole 64-bit space.
- Symbol relocation (GLOB_DAT and JUMP_SLOT resolution), lazy PLT binding, TLS and unloading are not modelled; other relocation kinds write nothing.
- The module object and byte memory are not aliased. The object is a `ModuleObject` with 22 slots, separate from the `array<byte>` that relocation writes. A relocation aimed at the object's own bytes does not show up in its slots.
- Rtld.Probe: "this segment is a module's code" comes as a flag of the kernel's reply (`moduleText`). The model does not derive it from the segment's permissions.
- Rtld.Boot: the loader's own base, its descriptor address and the registry sentinel's address are parameters. How the loader finds its own descriptor (from its entry point) is not modelled.
- Rtld.Boot: the specs never exercise the loader's own-module load. Loading it first, from its own descriptor, follows the loader's design; the specs cited for the row show only the first query at 0x8000000 and the halt on a bad reply.
- Layout.WithField: the DT_PLTREL write of a single byte at +0x30 is modelled as a write of the whole slot.
- Memory left behind by a halt is stated only for a bad descriptor and a failed query, where it is unchanged. The process never runs on after a halt.
- Relocation.RelStep: bases and addends are added modulo 2^64 (`Wrap64`), which is what the 64-bit loader computes.
- Rtld.ScanFrom: termination rests on `KernelContract` (a successful reply holds the queried address and ends at or below 2^64). Without that contract the loop would have no bound.

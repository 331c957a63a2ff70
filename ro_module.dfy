/** RoModule: the module object a module carries inside its own image, with the
    two passes the loader runs over it. Initialize resets the object and walks
    the dynamic section into its slots; Relocate applies the module's relative
    relocations to memory. */
module RoModule {
  import opened Words
  import opened Faults
  import opened Elf
  import opened Memory
  import opened Layout
  import opened Dynamic
  import opened Relocation

  /** What a successful Initialize leaves in the object: the links are
      self-pointers, base and dynamic are the ones given, and a slot that no
      entry of the section writes is still zero. */
  lemma {:induction false} InitializedHeader(self: u64, base: u64, dynamic: u64, m: seq<byte>)
    requires ParseFrom(Initial(self, base, dynamic), m, dynamic).Ok?
    ensures var r := ParseFrom(Initial(self, base, dynamic), m, dynamic).value;
      && Entries(m, dynamic).Some?
      && Field(r, PREV) == self && Field(r, NEXT) == self
      && Field(r, BASE) == base && Field(r, DYNAMIC) == dynamic
      && forall o: Offset ::
           (&& o != PREV && o != NEXT && o != BASE && o != DYNAMIC
            && forall i :: 0 <= i < |Entries(m, dynamic).value| ==> o !in Writes(Entries(m, dynamic).value[i].tag))
           ==> Field(r, o) == 0
  {
    var s := Initial(self, base, dynamic);
    ParseIsApplyAll(s, m, dynamic);
    var es := Entries(m, dynamic).value;
    forall i | 0 <= i < |es| ensures PREV !in Writes(es[i].tag) && NEXT !in Writes(es[i].tag)
      && BASE !in Writes(es[i].tag) && DYNAMIC !in Writes(es[i].tag) {
      HeaderNeverWritten(es[i].tag);
    }
  }

  /** Applies the Elf64_Rel entry at `entry` in place; false when a read or
      the write falls outside memory. */
  method ApplyRel(mem: array<byte>, base: u64, entry: int) returns (ok: bool)
    modifies mem
    ensures RelStep(old(mem[..]), base, entry) == if ok then Ok(mem[..]) else Fatal(Unmapped)
  {
    Pow256Widths();
    var offset := Load64(mem[..], entry);
    var info := Load64(mem[..], entry + 8);
    if offset.None? || info.None? {
      return false;
    }
    if IsRelative(info.value) {
      var target: int := Wrap64(base + offset.value);
      var word := Load64(mem[..], target);
      if word.None? {
        return false;
      }
      Write(mem, target, 8, Wrap64(base + word.value));
    }
    return true;
  }

  /** Applies the Elf64_Rela entry at `entry` in place; false when a read or
      the write falls outside memory. */
  method ApplyRela(mem: array<byte>, base: u64, entry: int) returns (ok: bool)
    modifies mem
    ensures RelaStep(old(mem[..]), base, entry) == if ok then Ok(mem[..]) else Fatal(Unmapped)
  {
    Pow256Widths();
    var offset := Load64(mem[..], entry);
    var info := Load64(mem[..], entry + 8);
    if offset.None? || info.None? {
      return false;
    }
    if IsRelative(info.value) {
      var target: int := Wrap64(base + offset.value);
      var addend := Load64(mem[..], entry + 16);
      if addend.None? || !Mapped(mem[..], target, 8) {
        return false;
      }
      Write(mem, target, 8, Wrap64(base + addend.value));
    }
    return true;
  }

  class ModuleObject {
    /** Where the object lives in the module's image. */
    const address: u64
    var slots: Slots

    /** The object before the loader touches it: all slots zero. */
    constructor (address: u64)
      ensures this.address == address
      ensures forall o: Offset :: Field(slots, o) == 0
    {
      this.address := address;
      slots := seq(22, i => 0);
    }

    /** Resets the object (links to itself, base, dynamic, all else zero), then
        reads (tag, value) pairs from `dynamic` until DT_NULL, dispatching each
        one into the slots. A rejected entry or a read outside memory halts;
        the object then holds whatever the entries before it wrote. */
    method Initialize(base: u64, dynamic: u64, mem: array<byte>) returns (o: Outcome)
      modifies this
      ensures ParseFrom(Initial(address, base, dynamic), mem[..], dynamic).Ok? <==> o == Success
      ensures o == Success ==> slots == ParseFrom(Initial(address, base, dynamic), mem[..], dynamic).value
      ensures o.Halt? ==> ParseFrom(Initial(address, base, dynamic), mem[..], dynamic) == Fatal(o.fault)
      ensures o == Success ==> Field(slots, PREV) == address && Field(slots, NEXT) == address
      ensures o == Success ==> Field(slots, BASE) == base && Field(slots, DYNAMIC) == dynamic
    {
      ghost var spec := ParseFrom(Initial(address, base, dynamic), mem[..], dynamic);
      slots := Initial(address, base, dynamic);
      var p: int := dynamic;
      while true
        invariant ParseFrom(slots, mem[..], p) == spec
        decreases mem.Length - p
      {
        var tag := Load64(mem[..], p);
        if tag.None? {
          return Halt(Unmapped);
        }
        if tag.value == DT_NULL {
          InitializedHeader(address, base, dynamic, mem[..]);
          return Success;
        }
        var value := Load64(mem[..], p + 8);
        if value.None? {
          return Halt(Unmapped);
        }
        var next := ApplyEntry(slots, mem[..], Entry(tag.value, value.value));
        if next.Fatal? {
          return Halt(next.fault);
        }
        slots := next.value;
        p := p + 16;
      }
    }

    /** Applies the relative relocations: first the Elf64_Rel entries, as many
        as rel_count says, then the Elf64_Rela entries, as many as rela_count
        says, both from the table at the +0x18 slot. The count is read from the
        object again before every entry. */
    method Relocate(mem: array<byte>) returns (o: Outcome)
      modifies mem
      ensures Relocated(slots, old(mem[..])).Ok? <==> o == Success
      ensures o == Success ==> mem[..] == Relocated(slots, old(mem[..])).value
      ensures o.Halt? ==> Relocated(slots, old(mem[..])) == Fatal(o.fault)
    {
      var base := Field(slots, BASE);
      var i := 0;
      while i < Field(slots, REL_COUNT)
        invariant i <= Field(slots, REL_COUNT)
        invariant RelLoop(old(mem[..]), base, Field(slots, REL_OR_RELA), 0, Field(slots, REL_COUNT))
          == RelLoop(mem[..], base, Field(slots, REL_OR_RELA), i, Field(slots, REL_COUNT))
      {
        var ok := ApplyRel(mem, base, Wrap64(Field(slots, REL_OR_RELA) + i * REL_ENTRY_SIZE));
        if !ok {
          return Halt(Unmapped);
        }
        i := i + 1;
      }
      ghost var afterRel := mem[..];
      i := 0;
      while i < Field(slots, RELA_COUNT)
        invariant i <= Field(slots, RELA_COUNT)
        invariant RelaLoop(afterRel, base, Field(slots, REL_OR_RELA), 0, Field(slots, RELA_COUNT))
          == RelaLoop(mem[..], base, Field(slots, REL_OR_RELA), i, Field(slots, RELA_COUNT))
      {
        var ok := ApplyRela(mem, base, Wrap64(Field(slots, REL_OR_RELA) + i * RELA_ENTRY_SIZE));
        if !ok {
          return Halt(Unmapped);
        }
        i := i + 1;
      }
      return Success;
    }
  }
}

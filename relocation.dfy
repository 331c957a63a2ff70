/** Load-bias relocation as RoModule::Relocate performs it: a pass over the
    Elf64_Rel table bounded by rel_count, then a pass over the Elf64_Rela table
    bounded by rela_count, both starting at the +0x18 slot. Only
    R_AARCH64_RELATIVE entries write memory. Entries are read from memory as it
    stands when the entry is reached. */
module Relocation {
  import opened Words
  import opened Faults
  import opened Elf
  import opened Memory
  import opened Layout

  /** The relocation kind is the low 32 bits of r_info. */
  predicate IsRelative(info: u64) {
    Low32(info) == R_AARCH64_RELATIVE
  }

  /** One Elf64_Rel entry (r_offset, r_info) at `entry`. A relative one reads the
      word at base + r_offset and writes it back with base added. */
  function RelStep(m: seq<byte>, base: u64, entry: int): (r: Result<seq<byte>>)
    ensures r.Ok? ==> |r.value| == |m|
  {
    var offset, info := Load64(m, entry), Load64(m, entry + 8);
    if offset.None? || info.None? then Fatal(Unmapped)
    else if !IsRelative(info.value) then Ok(m)
    else
      var target: int := Wrap64(base + offset.value);
      var word := Load64(m, target);
      if word.None? then Fatal(Unmapped)
      else Pow256Widths(); Ok(Store(m, target, 8, Wrap64(base + word.value)))
  }

  /** One Elf64_Rela entry (r_offset, r_info, r_addend) at `entry`. A relative
      one writes base + r_addend to base + r_offset. */
  function RelaStep(m: seq<byte>, base: u64, entry: int): (r: Result<seq<byte>>)
    ensures r.Ok? ==> |r.value| == |m|
  {
    var offset, info := Load64(m, entry), Load64(m, entry + 8);
    if offset.None? || info.None? then Fatal(Unmapped)
    else if !IsRelative(info.value) then Ok(m)
    else
      var target: int := Wrap64(base + offset.value);
      var addend := Load64(m, entry + 16);
      if addend.None? || !Mapped(m, target, 8) then Fatal(Unmapped)
      else Pow256Widths(); Ok(Store(m, target, 8, Wrap64(base + addend.value)))
  }

  /** Entries i, i + 1, ..., count - 1 of the Elf64_Rel table at `table`. */
  function RelLoop(m: seq<byte>, base: u64, table: u64, i: nat, count: nat): (r: Result<seq<byte>>)
    ensures r.Ok? ==> |r.value| == |m|
    decreases count - i
  {
    if i >= count then Ok(m)
    else
      match RelStep(m, base, Wrap64(table + i * REL_ENTRY_SIZE))
      case Fatal(f) => Fatal(f)
      case Ok(m') => RelLoop(m', base, table, i + 1, count)
  }

  /** Entries i, i + 1, ..., count - 1 of the Elf64_Rela table at `table`. */
  function RelaLoop(m: seq<byte>, base: u64, table: u64, i: nat, count: nat): (r: Result<seq<byte>>)
    ensures r.Ok? ==> |r.value| == |m|
    decreases count - i
  {
    if i >= count then Ok(m)
    else
      match RelaStep(m, base, Wrap64(table + i * RELA_ENTRY_SIZE))
      case Fatal(f) => Fatal(f)
      case Ok(m') => RelaLoop(m', base, table, i + 1, count)
  }

  /** The whole pass for the module object `s`: the Rel table, then the Rela
      table, with counts, base and table address taken from the object. */
  function Relocated(s: Slots, m: seq<byte>): (r: Result<seq<byte>>)
    ensures r.Ok? ==> |r.value| == |m|
  {
    var base := Field(s, BASE);
    var table := Field(s, REL_OR_RELA);
    match RelLoop(m, base, table, 0, Field(s, REL_COUNT))
    case Fatal(f) => Fatal(f)
    case Ok(m') => RelaLoop(m', base, table, 0, Field(s, RELA_COUNT))
  }

  /** A Rel entry halts exactly when its 16 bytes, or for a relative entry
      the word it patches, are not mapped; the halt is always a data abort. */
  lemma RelStepHalts(m: seq<byte>, base: u64, entry: int)
    ensures RelStep(m, base, entry).Fatal? <==>
      || !Mapped(m, entry, 16)
      || (IsRelative(Load64(m, entry + 8).value) && !Mapped(m, Wrap64(base + Load64(m, entry).value), 8))
    ensures RelStep(m, base, entry).Fatal? ==> RelStep(m, base, entry).fault == Unmapped
  {
  }

  /** A Rela entry halts exactly when its offset and info words, or for a
      relative entry its addend or the word it writes, are not mapped; the
      halt is always a data abort. */
  lemma RelaStepHalts(m: seq<byte>, base: u64, entry: int)
    ensures RelaStep(m, base, entry).Fatal? <==>
      || !Mapped(m, entry, 16)
      || (IsRelative(Load64(m, entry + 8).value)
          && (!Mapped(m, entry + 16, 8) || !Mapped(m, Wrap64(base + Load64(m, entry).value), 8)))
    ensures RelaStep(m, base, entry).Fatal? ==> RelaStep(m, base, entry).fault == Unmapped
  {
  }

  /** The Rel pass over [i, count) is the pass over [i, k) followed by the
      pass over [k, count) on the memory the first part left: entries are
      applied strictly in table order. */
  lemma {:induction false} RelLoopSplit(m: seq<byte>, base: u64, table: u64, i: nat, k: nat, count: nat)
    requires i <= k <= count
    ensures RelLoop(m, base, table, i, count) ==
      match RelLoop(m, base, table, i, k)
      case Fatal(f) => Fatal(f)
      case Ok(m') => RelLoop(m', base, table, k, count)
    decreases k - i
  {
    if i < k {
      match RelStep(m, base, Wrap64(table + i * REL_ENTRY_SIZE))
      case Fatal(f) =>
      case Ok(m') => RelLoopSplit(m', base, table, i + 1, k, count);
    }
  }

  /** The same for the Rela pass. */
  lemma {:induction false} RelaLoopSplit(m: seq<byte>, base: u64, table: u64, i: nat, k: nat, count: nat)
    requires i <= k <= count
    ensures RelaLoop(m, base, table, i, count) ==
      match RelaLoop(m, base, table, i, k)
      case Fatal(f) => Fatal(f)
      case Ok(m') => RelaLoop(m', base, table, k, count)
    decreases k - i
  {
    if i < k {
      match RelaStep(m, base, Wrap64(table + i * RELA_ENTRY_SIZE))
      case Fatal(f) =>
      case Ok(m') => RelaLoopSplit(m', base, table, i + 1, k, count);
    }
  }

  /** A Rel pass halts only on a data abort. */
  lemma {:induction false} RelLoopFaults(m: seq<byte>, base: u64, table: u64, i: nat, count: nat)
    ensures RelLoop(m, base, table, i, count).Fatal? ==> RelLoop(m, base, table, i, count).fault == Unmapped
    decreases count - i
  {
    if i < count {
      RelStepHalts(m, base, Wrap64(table + i * REL_ENTRY_SIZE));
      match RelStep(m, base, Wrap64(table + i * REL_ENTRY_SIZE))
      case Fatal(f) =>
      case Ok(m') => RelLoopFaults(m', base, table, i + 1, count);
    }
  }

  /** A Rela pass halts only on a data abort. */
  lemma {:induction false} RelaLoopFaults(m: seq<byte>, base: u64, table: u64, i: nat, count: nat)
    ensures RelaLoop(m, base, table, i, count).Fatal? ==> RelaLoop(m, base, table, i, count).fault == Unmapped
    decreases count - i
  {
    if i < count {
      RelaStepHalts(m, base, Wrap64(table + i * RELA_ENTRY_SIZE));
      match RelaStep(m, base, Wrap64(table + i * RELA_ENTRY_SIZE))
      case Fatal(f) =>
      case Ok(m') => RelaLoopFaults(m', base, table, i + 1, count);
    }
  }

  /** Relocating a module halts only on a data abort, and with both counts
      zero it writes nothing. */
  lemma RelocatedFaults(s: Slots, m: seq<byte>)
    ensures Relocated(s, m).Fatal? ==> Relocated(s, m).fault == Unmapped
    ensures Field(s, REL_COUNT) == 0 && Field(s, RELA_COUNT) == 0 ==> Relocated(s, m) == Ok(m)
  {
    var base, table := Field(s, BASE), Field(s, REL_OR_RELA);
    RelLoopFaults(m, base, table, 0, Field(s, REL_COUNT));
    match RelLoop(m, base, table, 0, Field(s, REL_COUNT))
    case Fatal(f) =>
    case Ok(m') => RelaLoopFaults(m', base, table, 0, Field(s, RELA_COUNT));
  }

  /** The pass `r` succeeded, left v in the word at `target` and changed no
      other byte of m. */
  ghost predicate WritesWord(m: seq<byte>, r: Result<seq<byte>>, target: int, v: u64) {
    && r.Ok? && |r.value| == |m|
    && Load64(r.value, target) == Some(v)
    && forall x :: 0 <= x < |m| && !(target <= x < target + 8) ==> r.value[x] == m[x]
  }

  lemma StoreWritesWord(m: seq<byte>, target: int, v: u64)
    requires Mapped(m, target, 8) && v < Pow256(8)
    ensures WritesWord(m, Ok(Store(m, target, 8, v)), target, v)
  {
    StoreThenLoad(m, target, 8, v);
  }

  /** A relative Rela entry with offset o and addend a leaves base + a in the
      word at base + o and changes no other byte. */
  lemma RelaRelativeWrites(m: seq<byte>, base: u64, entry: int, offset: u64, info: u64, addend: u64)
    requires Load64(m, entry) == Some(offset) && Load64(m, entry + 8) == Some(info)
    requires Load64(m, entry + 16) == Some(addend)
    requires IsRelative(info) && Mapped(m, Wrap64(base + offset), 8)
    ensures WritesWord(m, RelaStep(m, base, entry), Wrap64(base + offset), Wrap64(base + addend))
  {
    var target: int, v := Wrap64(base + offset), Wrap64(base + addend);
    Pow256Widths();
    assert RelaStep(m, base, entry) == Ok(Store(m, target, 8, v));
    StoreWritesWord(m, target, v);
  }

  /** A relative Rel entry reads the word w at base + offset and leaves
      base + w there, changing no other byte. */
  lemma RelRelativeAddsBase(m: seq<byte>, base: u64, entry: int, offset: u64, info: u64, w: u64)
    requires Load64(m, entry) == Some(offset) && Load64(m, entry + 8) == Some(info)
    requires IsRelative(info) && Load64(m, Wrap64(base + offset)) == Some(w)
    ensures WritesWord(m, RelStep(m, base, entry), Wrap64(base + offset), Wrap64(base + w))
  {
    var target: int, v := Wrap64(base + offset), Wrap64(base + w);
    Pow256Widths();
    assert RelStep(m, base, entry) == Ok(Store(m, target, 8, v));
    StoreWritesWord(m, target, v);
  }

  /** An entry of any other kind (R_AARCH64_GLOB_DAT, say) writes nothing. */
  lemma NonRelativeWritesNothing(m: seq<byte>, base: u64, entry: int)
    requires Load64(m, entry).Some? && Load64(m, entry + 8).Some?
    requires !IsRelative(Load64(m, entry + 8).value)
    ensures RelStep(m, base, entry) == Ok(m)
    ensures RelaStep(m, base, entry) == Ok(m)
  {
  }

  /** Entries [i, count) of a table all readable and none relative. */
  ghost predicate NoRelativeEntries(m: seq<byte>, table: u64, entrySize: nat, i: nat, count: nat) {
    forall j :: i <= j < count ==>
      var entry: int := Wrap64(table + j * entrySize);
      Load64(m, entry).Some? && Load64(m, entry + 8).Some? && !IsRelative(Load64(m, entry + 8).value)
  }

  /** A Rel table without relative entries leaves memory exactly as it was. */
  lemma {:induction false} RelTableWithoutRelativeUnchanged(m: seq<byte>, base: u64, table: u64, i: nat, count: nat)
    requires NoRelativeEntries(m, table, REL_ENTRY_SIZE, i, count)
    ensures RelLoop(m, base, table, i, count) == Ok(m)
    decreases count - i
  {
    if i < count {
      NonRelativeWritesNothing(m, base, Wrap64(table + i * REL_ENTRY_SIZE));
      RelTableWithoutRelativeUnchanged(m, base, table, i + 1, count);
    }
  }

  /** A Rela table without relative entries leaves memory exactly as it was. */
  lemma {:induction false} RelaTableWithoutRelativeUnchanged(m: seq<byte>, base: u64, table: u64, i: nat, count: nat)
    requires NoRelativeEntries(m, table, RELA_ENTRY_SIZE, i, count)
    ensures RelaLoop(m, base, table, i, count) == Ok(m)
    decreases count - i
  {
    if i < count {
      NonRelativeWritesNothing(m, base, Wrap64(table + i * RELA_ENTRY_SIZE));
      RelaTableWithoutRelativeUnchanged(m, base, table, i + 1, count);
    }
  }

  /** A module whose tables hold no relative entry is not written at all. */
  lemma NoRelativeNoWrite(s: Slots, m: seq<byte>)
    requires NoRelativeEntries(m, Field(s, REL_OR_RELA), REL_ENTRY_SIZE, 0, Field(s, REL_COUNT))
    requires NoRelativeEntries(m, Field(s, REL_OR_RELA), RELA_ENTRY_SIZE, 0, Field(s, RELA_COUNT))
    ensures Relocated(s, m) == Ok(m)
  {
    RelTableWithoutRelativeUnchanged(m, Field(s, BASE), Field(s, REL_OR_RELA), 0, Field(s, REL_COUNT));
    RelaTableWithoutRelativeUnchanged(m, Field(s, BASE), Field(s, REL_OR_RELA), 0, Field(s, RELA_COUNT));
  }

  /** With rel_count 1 and rela_count 0 the pass is the one Rel entry at the
      start of the table. */
  lemma OneRelEntry(s: Slots, m: seq<byte>)
    requires Field(s, REL_COUNT) == 1 && Field(s, RELA_COUNT) == 0
    ensures Relocated(s, m) == RelStep(m, Field(s, BASE), Field(s, REL_OR_RELA))
  {
    var base, table := Field(s, BASE), Field(s, REL_OR_RELA);
    assert Wrap64(table + 0 * REL_ENTRY_SIZE) == table;
    match RelStep(m, base, table)
    case Fatal(f) =>
    case Ok(m') =>
      assert RelLoop(m', base, table, 1, 1) == Ok(m');
  }

  /** With rel_count 0 and rela_count 1 the pass is the one Rela entry at the
      start of the table. */
  lemma OneRelaEntry(s: Slots, m: seq<byte>)
    requires Field(s, REL_COUNT) == 0 && Field(s, RELA_COUNT) == 1
    ensures Relocated(s, m) == RelaStep(m, Field(s, BASE), Field(s, REL_OR_RELA))
  {
    var base, table := Field(s, BASE), Field(s, REL_OR_RELA);
    assert Wrap64(table + 0 * RELA_ENTRY_SIZE) == table;
    match RelaStep(m, base, table)
    case Fatal(f) =>
    case Ok(m') =>
      assert RelaLoop(m', base, table, 1, 1) == Ok(m');
  }
}

/** The byte-exact layout of a module object: 22 eight-byte slots at offsets
    0x00..0xa8. The offsets below are the single source of truth; every read and
    write of a module object goes through `Field` and `WithField`. */
module Layout {
  import opened Words

  /** A slot offset inside the 0xb0-byte module object. */
  type Offset = o: int | 0 <= o < 0xb0 && o % 8 == 0

  const PREV: Offset := 0x00          // registry back-link
  const NEXT: Offset := 0x08          // registry forward-link
  const JMPREL: Offset := 0x10        // base + DT_JMPREL
  const REL_OR_RELA: Offset := 0x18   // base + DT_REL or base + DT_RELA
  const BASE: Offset := 0x20          // load base of the module
  const DYNAMIC: Offset := 0x28       // start of the dynamic section
  const IS_RELA_PLT: Offset := 0x30   // 1 when DT_PLTREL is DT_RELA, 0 when DT_REL
  const PLTRELSZ: Offset := 0x38
  const INIT: Offset := 0x40          // base + DT_INIT
  const FINI: Offset := 0x48          // base + DT_FINI
  const HASH_BUCKET: Offset := 0x50   // first bucket of the SysV hash table
  const HASH_CHAIN: Offset := 0x58    // first chain slot of the SysV hash table
  const STRTAB: Offset := 0x60        // base + DT_STRTAB
  const SYMTAB: Offset := 0x68        // base + DT_SYMTAB
  const STRSZ: Offset := 0x70
  const PLTGOT: Offset := 0x78        // base + DT_PLTGOT
  const RELASZ: Offset := 0x80
  const RELSZ: Offset := 0x88
  const REL_COUNT: Offset := 0x90
  const RELA_COUNT: Offset := 0x98
  const HASH_NCHAIN: Offset := 0xa0
  const HASH_NBUCKET: Offset := 0xa8

  const SLOT_COUNT: nat := 22

  /** The contents of a module object, slot by slot. */
  type Slots = s: seq<u64> | |s| == 22 witness seq(22, i => 0)

  function Field(s: Slots, o: Offset): u64 {
    s[o / 8]
  }

  /** Writes one slot; every other slot keeps its value. */
  function WithField(s: Slots, o: Offset, v: u64): (r: Slots)
    ensures Field(r, o) == v
    ensures forall p: Offset :: p != o ==> Field(r, p) == Field(s, p)
  {
    s[o / 8 := v]
  }

  /** A freshly created module object: `prev` and `next` point at the object
      itself (an unlinked node), `base` and `dynamic` are set, and every other
      slot is zero. */
  function Initial(self: u64, base: u64, dynamic: u64): (s: Slots)
    ensures Field(s, PREV) == self && Field(s, NEXT) == self
    ensures Field(s, BASE) == base && Field(s, DYNAMIC) == dynamic
    ensures forall o: Offset :: o != PREV && o != NEXT && o != BASE && o != DYNAMIC ==> Field(s, o) == 0
  {
    seq(22, i requires 0 <= i < 22 =>
      if i == PREV / 8 || i == NEXT / 8 then self
      else if i == BASE / 8 then base
      else if i == DYNAMIC / 8 then dynamic
      else 0)
  }
}

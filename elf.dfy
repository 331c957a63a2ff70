/** Constants of the generic System V ELF ABI (chapter 5, "Dynamic Section") and of
    ELF for the Arm 64-bit Architecture ("Dynamic relocations") that the loader uses. */
module Elf {

  // Dynamic-section tags
  const DT_NULL: int := 0
  const DT_PLTRELSZ: int := 2
  const DT_PLTGOT: int := 3
  const DT_HASH: int := 4
  const DT_STRTAB: int := 5
  const DT_SYMTAB: int := 6
  const DT_RELA: int := 7
  const DT_RELASZ: int := 8
  const DT_RELAENT: int := 9
  const DT_STRSZ: int := 10
  const DT_SYMENT: int := 11
  const DT_INIT: int := 12
  const DT_FINI: int := 13
  const DT_REL: int := 17
  const DT_RELSZ: int := 18
  const DT_RELENT: int := 19
  const DT_PLTREL: int := 20
  const DT_JMPREL: int := 23
  const DT_RELACOUNT: int := 0x6fff_fff9
  const DT_RELCOUNT: int := 0x6fff_fffa

  // Sizes of the table entries the loader walks
  const REL_ENTRY_SIZE: int := 16     // Elf64_Rel: offset, info
  const RELA_ENTRY_SIZE: int := 24    // Elf64_Rela: offset, info, addend
  const SYM_ENTRY_SIZE: int := 24     // Elf64_Sym

  // AArch64 relocation kinds
  const R_AARCH64_GLOB_DAT: int := 1025
  const R_AARCH64_RELATIVE: int := 1027
}

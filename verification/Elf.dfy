/** The ELF constants and records that the loader reads. */
module Elf {
  import opened Bits

  const PT_LOAD := 1
  const PT_DYNAMIC := 2
  const PT_INTERP := 3
  const PT_GNU_RELRO := 0x6474e552

  const DT_NULL := 0
  const DT_PLTRELSZ := 2
  const DT_RELA := 7
  const DT_RELASZ := 8
  const DT_RELAENT := 9
  const DT_JMPREL := 23

  const DYN_SIZE := 16
  const RELA_SIZE := 24

  const R_X86_64_RELATIVE := 8

  const AT_NULL := 0
  const AT_PHDR := 3
  const AT_PHENT := 4
  const AT_PHNUM := 5
  const AT_PAGESZ := 6
  const AT_BASE := 7
  const AT_FLAGS := 8
  const AT_ENTRY := 9
  const AT_UID := 11
  const AT_EUID := 12
  const AT_GID := 13
  const AT_EGID := 14
  const AT_PLATFORM := 15
  const AT_HWCAP := 16
  const AT_CLKTCK := 17
  const AT_SECURE := 23
  const AT_RANDOM := 25
  const AT_HWCAP2 := 26
  const AT_EXECFN := 31

  const GUEST_PAGE_SIZE := 4096

  /** The names stand for the numbers of the System V ABI. */
  lemma AbiNumbers()
    ensures PT_LOAD == 1 && PT_DYNAMIC == 2 && PT_INTERP == 3 && PT_GNU_RELRO == 0x6474e552
    ensures DT_NULL == 0 && DT_PLTRELSZ == 2 && DT_RELA == 7 && DT_RELASZ == 8 && DT_RELAENT == 9 && DT_JMPREL == 23
    ensures R_X86_64_RELATIVE == 8 && DYN_SIZE == 16 && RELA_SIZE == 24
  {
  }

  datatype Phdr = Phdr(ptype: nat, flags: nat, offset: U64, vaddr: U64, filesz: U64, memsz: U64)

  /** A parsed executable: fixed-address (ET_EXEC) or position-independent (ET_DYN). */
  datatype ElfFile = ElfFile(path: seq<Byte>, bytes: seq<Byte>, isFixedExe: bool, entry: U64,
                             phoff: U64, phentsize: U64, phnum: U64, phdrs: seq<Phdr>)

  /** What the mapper records about the placed image. */
  datatype GuestElfImage = GuestElfImage(
    path: seq<Byte>, isPie: bool, isDynamic: bool, needsInterp: bool, interpPath: seq<Byte>,
    loadBias: U64, entry: U64, loadLow: U64, loadHigh: U64, brk: U64,
    phdrAddr: U64, phEntSize: U64, phNum: U64, dynamicAddr: U64,
    relocApplied: nat, relocSkipped: nat)
}

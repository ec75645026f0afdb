/** The 32-bit machine: page size, size of the address space in bytes, and in pages. */
module Machine {
  const PAGE: nat := 4096             // PHYS_MEM_CHUNK_SIZE
  const SPACE: nat := 0x1_0000_0000   // MAX_VIRT_MEM
  const PAGES: nat := 0x10_0000
}

/** The constants that several parts of the system share, from param.h, fs.h, mmu.h and memlayout.h. */
module Params {

  const BSIZE := 512                  // bytes in a disk block
  const IPB := 8                      // inodes in a disk block
  const MAXOPBLOCKS := 10             // blocks one operation may log
  const LOGSIZE := 30                 // MAXOPBLOCKS * 3
  const NBUF := 30                    // MAXOPBLOCKS * 3

  const PGSIZE := 4096
  const KERNBASE := 0x8000_0000

  const TWO32 := 0x1_0000_0000        // unsigned arithmetic is modulo this
}

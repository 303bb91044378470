/** Extent records of an inode fork. */
module Bmbt {

  /** `BmbtRec`: `blockcount` file-system blocks of the fork, starting at
      logical block `startoff` of the fork and stored from file-system block
      `startblock`. The unwritten-extent flag is not read by the modelled code. */
  datatype BmbtRec = BmbtRec(startoff: nat, startblock: nat, blockcount: nat)
}

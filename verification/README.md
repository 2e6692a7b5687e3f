# NCFS erasure codes and buffer

NCFS is a networked file system that spreads its blocks over an array of disks. This project
models the layer that makes the array survive failures, and the write-back buffer in front of
one disk, and proves what they are for.

- **MDR-I** (modules `MdrCode`, `MdrRepair`, `MdrMatrix`, `MdrStore`, `Mdr1`). The recursive
  matrix of bit masks, the rows that a repair reads, and the layer that writes, reads around a
  failed disk and rebuilds one. The proofs are inductions over the builder: a strip of level
  k is two half strips of level k - 1.
- **EVENODD and RDP** (`PrimeWalk`, `Diagonals`, `EvenoddCode`, `RdpCode`, `RdpStore`,
  `ParityStripe`, `Evenodd`, `Rdp`). The relation tables, parity generation and repair in
  memory, the double-loss theorems by a walk through Z_p, and the disk layers.
- **RAID-6** (`GaloisByte`, `GaloisBlocks`, `Raid6Code`, `Raid6Alloc`, `Raid6`). Tables of
  GF(2^8), the rotating allocator, and reading around one or two failed disks.
- **MBR and SRC** (`MbrAddress`, `MbrAlloc`, `Mbr`, `SrcCode`, `SrcAlloc`, `Src`, `LinearCode`).
  The triangular addresses of the mirrored blocks, the wrap-around diagonals of the light
  repair, and the allocators of both.
- **Galois arithmetic and Cauchy matrices** (`GaloisField`, `GaloisTables`, `GaloisSplit`,
  `BinaryMatrix`, `CauchyOnes`, `CauchyCode`, `Cauchy`, `ErasureCode`). All fast
  multiplications against the polynomial product, in-place inversion over GF(2), and matrix
  optimisation that keeps every square submatrix nonsingular, which is what makes any k words
  determine the others.
- **The buffer** (`CacheBuffer`). Lazy pages and dirty blocks against a plain file, while the
  buffer moves from range to range.
- **Whole runs** (`Survival`). From an empty array through any run of writes to the loss of
  disks: everything written reads back.
- **Runs that end badly** (`Failures`). Inputs for which a layer does not do what a reader
  would expect, each from an empty array.
- Shared: `Bits`, `Blocks`, `IntMod`, `Ncfs` (the disk array and its accounts), `StripWrite`
  (the writes of the MDR-I, EVENODD and RDP `encode`).

## Conventions

A block is one natural number, the binary number that its bytes spell, so a block may have any
number of bytes; XOR is `Bits.Xor`, and RAID-6, MBR and SRC multiply byte by byte with
`GaloisBlocks.Scale`. Masks are naturals of unbounded width. Matrices are two-dimensional
arrays where the source indexes a flat one. A `Slot` is an address, a disk and a row.

A failed disk cannot be read: `ReadDisk` requires a healthy disk, so every decoding method
uses survivors only. `readLog` records the addresses read; that is how the claims
about repair traffic are stated.

Where the source is right only under a condition, both directions are proved, and `Failures`
reaches a state in which the condition does not hold:

- `encode` of MDR-I, EVENODD and RDP adds the new block to P and Q without taking out the old
  one. The parities survive a write exactly when the overwritten block is zero
  (`MdrStore.WriteKeepsCodeIffFresh`, `Evenodd.WriteKeepsCodeIffFresh`,
  `Rdp.WriteKeepsStoredIffFresh`). A block taken back from the list of released blocks is not
  zero in general.
- The relation table of RDP puts P on the diagonals, `encode` does not. The strips on disk are
  RDP only where the P blocks concerned are zero (`RdpStore.StoredIsCodewordIff`), they
  survive two losses only with one data disk (`RdpStore.StoredSurvivesTwoLossesIffMirror`), and
  reading a failed Q disk is off by a P block (`Rdp.RdpLayer.Decode`).
- The EVENODD and RDP constructors take any number of data disks. The codes tolerate two
  losses exactly when k is an odd prime, respectively k + 1 is prime.
- MDR-I computes the lists for a repair once. If another disk fails later the old lists are
  used, and the rows that were not read return the block of the first disk (`Mdr1.Mdr1Layer.Decode`).
- RAID-6 divides by the coefficient of the P disk when P is read while P and a data disk have
  failed. The answer is right exactly when the data disk comes right after Q or its block is
  zero (`Raid6.Raid6Layer.RebuildParity`).

## Model

| member | source | states |
|---|---|---|
| Survival.Mdr1ReadsBack | src/coding/coding_mdr1.cc:413-862 | from an empty MDR-I array, after any run of writes and the loss of any one disk, every block that fitted reads back as written, and (total - 2) * len of them fit |
| Survival.EvenoddReadsBack | src/coding/coding_evenodd.cc:250-606 | the same for EVENODD |
| Survival.RdpReadsBack | src/coding/coding_rdp.cc:216-572 | the same for RDP, although its Q is not what the table says |
| Survival.Raid6ReadsBack | src/coding/coding_raid6.cc:152-1074 | from an empty RAID-6 array of 3 to 10 disks, after any run of writes and the loss of any two disks, every block that fitted reads back as written |
| Survival.MbrReadsBack | src/coding/coding_mbr.cc:238-758 | the same for MBR and the loss of any one disk; all mbr_m native blocks of every segment can be used |
| Survival.SrcReadsBack | src/coding/coding_src_rs.cc:61-411 | the same for SRC and the loss of any one disk; all blocks of the data disks but the SRC rows can be used |
| Survival.Mdr1TwoDisksLost | src/coding/coding_mdr1.cc:77-169 | two MDR-I arrays of any length that keep the parity equations and agree on all but any two disks are equal, for every number of disks |
| Survival.EvenoddTwoDisksLost | src/coding/coding_evenodd.cc:95-121 | the same for EVENODD with an odd prime number of data disks |
| Survival.ArraysDetermined | src/coding/coding_mdr1.cc:628-862 | if two disks of a strip are determined by the others, so are two disks of a whole array |
| Failures.Raid6ParityReadWrong | src/coding/coding_raid6.cc:536-667 | four disks, a one on disk 0 of row 1: with disks 0 and 1 lost, the P block of row 1 is read wrong |
| Failures.Mdr1RewriteBreaksParity | src/coding/coding_mdr1.cc:488-610 | releasing the first block of a full array and writing again leaves strips that are not codewords, whatever is written, for every number of disks |
| Failures.EvenoddRewriteBreaksParity | src/coding/coding_evenodd.cc:325-465 | the same for EVENODD |
| Failures.RdpRewriteBreaksParity | src/coding/coding_rdp.cc:291-431 | the same for RDP: the strips are not as encode means to leave them |
| Failures.Mdr1StaleListsReadWrong | src/coding/coding_mdr1.cc:701-738 | disk 0 fails and is read, is replaced, and disk 1 fails: its block in row 1 is read wrong, for every number of data disks from 2 |
| Failures.RdpQReadWrong | src/coding/coding_rdp.cc:534-561 | with the Q disk lost its first block is read wrong when P of the second row is not zero, for every number of data disks from 2 |
| Ncfs.DiskArray.constructor | src/filesystem/filesystem_utils.cc:608-626 | every disk stands at offset 0 with its size free, as the settings are written; that all blocks are zero and no disk has failed is the assumption of the model about a new array |
| Ncfs.DiskArray.Pick | src/coding/coding_mdr1.cc:465-476 | of the disks that have space and are not ahead of disk 0, the one furthest behind, the lowest numbered of these; -1 exactly when there is none |
| Ncfs.DiskArray.HandOut | src/coding/coding_mdr1.cc:488-502 | takes the chosen slot, else the head of the released blocks, else nothing; one block is charged to that disk and the accounts of every other disk stay as they are |
| Ncfs.DiskArray.ChargeParity | src/coding/coding_mdr1.cc:478-486 | only the P and Q accounts change, offset and free size: by one block, and by one strip at the first row of a strip |
| Ncfs.DueSlot | src/coding/coding_mdr1.cc:465-502 | the due slot in offsets and sizes alone: on the disk with space and not ahead of disk 0 that is furthest behind, the lowest numbered of these; only if there is none the head of the released blocks |
| Ncfs.DiskArray.Allocate | src/coding/coding_mdr1.cc:465-502 | one allocation hands out the slot that is due; offset and free size of every disk afterwards, P and Q included, and the list of released blocks; on an array that has never released a block the slot handed out is still zero, so writes are fresh |
| Ncfs.DueInTurn | src/coding/coding_mdr1.cc:465-502 | from empty disks write t goes to disk t mod k, row t / k, until all k disks are full, and no slot is skipped |
| Ncfs.TurnIs | src/coding/coding_mdr1.cc:465-502 | the turn of write t is disk t mod k, row t / k |
| Ncfs.FullInTurn | src/coding/coding_mdr1.cc:465-476 | after k times len writes no disk has space, so the next write goes to a released block |
| Ncfs.DiskArray.SpaceListAdd | src/filesystem/filesystem_utils.cc:416-473 | a released block goes into the list before the first entry on the same or a later disk at a later block, else at the end, stated by disk and block numbers |
| Ncfs.InsertedAt | src/filesystem/filesystem_utils.cc:438-463 | the walk along the list and the insertion before its stopping point give the recursive insertion |
| Ncfs.DiskArray.SetDeviceStatus | src/filesystem/filesystem_utils.cc:558-572 | marks one disk as failed or healthy and no other |
| Ncfs.DiskArray.OneFailure | src/coding/coding_mdr1.cc:682-696 | counting one failed disk, while the one asked for has failed, means that no other has |
| Ncfs.DiskArray.XorRow | src/coding/coding_mdr1.cc:721-729 | the loop over the data and P disks adds exactly the row without the failed disk, and reads no failed disk |
| StripWrite.StoreAt | src/coding/coding_mdr1.cc:504-610 | the P write, the listed Q writes and the data write, taken together, change one strip: the data block is replaced, P gains the new block, each Q block gains it as often as it is listed |
| StripWrite.EncodeWrites | src/coding/coding_mdr1.cc:528-610 | the writes one after the other, a Q block listed twice included, amount to one simultaneous change of the strip |
| StripWrite.PKeptIffFresh | src/coding/coding_mdr1.cc:528-542 | a write keeps P equal to the XOR of the data if and only if the overwritten block was zero, because the old contents are never taken out |
| StripWrite.CodeKeptIffFresh | src/coding/coding_mdr1.cc:551-610 | what a write does to its strip decides whether all strips on the disks stay coded; no other strip changes |
| StripWrite.RowOfOthers | src/coding/coding_evenodd.cc:542-568 | if P is the XOR of the data, each data or P column is the XOR of the others |
| MdrMatrix.IterativeConstructEncodingMatrix | src/coding/coding_mdr1.cc:77-132 | the masks of level k + 1 name exactly the blocks that the block-of-four recursion names, given that the masks of level k do |
| MdrMatrix.EncodingMatrix | src/coding/coding_mdr1.cc:144-169 | for every k the matrix names exactly those blocks; the error exit is taken exactly when k is not positive |
| MdrMatrix.LastDataMask | src/coding/coding_mdr1.cc:108-116 | the last data column names one block of the bottom half for a top row and nothing for a bottom row |
| MdrMatrix.ParityMask | src/coding/coding_mdr1.cc:117-125 | P is named once for a bottom row, in the top half, and not for a top row |
| MdrMatrix.CombinedMask | src/coding/coding_mdr1.cc:98-107 | shifting and XORing two masks of the level below gives the mask whose bits are the symmetric difference, in the right half |
| MdrCode.NamedSplit | src/coding/coding_mdr1.cc:98-107 | over a data column a row reads only its own half, where it reads what the level below reads in that column and in P |
| MdrCode.QSplit | src/coding/coding_mdr1.cc:98-125 | the Q value of a row is the Q value of the half strip one level down, plus at most one block from outside the half |
| MdrCode.HalfSameQ | src/coding/coding_mdr1.cc:98-125 | two strips with equal Q have halves with equal Q if and only if they agree on the blocks read from outside the half |
| MdrCode.HalfOfLost | src/coding/coding_mdr1.cc:98-125 | a lost data column together with lost P is determined half by half, by induction over the builder |
| MdrCode.LostDataAndP | src/coding/coding_mdr1.cc:77-169 | a data column and P lost together are determined by the other data and Q |
| MdrCode.LostTwoData | src/coding/coding_mdr1.cc:77-169 | two data columns lost together are determined by the other data, P and Q |
| MdrCode.AnyTwoColumnsLost | src/coding/coding_mdr1.cc:77-169 | for every k, two strips that satisfy the P and Q equations and agree on all but any two of the k + 2 columns are equal: the code is RAID-6 |
| MdrRepair.HalfIsRead | src/coding/coding_mdr1.cc:235-288 | for every k and every failed data or P disk exactly 2^(k-1) of the 2^k rows are read, and the list of rows to read has that length |
| MdrRepair.OneUnread | src/coding/coding_mdr1.cc:348-383 | of all that the Q equation of a read row names, exactly one block is in an unread row, and it belongs to the failed disk |
| MdrRepair.NamedReadIsExact | src/coding/coding_mdr1.cc:348-383 | the list for a row and a column holds exactly the blocks that the row names and that are read |
| MdrRepair.NamedListIsExact | src/coding/coding_mdr1.cc:199-216 | the list for a Q block and a column holds exactly the blocks that its row names, in order and each once |
| MdrRepair.SolvesBijection | src/coding/coding_mdr1.cc:348-383 | the map from read rows to the block each one solves for is a bijection onto the unread rows, with the inverse given |
| MdrRepair.ReadRowRebuilds | src/coding/coding_mdr1.cc:718-730 | in a read row the lost block is the XOR of the other data and P blocks |
| MdrRepair.QRowRebuilds | src/coding/coding_mdr1.cc:731-843 | in an unread row the lost block is the XOR of the Q block and the read blocks that its Q equation names |
| MdrMatrix.StripeIndexsInternal | src/coding/coding_mdr1.cc:235-287 | the recursion returns, in order and each once, the rows that are read, numbered from one |
| MdrMatrix.StripeIndexs | src/coding/coding_mdr1.cc:291-302 | the same rows numbered from zero |
| MdrStore.OverwriteKeepsCodeIffFresh | src/coding/coding_mdr1.cc:173-195 | a row reached both directly and through P is updated twice and cancels; the strip stays a codeword if and only if the overwritten block was zero |
| MdrStore.WriteKeepsCodeIffFresh | src/coding/coding_mdr1.cc:504-610 | the same for all strips on the disks |
| MdrStore.EmptyIsCoded | src/coding/coding_mdr1.cc:413-626 | empty disks hold codewords, so the invariant of encode has a start |
| MdrStore.ParityAddedAt | src/coding/coding_mdr1.cc:528-610 | each P and Q block after a write, by the numbers of its row: a Q block whose row names both the data block and the P block is left as it was |
| Mdr1.Mdr1Layer.constructor | src/coding/coding_mdr1.cc:398-406 | sets up the matrix for the number of data disks, with no cached lists |
| Mdr1.Mdr1Layer.MarkedIsNamed | src/coding/coding_mdr1.cc:182-192 | testing bit strip_size - t - 1 of a mask asks whether the row names block t |
| Mdr1.Mdr1Layer.FindQBlocksId | src/coding/coding_mdr1.cc:173-195 | each Q row is listed once for naming the data block and once for naming the P block of its row, and no other row is listed |
| Mdr1.Mdr1Layer.RepairQDiskBlocksId | src/coding/coding_mdr1.cc:199-216 | the lists of blocks that a Q block is the XOR of, column by column |
| Mdr1.Mdr1Layer.NonstripeIndexsBlocksNo | src/coding/coding_mdr1.cc:335-385 | every unread block gets the lists of read blocks that rebuild it, Q block last; the error exit is unreachable |
| Mdr1.Mdr1Layer.Store | src/coding/coding_mdr1.cc:504-610 | one data block changes and no other; P gains the new block, and so do exactly the Q blocks whose row names one of the data block and its P block; the strips stay codewords if and only if the overwritten block was zero |
| Mdr1.Mdr1Layer.Encode | src/coding/coding_mdr1.cc:413-626 | the slot is the one that is due, and the accounts of all disks afterwards; every data, P and Q block afterwards, whatever was overwritten; on fresh blocks every strip keeps P and Q; on any block exactly when the old contents are zero |
| Mdr1.Mdr1Layer.WriteAll | src/coding/coding_mdr1.cc:413-626 | any run of encodes on empty disks: write t lands in its turn, every block written is still there at the end, no other data block has changed, and every strip is a codeword |
| Mdr1.Mdr1Layer.Decode | src/coding/coding_mdr1.cc:628-862 | the lost data or P block is rebuilt from the other disks in both kinds of rows. With lists cached for another disk e, the rows not read return the block of e. A failed Q disk yields zero; more than one failed disk is an error |
| Mdr1.Mdr1Layer.ReadRows | src/coding/coding_mdr1.cc:945-967 | the buffer gets exactly the listed rows of the surviving disks, and nothing else is read |
| Mdr1.Mdr1Layer.RebuildReadRows | src/coding/coding_mdr1.cc:969-1012 | the lost column is right in every row that was read |
| Mdr1.Mdr1Layer.ChgBlkIndexOffset | src/coding/coding_mdr1.cc:320-332 | the position of a row in the buffer; -1 exactly when it is not there |
| Mdr1.Mdr1Layer.AddBuffered | src/coding/coding_mdr1.cc:1039-1063 | every listed row is in the buffer, so the error exit is unreachable, and their XOR is added |
| Mdr1.Mdr1Layer.RecoverOneStripeGroup | src/coding/coding_mdr1.cc:864-1132 | returns exactly the lost column of the strip for a data, P or Q disk, and reads only half of the rows of each survivor for data and P; a healthy disk is copied, more than one failed disk is an error; with lists of another disk it returns that disk where rows were not read |
| Mdr1.Mdr1Layer.RebuildQ | src/coding/coding_mdr1.cc:1098-1111 | rebuilding a Q block from the matrix gives the stored one |
| Mdr1.Mdr1Layer.RecoverOneDisk | src/utility/recovery.cc:597-662 | strip by strip the new device becomes the lost disk, reading only the rows that the recursion selects; with the lists of another disk the rows not read become that disk |
| EvenoddCode.QSum | src/coding/coding_evenodd.cc:200-230 | in a stripe that is zero outside two columns a Q row is the terms the two columns share with all rows plus their own diagonal entries |
| EvenoddCode.QCount | src/coding/coding_evenodd.cc:200-230 | Q row l lists data cell (i, j) once if i + j == k - 1 and once if (i + j) mod k == l, so twice if both hold |
| EvenoddCode.TwoDataSteps | src/coding/coding_evenodd.cc:200-230 | two lost data columns of a zero-P stripe are equal and step by a fixed amount round Z_k |
| EvenoddCode.LostDataAndP | src/coding/coding_evenodd.cc:200-230 | a data column and P lost together are determined, for every k |
| EvenoddCode.AnyTwoColumnsLost | src/coding/coding_evenodd.cc:95-121 | for every odd prime k two codewords that agree on all but any two columns are equal |
| EvenoddCode.SurvivesTwoLossesIffOddPrime | src/coding/coding_evenodd.cc:38-54 | the constructor takes any k, but the code survives every two losses if and only if k is an odd prime |
| EvenoddCode.DivisorCodeword | src/coding/coding_evenodd.cc:38-54 | for a proper divisor g of k two different codewords agree on all but columns 0 and g |
| EvenoddCode.TwoColumnCodeword | src/coding/coding_evenodd.cc:38-54 | the same for k = 2 |
| Evenodd.ElemsRelatedElems | src/coding/coding_evenodd.cc:179-232 | the table counts for every data cell and every parity cell, in both directions: P cell i lists the data cells of row i once; Q cell l lists data cell (i, j) once if i + j == k - 1 and once if (i + j) mod k == l |
| ParityStripe.ParityMatrix.GenP | src/coding/coding_evenodd.cc:95-101 | each P cell gains the XOR of its data row; nothing else changes |
| ParityStripe.ParityMatrix.GenQ | src/coding/coding_evenodd.cc:113-121 | each Q cell gains the XOR of the cells listed for it; nothing else changes |
| ParityStripe.ParityMatrix.Fill | src/coding/coding_evenodd.cc:78-85 | the data columns are set cell by cell; P and Q stay as they were |
| ParityStripe.ParityMatrix.Repair | src/coding/coding_evenodd.cc:123-150 | the column that one disk must hold; empty for an unknown disk |
| Evenodd.Generate | src/coding/coding_evenodd.cc:95-121 | gen_p and then gen_q on a stripe with zero P and Q give a codeword with the same data |
| Evenodd.RepairDisk | src/coding/coding_evenodd.cc:123-150 | repairing any one disk of a generated stripe returns that disk |
| Evenodd.NewStripe | src/coding/coding_evenodd.cc:38-54 | a stripe of zeros with the relation table of its code |
| Evenodd.StripeComesBack | src/coding/coding_evenodd.cc:78-150 | a new stripe is filled and generated: the data is kept, the parities are right, and repairing any one disk returns it |
| Evenodd.OverwriteKeepsCodeIffFresh | src/coding/coding_evenodd.cc:388-447 | updating the related Q blocks keeps the strip equal to what gen_p and gen_q give, if and only if the overwritten block was zero |
| Evenodd.WriteKeepsCodeIffFresh | src/coding/coding_evenodd.cc:336-465 | the same for all strips on the disks |
| Evenodd.EmptyIsCoded | src/coding/coding_evenodd.cc:250-470 | empty disks hold codewords |
| Evenodd.EvenoddLayer.constructor | src/coding/coding_evenodd.cc:38-54 | sets up the relation table |
| Evenodd.EvenoddLayer.FindQBlocksId | src/coding/coding_evenodd.cc:234-248 | each Q row is listed as often as its equation lists the data cell: the two directions of the table agree |
| Evenodd.EvenoddLayer.Store | src/coding/coding_evenodd.cc:336-465 | one data block changes and no other; P of its row gains the new block, and so do exactly the Q blocks that list the data block an odd number of times; the strips stay codewords if and only if the overwritten block was zero |
| Evenodd.EvenoddLayer.Encode | src/coding/coding_evenodd.cc:250-470 | the slot is the one that is due, and the accounts of all disks afterwards; every data, P and Q block afterwards, whatever was overwritten; on fresh blocks every strip keeps P and Q |
| Evenodd.EvenoddLayer.WriteAll | src/coding/coding_evenodd.cc:250-470 | any run of encodes on empty disks leaves every block written in its turn and every strip a codeword |
| Evenodd.EvenoddLayer.Decode | src/coding/coding_evenodd.cc:476-606 | with one failed disk, data, P or Q, the lost block is returned; with more it is an error |
| Evenodd.EvenoddLayer.RebuildQ | src/coding/coding_evenodd.cc:568-595 | the cells listed for a Q block XOR to the stored one |
| Rdp.ElemsRelatedElems | src/coding/coding_rdp.cc:154-198 | the table counts for every cell and every parity cell, in both directions: P cell i lists the data cells of row i once; Q cell l lists the data or P cell (i, j) once if (i + j) mod (k + 1) == l, else not |
| RdpCode.DiagonalSteps | src/coding/coding_rdp.cc:168-196 | two lost columns are equal along every diagonal step except across the diagonal that has no Q block |
| RdpCode.QCount | src/coding/coding_rdp.cc:168-196 | Q row l lists cell (i, j), P column included, exactly if (i + j) mod (k + 1) == l, and then once |
| RdpCode.LostBeforeQ | src/coding/coding_rdp.cc:168-196 | two lost columns among data and P are determined when k + 1 is prime |
| RdpCode.AnyTwoColumnsLost | src/coding/coding_rdp.cc:96-122 | for every k with k + 1 prime two codewords that agree on all but any two columns are equal |
| RdpCode.SurvivesTwoLossesIffPrime | src/coding/coding_rdp.cc:38-55 | the constructor takes any k, but the code survives every two losses if and only if k + 1 is prime |
| RdpCode.DivisorCodeword | src/coding/coding_rdp.cc:38-55 | for a proper divisor g of k + 1 two different codewords agree on all but columns 0 and g |
| Rdp.Generate | src/coding/coding_rdp.cc:96-122 | gen_p and then gen_q on a stripe with zero P and Q give an RDP codeword with the same data |
| Rdp.RepairDisk | src/coding/coding_rdp.cc:124-151 | repairing any one disk of a generated stripe returns that disk |
| Rdp.NewStripe | src/coding/coding_rdp.cc:38-55 | a stripe of zeros with the relation table of its code |
| Rdp.StripeComesBack | src/coding/coding_rdp.cc:79-151 | a new stripe is filled and generated: the data is kept, the parities are right, and repairing any one disk returns it |
| RdpStore.StoredIsCodewordIff | src/coding/coding_rdp.cc:354-413 | what encode leaves on disk is RDP if and only if the P blocks that lie on diagonals are zero, because encode never adds P to Q |
| RdpStore.OverwriteKeepsStoredIffFresh | src/coding/coding_rdp.cc:354-413 | a write keeps the strip as encode means to leave it if and only if the overwritten block was zero |
| RdpStore.UnseenBlock | src/coding/coding_rdp.cc:168-196 | a stored strip that differs from the empty one only in data disk 1 and P |
| RdpStore.StoredSurvivesTwoLossesIffMirror | src/coding/coding_rdp.cc:216-436 | what encode leaves on disk survives every two losses only with one data disk, whatever k is |
| Rdp.RdpLayer.constructor | src/coding/coding_rdp.cc:38-55 | sets up the relation table |
| Rdp.RdpLayer.FindQBlocksId | src/coding/coding_rdp.cc:200-214 | each Q row is listed as often as its diagonal lists the data cell |
| Rdp.RdpLayer.Store | src/coding/coding_rdp.cc:302-431 | one data block changes and no other; P of its row gains the new block, and so does exactly the Q block of its diagonal; the strips stay as encode means to leave them if and only if the overwritten block was zero |
| Rdp.RdpLayer.Encode | src/coding/coding_rdp.cc:216-436 | the slot is the one that is due, and the accounts of all disks afterwards; every data, P and Q block afterwards, whatever was overwritten; on fresh blocks every strip keeps the equations without P in Q |
| Rdp.RdpLayer.WriteAll | src/coding/coding_rdp.cc:216-436 | any run of encodes on empty disks leaves every block written in its turn and every strip as encode means to leave it |
| Rdp.RdpLayer.Decode | src/coding/coding_rdp.cc:442-572 | with one failed data or P disk the lost block is returned. For Q the answer is right in the last row of a strip and is off by the P block of the next row in every other one |
| Rdp.RdpLayer.RebuildQ | src/coding/coding_rdp.cc:534-561 | the same for one Q block of a strip |
| Rdp.WriteKeepsStoredIffFresh | src/coding/coding_rdp.cc:302-431 | the same as the strip lemma for all strips on the disks |
| Rdp.EmptyIsCoded | src/coding/coding_rdp.cc:216-436 | empty disks are as encode leaves them |
| GaloisField.StepInjective | src/jerasure/galois.c:302-307 | with an odd polynomial one shift with reduction loses nothing, for any width |
| GaloisField.MulAssoc | src/jerasure/galois.c:292-320 | shift multiplication is associative |
| GaloisField.MulComm | src/jerasure/galois.c:292-320 | shift multiplication is commutative although its two factors are treated differently |
| GaloisField.MulLeft | src/jerasure/galois.c:309-319 | shift multiplication distributes over XOR in its left factor |
| GaloisField.MulRight | src/jerasure/galois.c:299-308 | shift multiplication distributes over XOR in its right factor |
| GaloisField.MulModulus | src/jerasure/galois.c:302-307 | multiplying by the whole reduction polynomial gives zero |
| GaloisField.ReducedProductIsUnique | src/jerasure/galois.c:292-320 | a polynomial product has only one remainder that is a word |
| GaloisField.MulIsReducedProduct | src/jerasure/galois.c:292-320 | shift multiplication returns the remainder of the polynomial product by the reduction polynomial, and nothing else is that remainder |
| GaloisTables.ShiftMultiply | src/jerasure/galois.c:292-320 | the loop over bits computes the same product for all words of any width |
| GaloisTables.AddBits | src/jerasure/galois.c:312-316 | adding the masked bits one by one adds the whole word |
| GaloisTables.EveryWordIsPower | src/jerasure/galois.c:173-184 | by counting: when the powers of x below 2^w - 1 are all different, every nonzero word is one of them |
| GaloisTables.FullCircle | src/jerasure/galois.c:185-189 | and the powers then repeat with period 2^w - 1, so the replicated table is right |
| GaloisTables.CreateLogTables | src/jerasure/galois.c:152-191 | completes exactly when x is primitive, and then log and ilog are inverse and ilog holds three periods; widths above 30 are refused |
| GaloisTables.LogtableMultiply | src/jerasure/galois.c:193-203 | equals the shift product for all words |
| GaloisTables.LogtableDivide | src/jerasure/galois.c:205-216 | the one word whose product with y is x; -1 exactly for y = 0 |
| GaloisTables.MulCancel | src/jerasure/galois.c:205-216 | with x primitive, products by a nonzero word are different |
| GaloisTables.Inverse | src/jerasure/galois.c:205-216 | with x primitive every nonzero word has an inverse |
| GaloisSplit.ShiftedBytes | src/jerasure/galois.c:773-787 | the product of two shifted bytes depends only on the sum of their positions |
| GaloisSplit.CreateSplitW8Tables | src/jerasure/galois.c:757-790 | each of the seven tables holds that product for all pairs of bytes |
| GaloisSplit.SplitW8Multiply | src/jerasure/galois.c:792-810 | the XOR of sixteen table entries equals the shift product for all 32-bit words |
| BinaryMatrix.Pivot | src/jerasure/galois.c:567-575 | finds a pivot row exactly when there is one, and keeps the record of row operations |
| BinaryMatrix.Clear | src/jerasure/galois.c:577-583 | makes one more column triangular and keeps the record of row operations |
| BinaryMatrix.StuckIsSingular | src/jerasure/galois.c:567-572 | if no pivot is left the matrix is singular: solving upwards gives a vector in its kernel |
| BinaryMatrix.Substitute | src/jerasure/galois.c:586-595 | back substitution without updating the matrix still turns every row of the inverse into a combination that gives a unit vector |
| BinaryMatrix.InverseMeansNonsingular | src/jerasure/galois.c:551-596 | a matrix that has an inverse has a trivial kernel |
| BinaryMatrix.InvertBinaryMatrix | src/jerasure/galois.c:551-596 | completes exactly for nonsingular matrices of any size, and the rows returned combine the original matrix into the identity |
| BinaryMatrix.InvertibleShifts | src/jerasure/galois.c:606-621 | if y has an inverse its shifts are independent |
| BinaryMatrix.ShiftInverse | src/jerasure/galois.c:606-626 | completes exactly when y has an inverse, and z times y is 1; with x primitive that is every nonzero y |
| GaloisByte.ByteFieldIsPrimitive | src/coding/coding_raid6.cc:42-55 | for the polynomial 285 the first 255 powers of x are all different |
| GaloisBlocks.GfGenTables | src/coding/coding_raid6.cc:38-58 | the tables, filled without looking for duplicates, are inverse: every nonzero byte is reached once |
| GaloisBlocks.GfMul | src/coding/coding_raid6.cc:70-88 | the table product is the product in the field |
| GaloisBlocks.GfDiv | src/coding/coding_raid6.cc:100-122 | the quotient times the divisor gives the dividend |
| GaloisBlocks.MulBlock | src/coding/coding_raid6.cc:290-299 | the table product, byte by byte, is the block times the coefficient |
| GaloisBlocks.DivBlock | src/coding/coding_raid6.cc:1041-1045 | dividing every byte by a nonzero coefficient undoes multiplying by it |
| GaloisBlocks.DivUndoesScale | src/coding/coding_raid6.cc:848-852 | dividing a scaled block by its coefficient gives the block back |
| GaloisBlocks.ScaleXor | src/coding/coding_raid6.cc:290-299 | multiplying by a byte distributes over the XOR of blocks |
| GaloisBlocks.ScaleSum | src/coding/coding_raid6.cc:899-900 | a block times the XOR of two coefficients is the XOR of its multiples |
| GaloisBlocks.ScaleInjective | src/coding/coding_raid6.cc:848-852 | multiplying by a nonzero byte loses nothing |
| Raid6Code.WeightsDiffer | src/coding/coding_raid6.cc:275-287 | two data disks of a row have different coefficients, for 3 to 10 disks |
| Raid6Code.ParityRotates | src/coding/coding_raid6.cc:184-192 | Q begins on the last disk and moves one disk to the left from row to row, from disk 0 to the last, and P of a row is where Q of the next row is |
| Raid6Code.PlaceCounts | src/coding/coding_raid6.cc:275-284 | the place of a data disk is the number of data disks before it in the row |
| Raid6Code.WeightIs | src/coding/coding_raid6.cc:126-141 | the coefficient of a data disk is 2^(n - 3 - p) for p data disks before it |
| Raid6Code.CodeIsPlaceSum | src/coding/coding_raid6.cc:275-299 | Q of a coded row is the XOR over the places p of 2^(n - 3 - p) times the block at place p |
| Raid6Code.QUpdatedWhenCoded | src/coding/coding_raid6.cc:250-313 | when one data block with p data disks before it changes, Q gains 2^(n - 3 - p) times the change; if the other data blocks are zero, Q is 2^(n - 3 - p) times the new block |
| Raid6Code.DataDisk | src/coding/coding_raid6.cc:275-284 | every place among the data disks of a row is taken by one disk |
| Raid6Code.LostFromParity | src/coding/coding_raid6.cc:441-478 | any block but Q is the XOR of the other blocks but Q |
| Raid6Code.LostFromCode | src/coding/coding_raid6.cc:769-852 | Q and the other data leave the lost data block times its coefficient |
| Raid6Code.LostPair | src/coding/coding_raid6.cc:868-1045 | P and Q solve for two lost data blocks, because the sum of their coefficients is not zero |
| Raid6Code.AnyTwoDisksLost | src/coding/coding_raid6.cc:250-322 | two coded rows that agree on all but any two disks are equal |
| Raid6Alloc.StepStands | src/coding/coding_raid6.cc:184-192 | stepping each disk past at most one parity slot never passes a free data slot, and clears the parity slots of the row being filled |
| Raid6Alloc.DueWhenDealt | src/coding/coding_raid6.cc:184-232 | the disk chosen is the one with the next place of the row being filled |
| Raid6Alloc.DueInRotation | src/coding/coding_raid6.cc:184-232 | from empty disks write t goes to row t / (n - 2), data place t mod (n - 2), until all rows are full, and then to none; no parity slot is handed out and no data slot is skipped |
| Raid6Alloc.RotatingTurnIs | src/coding/coding_raid6.cc:184-232 | the turn of write t is the disk of row t / (n - 2) with t mod (n - 2) data disks before it |
| Raid6Alloc.NoneWhenFull | src/coding/coding_raid6.cc:184-222 | when all rows are full no disk has space, however often the offsets are stepped on |
| Raid6Alloc.EmptyIsDealt | src/coding/coding_raid6.cc:184-232 | empty disks are where that invariant starts |
| Raid6.Raid6Layer.constructor | src/coding/coding_raid6.cc:23-28 | the tables are inverse |
| Raid6.Raid6Layer.StepOffsets | src/coding/coding_raid6.cc:184-192 | every disk that stands on a parity slot moves on by one, and no other |
| Raid6.Raid6Layer.Allocate | src/coding/coding_raid6.cc:184-232 | the slot handed out is the one that is due after stepping; offset and free size of every disk and the list of released blocks afterwards |
| Raid6.Raid6Layer.ComputeParity | src/coding/coding_raid6.cc:250-313 | P and Q of a row from its data blocks |
| Raid6.Raid6Layer.Store | src/coding/coding_raid6.cc:224-337 | the row is coded afterwards whatever it held before, and no other data block changes; Q gains 2^(n - 3 - p) times the change, for p data disks before the one written, and is 2^(n - 3 - p) times the block if the others are zero |
| Raid6.Raid6Layer.Encode | src/coding/coding_raid6.cc:152-343 | the slot is the one that is due after stepping, and the accounts of all disks afterwards; Q changes as for a single write; all rows stay coded |
| Raid6.Raid6Layer.WriteAll | src/coding/coding_raid6.cc:152-343 | any run of encodes on empty disks: write t lands in its turn until the array is full, every block written is still there, every row is coded |
| Raid6.Raid6Layer.SolveForPair | src/coding/coding_raid6.cc:868-1059 | the lost data block when another data disk has failed as well |
| Raid6.Raid6Layer.RebuildParity | src/coding/coding_raid6.cc:536-667 | with P and a data disk failed, the P returned is right if and only if the data disk comes right after Q or its block is zero: the code divides by the coefficient of the P disk |
| Raid6.Raid6Layer.FindFailed | src/coding/coding_raid6.cc:428-438 | the number of failed disks and the other one of two |
| Raid6.Raid6Layer.Decode | src/coding/coding_raid6.cc:357-1060 | returns the stored block with up to two failed disks in every case but reading P after P and a data disk failed, where it is right exactly under the condition above; three failed disks are an error |
| Raid6.EmptyIsCoded | src/coding/coding_raid6.cc:152-343 | empty rows are coded |
| CacheBuffer.Buffer.constructor | src/cache/cache_buffer.cc:36-48 | an empty buffer shows the file |
| CacheBuffer.Buffer.FetchOnePage | src/cache/cache_buffer.cc:292-306 | one page becomes available, its bytes read from the file unless they will be overwritten; fetched pages are left alone |
| CacheBuffer.Buffer.FetchPages | src/cache/cache_buffer.cc:277-290 | a range of pages becomes available, and no other |
| CacheBuffer.Buffer.CheckAvailability | src/cache/cache_buffer.cc:239-257 | exactly the pages that a request touches are fetched; a page not there before is read from the file, unless the request will overwrite all of it, and nothing else in the buffer changes |
| CacheBuffer.Buffer.ReadFromBuffer | src/cache/cache_buffer.cc:50-65 | all the bytes asked for, or those up to the end of the range if it ends before, each as clients see it at its address; nothing they see changes; unavailable exactly outside the range |
| CacheBuffer.Buffer.WriteToBuffer | src/cache/cache_buffer.cc:67-92 | all the bytes given are stored, or those up to the end of the range, and the count says so; clients see them at their addresses and otherwise what they saw, and the buffer is marked dirty; unavailable exactly outside the range |
| CacheBuffer.Buffer.DoWriteBack | src/cache/cache_buffer.cc:124-188 | the file becomes what clients see, nothing outside the range changes, every block is clean |
| CacheBuffer.Buffer.ClearContent | src/cache/cache_buffer.cc:216-226 | clients see the file again |
| CacheBuffer.Buffer.DoPrefetch | src/cache/cache_buffer.cc:190-195 | the buffer moves to the range that starts at offset / bufferSize * bufferSize; clients see the file, which is what they saw if the buffer was clean |
| CacheBuffer.Buffer.Serve | src/cache/cache_buffer.cc:50-195 | one request, a read, a write, a write-back or a move to another range, is answered as the plain file would |
| CacheBuffer.Buffer.Run | src/cache/cache_buffer.cc:50-195 | any run of reads, writes, write-backs and moves between ranges is answered as the plain file would, and after a last write-back the file is what it would have been; a read right after a write of the same bytes in the range last moved to answers just those bytes |
| CacheBuffer.LastWriteStands | src/cache/cache_buffer.cc:67-92 | after any run of requests a byte is that of the last write that covers it, if the range of that write had it |
| CacheBuffer.UnwrittenStands | src/cache/cache_buffer.cc:67-92 | a byte that no write covers is never changed |
| CacheBuffer.LastMoveStands | src/cache/cache_buffer.cc:190-195 | requests are served in the range of the last move, and in no other |
| MbrAddress.FindBlockId | src/coding/coding_mbr.cc:73-97 | the block shared by a disk and the disk that the row stands for, whose first copy is there; -1 exactly when the row holds a second copy |
| MbrAddress.FindDupBlockId | src/coding/coding_mbr.cc:108-133 | the block whose second copy is there; -1 exactly when the row holds a first copy |
| MbrAddress.GetDiskId | src/coding/coding_mbr.cc:144-159 | the disk of the first copy; the loop ends for every id of the segment |
| MbrAddress.GetBlockNo | src/coding/coding_mbr.cc:171-183 | the row of the first copy: one less than the disk of the second copy |
| MbrAddress.GetDupDiskId | src/coding/coding_mbr.cc:194-209 | the disk of the second copy |
| MbrAddress.RoundTrip | src/coding/coding_mbr.cc:73-228 | looking up the addresses computed for a block gives the block, for both copies and in every segment |
| MbrAddress.SharedBlock | src/coding/coding_mbr.cc:73-228 | every two distinct disks share exactly one block |
| MbrAddress.PairIdValue | src/coding/coding_mbr.cc:73-133 | blocks are numbered by the disk of their first copy and then by that of their second: twice the number of the block of disks d < e is d (2 s - d + 1) + 2 (e - 1 - d) |
| MbrAddress.Parameters | src/coding/coding_mbr.cc:33-42 | native and coded blocks add up to the pairs of disks, a segment has n - 1 rows, and there are as many coded blocks as pairs of n - k disks |
| MbrAddress.ErasedFromRow | src/coding/coding_mbr.cc:629-643 | f failed disks lose exactly f (f - 1) / 2 blocks |
| MbrAddress.MarkErased | src/coding/coding_mbr.cc:629-643 | a block is marked exactly when both its disks have failed; with exactly n - k failed disks mbr_c blocks are marked, so any k disks hold mbr_m different ones; with fewer failed disks at most that many |
| Mbr.CopiesApart | src/coding/coding_mbr.cc:360-378 | no two copies of blocks share an address, within a segment or between segments |
| Mbr.UpdateKeepsCode | src/coding/coding_mbr.cc:398-468 | adding the change times its coefficient to every coded block keeps the segment coded |
| Mbr.UpdatedByMatrix | src/coding/coding_mbr.cc:398-468 | coded block m + i has gained the change of native block id times entry i m + id of the matrix |
| Mbr.SegmentUpdatedAt | src/coding/coding_mbr.cc:398-468 | the same for one block of the segment, with the matrix indexed |
| Mbr.MbrLayer.constructor | src/coding/coding_mbr.cc:30-57 | the parameters for n disks |
| Mbr.MbrLayer.WriteBoth | src/coding/coding_mbr.cc:374-379 | both copies of one block change, and no copy of any other |
| MbrAlloc.NativeById | src/coding/coding_mbr.cc:275-276 | the test by block id holds exactly for the first k disks below the diagonal of the segment |
| MbrAlloc.StepStands | src/coding/coding_mbr.cc:274-280 | stepping each disk over at most one slot never passes a native slot that is still free, and clears the other slots of the row being filled |
| MbrAlloc.DueIsPlace | src/coding/coding_mbr.cc:282-296 | the disk chosen has the next native slot; no disk once all rows are full |
| MbrAlloc.DueWhenDealt | src/coding/coding_mbr.cc:273-312 | from empty disks the native slots are handed out row by row and in each row disk by disk, and none is skipped |
| MbrAlloc.DueNativeSlot | src/coding/coding_mbr.cc:282-306 | the due slot in offsets and sizes alone: on the disk on a native slot with space and not ahead of disk 0 that is furthest behind, the lowest numbered of these; only if there is none the head of the released blocks |
| MbrAlloc.SlotsOfSegments | src/coding/coding_mbr.cc:33-42 | every segment has exactly mbr_m native slots |
| Mbr.MbrLayer.StepOffsets | src/coding/coding_mbr.cc:274-280 | every disk that does not stand on a native slot moves on by one, and no other |
| Mbr.MbrLayer.PickNative | src/coding/coding_mbr.cc:282-296 | of the disks that stand on a native slot, have space and are not ahead of disk 0, the one furthest behind, the lowest numbered of these; none only if there is none |
| Mbr.MbrLayer.Allocate | src/coding/coding_mbr.cc:273-306 | the slot handed out is the one that is due after stepping, and it is native; offset and free size of every disk and the list of released blocks afterwards |
| Mbr.MbrLayer.Store | src/coding/coding_mbr.cc:320-479 | every segment stays mirrored and coded whatever was there before, and no other native block changes; coded block m + i gains the change times entry i m + id of the matrix |
| Mbr.MbrLayer.Encode | src/coding/coding_mbr.cc:238-491 | the slot is the one that is due, and the accounts of all disks afterwards; everything stays mirrored and coded, and the coded blocks gain the change times their matrix entries |
| Mbr.MbrLayer.WriteAll | src/coding/coding_mbr.cc:238-491 | any run of encodes on empty disks fills the native slots in order, as many as there are, and every block written is still there |
| Mbr.MbrLayer.UpdateCoded | src/coding/coding_mbr.cc:400-469 | one coded block and its copy gain the change times its coefficient |
| Mbr.MbrLayer.FindOther | src/coding/coding_mbr.cc:587-603 | the address of the other copy |
| Mbr.MbrLayer.Decode | src/coding/coding_mbr.cc:507-758 | with one failed disk the block written is returned, read from the other copy alone |
| Mbr.DifferentSurvivors | src/coding/coding_mbr.cc:587-603 | the blocks that a failed disk has in a segment come from different survivors |
| Mbr.EmptyIsStored | src/coding/coding_mbr.cc:238-491 | empty disks are mirrored and coded |
| LinearCode.CodeSumAdd | src/coding/coding_src_rs.cc:212-256 | adding x to one data block adds x times its coefficient to the coded block |
| LinearCode.CoefficientIs | src/coding/coding_src_rs.cc:212-218 | the coefficient of data block j in coded block i is entry i m + j of the matrix |
| SrcCode.OneDiagonal | src/coding/coding_src_rs.cc:181-184 | every block lies on exactly one diagonal, the one encode computes |
| SrcCode.SrcMember | src/coding/coding_src_rs.cc:181-184 | the SRC block of diagonal c is on disk c |
| SrcCode.LeftMember | src/coding/coding_src_rs.cc:363-370 | the member in the next row of a segment is one disk to the left |
| SrcCode.DifferentDisks | src/coding/coding_src_rs.cc:339-352 | the f + 1 members of a diagonal lie on different disks when f < n |
| SrcCode.LostMember | src/coding/coding_src_rs.cc:354-403 | each member of a diagonal is the XOR of the others |
| SrcCode.PairKeepsDiagonals | src/coding/coding_src_rs.cc:192-210 | adding the same to a block and to its SRC block keeps every diagonal at zero |
| Src.SrcLayer.constructor | src/coding/coding_src_rs.cc:37-51 | sets up n, k, f and the coefficients |
| SrcCode.PhysicalIsRow | src/coding/coding_src_rs.cc:177-184 | logical block b is in row b mod f of segment b / f |
| SrcCode.NextRow | src/coding/coding_src_rs.cc:362-370 | the row after the SRC row begins the next segment, f + 1 rows after the first row of this one |
| SrcCode.WrapMember | src/coding/coding_src_rs.cc:364-370 | the step from the SRC row leads to the first member of the same diagonal |
| SrcAlloc.PhysicalFits | src/coding/coding_src_rs.cc:177-184 | the logical blocks of whole segments lie on the disk and in no SRC row |
| SrcAlloc.DueWhenBalanced | src/coding/coding_src_rs.cc:97-156 | a write finds a disk as long as any data disk has space |
| SrcAlloc.DueInRunsSlot | src/coding/coding_src_rs.cc:97-156 | the due slot in offsets and sizes alone: on the first disk with space inside its run of k - 1 blocks or behind disk 0, else on disk 0, else the head of the released blocks |
| SrcAlloc.DueInOrderOfRuns | src/coding/coding_src_rs.cc:97-156 | from empty disks blocks are dealt out in runs of k - 1, disk after disk, the last round in runs of what is left, and no slot is skipped before the disks are full |
| SrcAlloc.PlaceByDivision | src/coding/coding_src_rs.cc:97-156 | while whole runs are left, write t goes to disk (t / (k - 1)) mod k, logical block (t / (k (k - 1))) (k - 1) + t mod (k - 1) |
| Src.SrcLayer.Pick | src/coding/coding_src_rs.cc:97-146 | the first data disk with space that is inside its run of k - 1 blocks or behind disk 0, else disk 0 if it has space, else none |
| Src.SrcLayer.AddPair | src/coding/coding_src_rs.cc:230-256 | one block and its SRC block change together and every diagonal stays zero |
| Src.SrcLayer.Store | src/coding/coding_src_rs.cc:177-258 | every diagonal stays zero and every row coded whatever was there before, and no other data block changes; the block of RS disk i in the row gains the change times entry i k + d of the matrix |
| Src.SrcLayer.Encode | src/coding/coding_src_rs.cc:61-272 | the slot is the one that is due, and the accounts of all disks afterwards; all diagonals stay zero and all rows coded, and the RS blocks gain the change times their matrix entries |
| Src.RsUpdatedAt | src/coding/coding_src_rs.cc:212-256 | what a write adds to one RS block: nothing outside its row, and in it the change times entry i k + d of the matrix |
| Src.SrcLayer.WriteAll | src/coding/coding_src_rs.cc:61-272 | any run of encodes fills the data disks completely before one is refused, and every block written is still there; from empty disks write t lands in its place in the order of runs |
| Src.SrcLayer.Next | src/coding/coding_src_rs.cc:363-370 | one step of the walk goes to the next member of the same diagonal, from the SRC row back to the first |
| Src.SrcLayer.WalkIsAvailable | src/coding/coding_src_rs.cc:339-352 | the test passes exactly when the disks of all other members can be read |
| Src.SrcLayer.XorWalk | src/coding/coding_src_rs.cc:357-403 | the walk reads exactly the f other members, each once, and their XOR is the lost block |
| Src.SrcLayer.Decode | src/coding/coding_src_rs.cc:286-411 | returns the stored block whenever the disk is healthy or the walk is available, reading exactly the other members |
| Src.SrcLayer.RebuildSrc | src/coding/coding_src_rs.cc:555-588 | walking up the diagonal rebuilds the lost SRC block |
| Src.EmptyIsStored | src/coding/coding_src_rs.cc:61-272 | empty disks are coded |
| CauchyOnes.NOnes | src/jerasure/cauchy.c:75-115 | the running count equals the sum of the ones of n, n x, ..., n x^(w-1) |
| Cauchy.CountOneBits | src/jerasure/cauchy.c:75-115 | the ones counted for a row are the triples of an entry x, a shift b and a bit i for which bit i of x times 2^b is set |
| CauchyOnes.OnesOfXor | src/jerasure/cauchy.c:100-112 | flipping the bits of the reduction polynomial changes the count of ones by one up or down for each |
| CauchyCode.ScalingKeepsSingularity | src/jerasure/cauchy.c:158-192 | scaling rows and columns by nonzero elements leaves a square matrix singular or nonsingular as it was |
| CauchyCode.CauchyKernel | src/jerasure/cauchy.c:117-133 | a square Cauchy matrix sends only the zero vector to zero, by induction on its size |
| CauchyCode.CauchyIsNonsingular | src/jerasure/cauchy.c:117-133 | every square Cauchy matrix is nonsingular |
| Cauchy.ShiftDivide | src/jerasure/galois.c:400-408 | the one word whose product with b is a; -1 exactly for b = 0 |
| Cauchy.OriginalCodingMatrix | src/jerasure/cauchy.c:117-133 | each entry inverts i ^ (m + j); none exactly when the field is too small |
| Cauchy.SubmatricesAreNonsingular | src/jerasure/cauchy.c:117-133 | every square submatrix of that matrix is nonsingular |
| ErasureCode.AnyKDetermine | src/jerasure/cauchy.c:117-133 | with such a matrix any k of the k data words and the words coded from them determine the data |
| ErasureCode.CauchySurvives | src/jerasure/cauchy.c:195-224 | so the optimised matrix survives the loss of any m of the k + m words |
| Cauchy.SubScaled | src/jerasure/cauchy.c:158-192 | scaling leaves every square submatrix singular or nonsingular as it was |
| Cauchy.ScaleColumns | src/jerasure/cauchy.c:158-167 | every column is scaled by a nonzero element and the first row becomes all ones |
| Cauchy.ImproveRow | src/jerasure/cauchy.c:168-192 | the row returned is the row, or the row divided by the first of its entries that leaves the fewest ones, and that only if there are fewer than in the row |
| Cauchy.ImproveRows | src/jerasure/cauchy.c:168-192 | the second pass improves every row but the first and leaves the first alone |
| Cauchy.ImproveCodingMatrix | src/jerasure/cauchy.c:152-193 | the result is the original with rows and columns scaled by nonzero elements, first row all ones; every other row is the column-scaled row, or that row divided by the first of its entries that leaves the fewest ones, fewer than the row has and no more than division by any other entry leaves |
| Cauchy.GoodCodingMatrix | src/jerasure/cauchy.c:195-224 | the optimised matrix still has only nonsingular square submatrices, and every row but the first is the improved row of the Cauchy matrix with divided columns |

## Left out

- Mdr1.Mdr1Layer.Decode: a failed Q disk returns zeros, as the source leaves that case open; `RecoverOneStripeGroup` rebuilds Q.
- Survival.Mdr1ReadsBack: disks of a whole number of strips; on others the source writes Q blocks past the end of the disk.
- Survival.EvenoddReadsBack: disks of a whole number of strips, for the same reason.
- Survival.RdpReadsBack: disks of a whole number of strips, for the same reason.
- Mdr1.Mdr1Layer.constructor: disks of a whole number of strips, for the same reason.
- Evenodd.EvenoddLayer.constructor: disks of a whole number of strips, and at least two data disks; with one the strips are empty and the source divides by zero.
- Rdp.RdpLayer.constructor: disks of a whole number of strips, for the same reason.
- MdrMatrix.EncodingMatrix: the shifts of C `int` constants limit the real k to 4 or 5; masks here are unbounded and the theorems hold for all k.
- Raid6.Raid6Layer.constructor: 3 to 10 disks, because from 11 on the coefficients no longer fit a byte.
- Raid6.Raid6Layer.RebuildParity: P on one of the last two disks is excluded, because the source then shifts 1 by -1.
- Raid6.Raid6Layer.Decode: reading P after P and a data disk failed when P is one of the last two disks is excluded, because the source then shifts 1 by -1.
- Raid6.Raid6Layer.Store: the list of released blocks may hold any slot here; for one that is a parity slot of its row the data is overwritten at once, as in the source, and the contract says only that the row is coded.
- Ncfs.DiskArray.SpaceListAdd: what the file system does before it releases a block is not modelled; writes to released blocks are covered by the exact conditions on fresh blocks, not by `WriteAll`.
- Mbr.MbrLayer.Decode: with both copies lost the source solves with a Jerasure decoding matrix, which is not part of this model; the result here is then an error.
- Src.SrcLayer.Decode: with the walk blocked the source solves with a Jerasure decoding matrix, which is not part of this model; the result here is then an error.
- Src.SrcLayer.constructor: the matrix has n - k rows of k entries; f between 1 and n - 1; with f = 0 the source divides by zero, and from n on a diagonal meets a disk twice.
- Src.SrcLayer.Encode: at least two data disks; with one the source divides by zero.
- Src.SrcLayer.WriteAll: the free size of a disk is the number of its logical blocks; the source takes it from its settings.
- Mbr.MbrLayer.constructor: the coefficients are given, as mbr_c rows of mbr_m entries.
- Cauchy.GoodCodingMatrix: the branch for m = 2 that copies precomputed tables is not modelled.
- CauchyOnes.NOnes: words of at least two bits; for w = 1 the source multiplies by 2, which is not a word.
- GaloisTables.CreateLogTables: allocation failure and the reuse of tables made earlier are not modelled.
- GaloisTables.ShiftMultiply: words are naturals below 2^w; for w = 32 the source keeps them in signed ints.
- CacheBuffer.Buffer.DoWriteBack: disk writes succeed; the source does not look at their result.
- CacheBuffer.Buffer.DoPrefetch: the aligned range lies inside the file.
- Partial blocks: every write is one whole block, and a block is one number instead of a buffer of bytes.
- The RS and MBR coefficients are given: `reed_sol_vandermonde_coding_matrix` is not part of this model.
- The loops of `recover` in the other codes, which call `decode` block by block.
- Several buffers and their flushing, the thread pool, locks, and the installed `NoCache`.
- `coding_raid6_noRotate.cc`, RAID 0, 1, 4, 5 and JBOD, liberation codes, FUSE, storage, network, configuration and timing.

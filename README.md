# SW# database search: result exchange, validation and input preparation

This project models four pieces of sequential logic from SW#, a Smith-Waterman
database aligner, and proves properties about them.

- **Result exchange between nodes** (`swsharpdbmpi`). Each worker node
  serialises its per-query database alignments into one length-prefixed
  message. The master reads every node's message in rank order. Then, for each
  query, it joins the node lists, sorts them by ranking value and keeps the
  first `maxAlignments`. Modules: `Bytes`, `MpiCodec`, `MpiMessage`,
  `MpiGather`.
- **Ranking key** (`swsharpdbmpi`). `eValues` sets the ranking value of a
  database chain to its negated score, so ascending value means descending
  score. Module: `EValue`.
- **Post-processing** (`swsharp`). `checkAlignment` replays a traceback path
  backwards under affine gap penalties. `aligmentStr` turns a path into two
  gapped rows. Module `PostProc` also covers the integer counting loops of
  `outputStat` and `outputDatabaseBlastM8`.
- **Pre-processing** (`swsharp`). It covers:
  - the reverse complement of a nucleotide chain;
  - the single-chain and multi-chain FASTA readers, as character state machines over the file contents;
  - the constant match/mismatch scorer;
  - the dispatch from a table name to a built-in substitution table.

  Module: `PreProc`.

The C code mutates buffers and arrays, and the model keeps that form:

- the writers fill `array`s at a moving write position;
- the buffers grow by `realloc`, modelled as a fresh, larger array holding the same prefix;
- the join copies each node's list into the merged array at a running offset;
- the merged array is sorted in place.

Each method is proved against a specification function, such as `EncodeRecord`, `EncodeMessage`, `DecodeNode`, `Joined`, `ReplayBack`, `Run`/`RunChains` or `Negated`. The lemmas then prove what the source promises about those functions: the round trips, the counts, the top-K contract, block independence and the complement involution.

Conventions:
- A C `int` is a 32-bit two's complement `int32`.
- `sizeof(int)`, `sizeof(float)` and `sizeof(size_t)` are 4, 4 and 8, and fixed-width values are little-endian.
- A byte message is a `seq<byte>`.

## Model

| member | source | states |
|---|---|---|
| Bytes.Int32RoundTrip | swsharpdbmpi/src/mpi_module.c:252-253 | Reading back the four bytes a `memcpy` of an `int` wrote gives the same `int`. |
| Bytes.SizeRoundTrip | swsharpdbmpi/src/mpi_module.c:107-108 | A `size_t` written as eight bytes reads back as the same size. |
| Bytes.CopyInto | swsharpdbmpi/src/mpi_module.c:227 | `memcpy` into an array at an offset: the copied range holds the source, and every other element is unchanged. |
| Bytes.Append | swsharpdbmpi/src/mpi_module.c:227-228 | Copy at `ptr`, then advance `ptr`: the written prefix is the old prefix followed by the source, and the cursor moves by its length. |
| Bytes.Grow | swsharpdbmpi/src/mpi_module.c:202-203 | `realloc` to a larger size: a fresh array of the new size that keeps every old element. |
| MpiCodec.RecordLayout | swsharpdbmpi/src/mpi_module.c:303-351 | Field k of the nine header fields (queryStart, queryEnd, queryIdx, targetStart, targetEnd, targetIdx, score, value, pathLen) occupies bytes 4k..4k+4, and the path bytes follow byte 36. |
| MpiCodec.DbAlignmentToBytes | swsharpdbmpi/src/mpi_module.c:300-352 | The method allocates `size = 8*sizeof(int) + sizeof(float) + pathLen` bytes and fills them with exactly the record encoding. |
| MpiCodec.PutHeader | swsharpdbmpi/src/mpi_module.c:312-348 | The nine field writes starting at `ptr = 0` leave `ptr` at byte 36 with the fields encoded in wire order before it. |
| MpiCodec.PutInt | swsharpdbmpi/src/mpi_module.c:314-316 | One `memcpy` of an `int` at `ptr` followed by `ptr += sizeof(int)`: the written prefix gains exactly the field's four bytes and the cursor moves by four. |
| MpiCodec.PutField | swsharpdbmpi/src/mpi_module.c:314-348 | One field write at `ptr == 4k` extends the encoded prefix from k fields to k+1 fields. |
| MpiCodec.HeaderRead | swsharpdbmpi/src/mpi_module.c:249-285 | The reader's nine field reads are the `int`s at byte offsets 0, 4, …, 32, and the path starts after them. |
| MpiCodec.DbAlignmentFromBytes | swsharpdbmpi/src/mpi_module.c:246-298 | The method reads the fields at a moving read position and copies the path out. Its result is exactly `DecodeRecord`, including the error cases. |
| MpiCodec.ReadRoundTrip | swsharpdbmpi/src/mpi_module.c:246-352 | Decoding an encoded record, followed by any bytes, gives the record back when its query and target indices are in range, and `IndexOutOfRange` otherwise. |
| MpiCodec.RecordRoundTrip | swsharpdbmpi/src/mpi_module.c:246-352 | With in-range indices, every field and the path bytes survive the round trip. |
| MpiCodec.BadIndexRefused | swsharpdbmpi/src/mpi_module.c:290-291 | A record whose `queryIdx` or `targetIdx` lies outside the collections is refused rather than used as an index. |
| MpiCodec.ShortHeader | swsharpdbmpi/src/mpi_module.c:252-285 | Fewer bytes than the header fields still to read make the record `Truncated`. |
| MpiMessage.SendMpiData | swsharpdbmpi/src/mpi_module.c:184-231 | The final buffer holds exactly the message encoding. It states the following: (1) `realSize` equals the message length and the sum of sizes; (2) after the last growth check, `realSize < bufferSize <= realSize + 4096`. |
| MpiMessage.AppendRecords | swsharpdbmpi/src/mpi_module.c:209-229 | The inner loop appends the entries of one query. Afterwards the cursor equals `realSize`, the capacity invariant holds, and the buffer gained exactly their encoding. |
| MpiMessage.AppendRecord | swsharpdbmpi/src/mpi_module.c:214-228 | One record adds `sizeof(size_t)` plus its size to `realSize`, grows the buffer when needed, and appends the size followed by the record. |
| MpiMessage.Reserve | swsharpdbmpi/src/mpi_module.c:201-204 | When `realSize >= bufferSize` the capacity becomes `realSize + 4096`; otherwise it is unchanged. The written prefix is kept either way. |
| MpiMessage.MessageLength | swsharpdbmpi/src/mpi_module.c:197-230 | The message length is the sum over queries of `sizeof(int)` plus, for each record, `sizeof(size_t)` plus the record size. |
| MpiMessage.ListLength | swsharpdbmpi/src/mpi_module.c:209-229 | One query's entries take, per record, `sizeof(size_t)` plus the record size. |
| MpiMessage.ListSnoc | swsharpdbmpi/src/mpi_module.c:224-228 | Appending a record to a list appends its size and its bytes to the list's encoding. |
| MpiMessage.MessageSnoc | swsharpdbmpi/src/mpi_module.c:197-230 | Appending a query appends its count and its entries to the message. |
| MpiMessage.EntryRoundTrip | swsharpdbmpi/src/mpi_module.c:104-114 | One (size, record) pair reads back as that record, and the reader skips exactly the size it read. |
| MpiMessage.RecordsRoundTrip | swsharpdbmpi/src/mpi_module.c:104-114 | Reading `length` pairs off an encoded list gives the list back, followed by the bytes after it. |
| MpiMessage.QueriesRoundTrip | swsharpdbmpi/src/mpi_module.c:95-118 | Reading the per-query counts and entries off an encoded message gives every query's list back, in order. |
| MpiMessage.MessageRoundTrip | swsharpdbmpi/src/mpi_module.c:93-118 | The master reads back exactly the lists a node sent, for every query in order with the same counts, provided the indices are in range. |
| MpiMessage.DecodeNode | swsharpdbmpi/src/mpi_module.c:93-118 | A decoded node message holds one list per query, and every record's indices resolve in the collections. |
| MpiGather.ReceiveEntry | swsharpdbmpi/src/mpi_module.c:104-114 | One pass of the inner receive loop reads a `size_t` size and the record where it starts, then moves the read position on by that size. It agrees with the first step of `DecodeEntries`, including its errors. |
| MpiGather.ReceiveRecords | swsharpdbmpi/src/mpi_module.c:104-114 | The inner receive loop reads `length` entries at a moving position. Its result and the unread bytes are those of `DecodeRecords`. |
| MpiGather.ReceiveQuery | swsharpdbmpi/src/mpi_module.c:97-117 | One pass of the outer receive loop reads the `int` count and then that many entries, agreeing with `DecodeLists`. |
| MpiGather.ReceiveNode | swsharpdbmpi/src/mpi_module.c:93-118 | The receive phase for one node equals `DecodeNode` of its message. |
| MpiGather.ErrorPersists | swsharpdbmpi/src/mpi_module.c:85-119 | Once a node's message cannot be read, reading further nodes' messages does not change the outcome. |
| MpiGather.DecodeAllNodes | swsharpdbmpi/src/mpi_module.c:85-119 | All messages decode exactly when each does, and node n's lists are `DecodeNode` of message n. |
| MpiGather.GatherRoundTrip | swsharpdbmpi/src/mpi_module.c:85-119 | The master reads back every node's lists exactly as the nodes sent them. |
| MpiGather.JoinedMembers | swsharpdbmpi/src/mpi_module.c:129-146 | An alignment is in query q's joined list exactly when some node's list for q contains it. |
| MpiGather.JoinedPrefix | swsharpdbmpi/src/mpi_module.c:138-146 | The nodes before rank j contribute a prefix of the joined list. The running offset is that prefix's length. |
| MpiGather.JoinQuery | swsharpdbmpi/src/mpi_module.c:129-146 | The two passes (length sum, then copy at the running offset) build an array holding the node lists concatenated in rank order. |
| MpiGather.DbAlignmentCmp | swsharpdbmpi/src/mpi_module.c:359-370 | The comparator returns -1, 0 or 1, negative exactly when a's value is smaller and positive exactly when it is larger. |
| MpiGather.SortByValue | swsharpdbmpi/src/mpi_module.c:149 | The in-place sort leaves the array in ascending order of value and a permutation of its old contents. |
| MpiGather.Sink | swsharpdbmpi/src/mpi_module.c:149 | One insertion step extends the sorted prefix by one element and preserves the multiset. |
| MpiGather.Exchange | swsharpdbmpi/src/mpi_module.c:149 | Swapping two entries exchanges exactly those two and keeps the same alignments. |
| MpiGather.TopOfSorted | swsharpdbmpi/src/mpi_module.c:151-159 | The first min(length, maxAlignments) entries of a sorted permutation of the joined list are its top: sorted, of that length, drawn from the joined list, and ranked no later than any dropped entry. |
| MpiGather.KeptBeforeDropped | swsharpdbmpi/src/mpi_module.c:152-159 | In a sorted list, every entry before the cut ranks no later than every deleted entry after it. |
| MpiGather.SplitMultiset | swsharpdbmpi/src/mpi_module.c:154-156 | The deleted entries are exactly the joined multiset minus the kept ones. |
| MpiGather.GatherMpiData | swsharpdbmpi/src/mpi_module.c:58-182 | The result is `Ok` exactly when every message decodes, and it carries the first decoding error otherwise. There is one list per query, and each list is the top `maxAlignments` of the nodes' joined lists. |
| EValue.EValues | swsharpdbmpi/src/evalue.c:41-48 | `values[i] = -scores[i]` for every i below `databaseLen`. Later entries of `values` are unchanged, and `scores` is not written. |
| EValue.CmpPrefersHigherScore | swsharpdbmpi/src/evalue.c:46 | On values set by `eValues`, the comparator orders the higher score first, and ties exactly on equal scores. |
| EValue.SortedByValueIsByScore | swsharpdbmpi/src/mpi_module.c:149 | A list ranked by `eValues` is in ascending value order exactly when it is in descending score order. |
| EValue.NegatedReversesOrder | swsharpdbmpi/src/evalue.c:45-47 | The written values order any two chains in the reverse of their scores. |
| PostProc.CheckAlignment | swsharp/src/post_proc.c:86-167 | Returns true exactly when `Valid` holds, with the query and target ends inside the chains (see Findings). `Valid` requires the ends to be in range, every move to be LEFT, UP or DIAG, the backward affine replay to end just before both start positions, and the replayed score to equal the stored score. |
| PostProc.ReplayIndices | swsharp/src/post_proc.c:119-157 | Replaying n moves lowers the query index by #UP + #DIAG and the target index by #LEFT + #DIAG. |
| PostProc.ValidCounts | swsharp/src/post_proc.c:162-166 | A valid alignment has #UP + #DIAG = queryEnd - queryStart + 1 and #LEFT + #DIAG = targetEnd - targetStart + 1, so its path is never empty. |
| PostProc.OtherRefused | swsharp/src/post_proc.c:154-155 | A path containing any move other than LEFT, UP and DIAG never replays to a result. |
| PostProc.ReplayStaysBelow | swsharp/src/post_proc.c:115-157 | The replayed positions never rise above the end positions the replay starts from. |
| PostProc.DiagBelowStart | swsharp/src/post_proc.c:101-106 | The end check has no lower bound on the replay: an alignment it accepts can reach a DIAG at position -1 of both chains. That replay fails. |
| PostProc.ValidRowsFit | swsharp/src/post_proc.c:162-166 | Every alignment `checkAlignment` accepts has only known moves, and both of its rows lie inside their chains. This is the precondition of `AlignmentStr` and `OutputStatCounts`. |
| PostProc.EndReadPastChain | swsharp/src/post_proc.c:102 | The bound as written accepts `queryEnd == queryLen`, and the first move replayed then reads one past the query. |
| PostProc.AlignmentStr | swsharp/src/post_proc.c:259-316 | Both rows are fresh and of length pathLen. Exactly the columns before the first unknown move are filled, column i with the residue or gap its move calls for, read through the two advancing cursors. |
| PostProc.AlignmentColumn | swsharp/src/post_proc.c:282-311 | One column: the characters under the query and target cursors, or the gap character on the side the move skips. The cursors move past exactly the residues taken. |
| PostProc.GapColumns | swsharp/src/post_proc.c:282-311 | Given a gap character that is not a residue, a query-row column is a gap exactly for LEFT, and a target-row column exactly for UP. |
| PostProc.QueryRowInOrder | swsharp/src/post_proc.c:270-305 | The query row without its gaps is the query from `queryStart` on, in order, one residue per UP or DIAG. |
| PostProc.TargetRowInOrder | swsharp/src/post_proc.c:271-305 | The target row without its gaps is the target from `targetStart` on, in order, one residue per LEFT or DIAG. |
| PostProc.OutputStatCounts | swsharp/src/post_proc.c:508-548 | Returns no counts exactly when the path holds an unknown move. Otherwise identity counts the DIAG columns with equal residues, similarity the DIAG columns, and gaps the rest. |
| PostProc.StatsAddUp | swsharp/src/post_proc.c:520-532 | The gap count equals #LEFT + #UP, so similarity + gaps = pathLen, and identity never exceeds similarity. |
| PostProc.BlastM8CountsAsWritten | swsharp/src/post_proc.c:801-821 | The M8 loop as written: identities and mismatches by column kind, and gap openings as counted when a mismatch column leaves the gap flags set. |
| PostProc.MismatchJoinsGapRuns | swsharp/src/post_proc.c:818-820 | Rows "-A-" over "CTC" hold two separate query-gap runs, but the loop as written counts one opening. |
| PostProc.BlastM8Counts | swsharp/src/post_proc.c:801-821 | With a mismatch closing open gaps, the loop counts identities, mismatches, and one opening per maximal same-side gap run. |
| PostProc.ColumnsAddUp | swsharp/src/post_proc.c:801-821 | Identities + mismatches + query-gap columns + target-gap columns = length. |
| PostProc.RunsAtMostGaps | swsharp/src/post_proc.c:801-821 | There are never more gap openings than gap columns. |
| PreProc.ReverseComplement | swsharp/src/pre_proc.c:57-77 | Same length as the input, and output[length-1-i] is the complement of input[i]. The complement swaps A with T and C with G and keeps every other character. |
| PreProc.ReverseComplementTwice | swsharp/src/pre_proc.c:57-77 | Taking the reverse complement twice gives back the original residues. |
| PreProc.CreateChainComplement | swsharp/src/pre_proc.c:51-82 | The new chain is named "CMPL", and its residues are the reverse complement, filled in place. |
| PreProc.ReadFastaChain | swsharp/src/pre_proc.c:84-125 | Reading the file in 4096-character blocks gives the chain the character state machine yields over the whole input, regardless of block boundaries. |
| PreProc.FeedBlock | swsharp/src/pre_proc.c:102-116 | The inner loop over one block continues the state machine from where the previous block stopped. |
| PreProc.FeedChar | swsharp/src/pre_proc.c:104-115 | One character of `readFastaChain`: on the header line it is appended to `name`, except a '>' while the name is empty, and a newline ends the header. After the header, letters are appended to `str`. The new buffers and flag are the reader state after that character. |
| PreProc.ReadsExpected | swsharp/src/pre_proc.c:97-116 | The name is the first line with its leading '>' characters removed. The residues are exactly the letters after the first newline, later '>' lines included. |
| PreProc.ReadFastaChains | swsharp/src/pre_proc.c:127-201 | Reading in 4096-character blocks, with `str` and `chains` doubled when full, yields exactly `ReadAll` of the input: the chains closed by a '>' after a header, then the final chain. |
| PreProc.ReadChainsBlock | swsharp/src/pre_proc.c:147-186 | One `fread` of up to 4096 characters from the current file position, then the loop over them. The read position strictly advances, and the buffers and chain array afterwards hold the multi-chain reader's state at the new position. |
| PreProc.FeedChainsBlock | swsharp/src/pre_proc.c:151-186 | The loop over one block continues the multi-chain reader from the state the previous blocks left, whatever that state was. |
| PreProc.FeedChainsChar | swsharp/src/pre_proc.c:154-185 | One character of `readFastaChains`. A '>' after the header closes the current chain into `chains` and starts a new header; the header and letter steps then follow `readFastaChain`. Growth keeps every write in bounds, and the result is `FeedChains` of the state before. |
| PreProc.CloseChain | swsharp/src/pre_proc.c:160-166 | Closing a chain appends it. `chains` doubles first when `chainsLen + 1 == chainsSize`, so one slot stays free for the final chain. |
| PreProc.FeedCharGrowing | swsharp/src/pre_proc.c:172-185 | One character's step. `str` doubles when full before the write, so every write is in bounds. |
| PreProc.ChainCount | swsharp/src/pre_proc.c:156-190 | There is always at least one chain: one more than the number of '>' characters that close a chain. |
| PreProc.RunChainsSplit | swsharp/src/pre_proc.c:147-187 | Reading s and then t from where s left off is reading s + t. The state carried between reads makes the result independent of the block split. |
| PreProc.FastaRoundTrip | swsharp/src/pre_proc.c:127-201 | Reading back a FASTA file written one record per chain gives the chains that were written. This holds for chains whose names have no newline and no leading '>' and whose residues are letters. |
| PreProc.ScorerCreateConst | swsharp/src/pre_proc.c:219-232 | The scorer is named "CONST", its table has `match` on the diagonal and `mismatch` elsewhere over all codes, and the gap penalties pass through unchanged. |
| PreProc.ConstTableSymmetric | swsharp/src/pre_proc.c:225-229 | The constant table is symmetric, and when match >= mismatch no pair scores above a match. |
| PreProc.ScorerCreateMatrix | swsharp/src/pre_proc.c:234-257 | The chosen table is the one whose name was asked for, and an unknown name falls back to BLOSUM_62. |
| PreProc.MatrixByName | swsharp/src/pre_proc.c:237-252 | Every built-in table is chosen by its own name: no earlier name in the fixed order shadows it. |

## Left out

- MPI transport is not modelled: `MPI_Comm_size`, `MPI_Send` and `MPI_Recv`. A node's message is a `seq<byte>` handed to the master, and the nodes are the sequence of messages in rank order. The size sent ahead of a message is its length.
- Malformed messages are undefined behaviour in the C code, which reads past the buffer and indexes `queries`/`database` without checks. The model reports them instead:
  - a short message is `Truncated`;
  - a negative path length is `NegativeLength`;
  - a negative per-query record count, which the C code uses unchecked as a loop bound and an allocation size, is `NegativeLength`;
  - an out-of-range index is `IndexOutOfRange`.

  A skip past the end of the buffer leaves nothing unread.
- Native memory layout is not modelled. Byte order is little-endian with fixed widths of 4 for `int` and `float` and 8 for `size_t`.
- MpiCodec.DbAlignmentFromBytes: the float `value` travels as a 32-bit integer key. Its only use is the comparator, which truncates it to `int`, so the IEEE layout and the float-to-int conversion are not modelled.
- EValues: `values` holds the exact integers `-scores[i]`. The float conversion is exact only for |score| ≤ 2^24, and `-INT_MIN` overflow is not modelled. The `query`, `database` and `scorer` parameters are not read by the source, so the method does not take them.
- MpiGather.SortByValue: the sort is an insertion sort with the contract of `qsort` (sorted, a permutation). `qsort`'s own algorithm and its order among equal values are not modelled.
- MpiGather.GatherMpiData: the deletion of the entries past `maxAlignments` is modelled as the multiset difference (`SplitMultiset`), not as calls to `dbAlignmentDelete`. No `free` is modelled anywhere.
- Integer widths are not modelled in several places:
  - the `realSize`/`bufferSize` arithmetic of `sendMpiData` is on unbounded naturals;
  - the doubling of `strSize` and `chainsSize` in `readFastaChains` cannot overflow in the model;
  - the `int` count of each query is bounded by the `RecordList` type.
- File I/O is not modelled: `fileSafeOpen`, `fileLength`, `fread`, `feof`, `fclose`. The file is its contents as a string, and each `fread` takes the next 4096 characters.
- `readFastaChain`: `str` is allocated with the input length, standing for `fileLength(f)`.
- `chainCreate` and `scorerCreate` are not modelled. Chains are (name, residues) pairs, a scorer is (name, table, gapOpen, gapExtend), and `chainGetCode`/`scorerScore` are the parameter `pairScore` of the replay.
- PreProc.ScorerCreateMatrix: the BLOSUM/PAM tables and their constructors are not modelled. The result names which table is built. The table names are taken to be "BLOSUM_45", …, "PAM_250", since their definitions are not part of this model.
- PreProc.ScorerCreateConst: `SCORER_MAX_CODE` is the parameter `maxCode`.
- ReadFastaChain and ReadFastaChains require that no header line reaches 1024 characters, because the 1024-character `name` buffer is written without a check.
- All `fprintf` output is not modelled: the percentages, `outputPair`, `outputPlot`, the M0/M9 formats and `outputDatabaseLight`. Only the integer counting loops are kept.
- PostProc.AlignmentStr and PostProc.OutputStatCounts require `RowsFit`: every residue the filled moves read lies inside its chain. The C code makes no such check, so other alignments are out-of-bounds reads there. `ValidRowsFit` proves the precondition holds for every alignment `checkAlignment` accepts.
- PostProc.CheckAlignment: the running `score` and the affine penalties are unbounded integers. Overflow of the C `int` score is not modelled.
- MpiGather.GatherMpiData: `maxAlignments` is a `nat`. The C parameter is an `int`, and a negative value would delete from a negative index; that case is not modelled.
- PostProc.OutputStatCounts: when the path holds an unknown move, `outputStat` returns before printing. The model returns `None`.
- PostProc.BlastM8Counts: the two rows are given as strings of equal length, as `aligmentStr` produces them for a path without unknown moves.
- PostProc.CheckAlignment: a DIAG step reads its two residues only when both positions lie inside the chains, and otherwise the replay fails. With the corrected end check no read lies past the end (`ReplayStaysBelow`). Nothing bounds the replay from below, though. A path with more query- or target-consuming moves than the range reaches a DIAG at a negative position (`DiagBelowStart`), which the C code would read out of bounds. The guard refuses it, and the final `queryIdx == queryStart - 1` test would refuse that alignment anyway.
- Alignment I/O (`readAlignment`, `outputAlignment`, `outputDatabase`, `outputShotgunDatabase`) and alignment serialisation are not modelled.
- `deleteFastaChains` is not modelled, since it only releases memory.

## Findings

| source | as written | input that shows it | evidently intended | confidence | as-written member | corrected member |
|---|---|---|---|---|---|---|
| swsharp/src/post_proc.c:102 | `queryEnd > queryLen` (and `targetEnd > targetLen`) rejects an end only past the length, yet `queryEnd` is the last aligned position and the replay's first DIAG reads `query[queryEnd]` | query "A", target "A", both starts 0, both ends 1, path DIAG DIAG: passes the check, and the first replayed DIAG reads position 1 of a one-residue chain | reject `queryEnd >= queryLen` and `targetEnd >= targetLen` | not executed | PostProc.EndReadPastChain | PostProc.CheckAlignment |
| swsharp/src/post_proc.c:818-820 | a mismatch column leaves `gapOpenedQuery`/`gapOpenedTarget` set, so a gap run interrupted by a mismatch continues the earlier run | query row "-A-" over target row "CTC": two query-gap runs, counted as one gap opening | a mismatch closes any open gap, so each maximal gap run counts one opening, as BLAST reports it | not executed | PostProc.BlastM8CountsAsWritten | PostProc.BlastM8Counts |

# cmpt201-coursework in Dafny

This project models the sequential core of five C programs from a systems
programming course and proves properties of the model.

- **alloc.c** is a free-list memory allocator. It obtains memory from
  `sbrk` in pieces of `INCREMENT` bytes. Free blocks sit in an address-ordered
  singly linked list, each headed by a 16-byte `struct header`. `alloc` picks a
  block by first fit, best fit or worst fit, then splits it or hands it out
  whole. When nothing fits, it grows the heap and tries again. `dealloc` puts
  a block back in address order and merges it with adjacent free
  neighbours. `allocinfo` summarises the list; `allocopt` sets the strategy
  and the heap limit.
- **shell.c** keeps a ten-slot ring of past commands. It lists them newest
  first, recalls the last one with `!!`, and splits a command line into
  arguments with trailing-`&` background detection.
- **mapreduce.c** splits the input items evenly over the mappers and splits
  the key groups evenly over the reducers. It appends emitted pairs to bounded
  buffers and groups the sorted intermediate buffer into runs of equal keys.
- **blockchain.c** keeps a fixed-capacity chain of blocks. It mines each new
  block by searching for a nonce whose SHA-256 digest is at most a difficulty,
  and it verifies the chain.
- **client.c** is a chat client. It renders random bytes as upper-case
  base16, frames them as type-0 messages, and, in its receiver thread, cuts
  the byte stream from the server into frames.

Module layout, one file per module:

- `wrappers.dfy` (`Wrappers`) holds `Option`.
- `free_list.dfy` (`FreeList`) holds the allocator's list logic: choosing,
  carving, ordered insertion and coalescing, each as a function on a
  sequence of `(addr, size)` blocks, and the scanning loops that find indices
  in it.
- `alloc.dfy` (`Alloc`) holds the allocator's global state as the class
  `Allocator`, together with the invariant `Consistent`. That invariant says:
  - free blocks are aligned, at least 24 bytes long and in strictly
    increasing, non-adjacent address order;
  - handed-out blocks are pairwise disjoint and disjoint from the free blocks;
  - every byte obtained from `sbrk` is either free or handed out.
- `shell.dfy`, `mapreduce.dfy`, `blockchain.dfy` and `client.dfy` hold the
  other programs.

Addresses are natural-number offsets into one address space. `sbrk` is a
list of replies: `Refused`, or `Granted(gap)`, where the region starts `gap`
bytes above the current break. Hashing is a function parameter, and the
clock and socket reads are inputs.

## Model

| member | source | states |
|---|---|---|
| FreeList.Align8 | alloc.c:19 | `align8_u64`: a multiple of 8 below 2^64; for n without overflow the least such value ≥ n (n ≤ r < n + 8); 0 when n + 7 wraps |
| FreeList.ChoiceUnique | alloc.c:52-90 | each fit strategy's characterisation of the chosen block determines a single index |
| FreeList.FirstFitScan | alloc.c:52-59 | returns the first block with size ≥ need, or None exactly when no block has size ≥ need |
| FreeList.BestFitScan | alloc.c:60-74 | returns the smallest block with size ≥ need, the earliest on ties (strict `<`), or None when none fits |
| FreeList.WorstFitScan | alloc.c:75-90 | returns the largest block with size strictly > need, the earliest on ties (strict `>`), or None when no block exceeds need |
| FreeList.Choose | alloc.c:52-90 | dispatches on the strategy; a result is that strategy's choice, and None means it has no candidate |
| FreeList.TakenLeftover | alloc.c:92-120 | the handed-out part is `need` bytes at the block's address when the remainder is at least header + 8 (the rest becoming a block at addr + need), else the whole block; the two parts are disjoint, well formed and together cover exactly the original block |
| FreeList.CarveSpec | alloc.c:92-120 | carving block k keeps the list well formed and its prefix before k unchanged; the remainder takes k's place (same length) or k is unlinked (one shorter); free bytes plus handed-out bytes are conserved, both as a count and as a set of addresses |
| FreeList.CarveBytes | alloc.c:100-120 | the handed-out range lies inside the free bytes and is exactly what leaves them |
| FreeList.InsertionScan | alloc.c:168-174 | the walk `while (curr && curr < block)` stops at the first index whose block is not below the address, all earlier blocks being below it |
| FreeList.MergedSum | alloc.c:181-189 | the merged block's size is the inserted block's size plus the sizes of the neighbours it absorbs |
| FreeList.MergedBytes | alloc.c:181-189 | the merged block covers exactly the inserted block's bytes and the absorbed neighbours' bytes |
| FreeList.MergedOk | alloc.c:146-154 | merging aligned blocks of at least 24 bytes gives such a block |
| FreeList.MergedFits | alloc.c:135-154 | the merged block stays strictly apart from the untouched blocks before and after it |
| FreeList.CoalesceWellFormed | alloc.c:168-189 | ordered insertion followed by merging with an adjacent successor and predecessor keeps the list strictly ordered with no two free blocks touching |
| FreeList.CoalesceSumBytes | alloc.c:168-189 | insertion with coalescing adds exactly the block's size to the free total and exactly its bytes to the free bytes |
| FreeList.CoalesceSpec | alloc.c:135-154 | the growth/`dealloc` insertion keeps the list well formed, conserves size and bytes, and shortens the list by one per neighbour merged |
| FreeList.PairwiseRemove | alloc.c:166-179 | removing one handed-out block leaves the others pairwise disjoint and disjoint from it, with sizes and bytes split accordingly |
| Alloc.ToU64 | alloc.c:24-25 | `(uint64_t)` of an `int`: the value below 2^64 congruent to it modulo 2^64 (v + 2^64 for negative v) |
| Alloc.ToI32 | alloc.c:25 | `(int)` of a `uint64_t`: the `int` congruent modulo 2^32 |
| Alloc.AlignedRequestSpec | alloc.c:25-28 | the aligned request is positive exactly for sizes 1 to 0x7FFFFFF8, and is then the size rounded up to a multiple of 8, below it + 8 |
| Alloc.AlignedNonNegative | alloc.c:25 | non-negative sizes up to 0x7FFFFFF8 round up to a multiple of 8; larger ones wrap to INT_MIN |
| Alloc.AlignedNegative | alloc.c:25-28 | a negative size stays non-positive after the round trip through `uint64_t`, so `alloc` refuses it |
| Alloc.PayloadSum | alloc.c:205-210 | the payload total is the size total less one header per free block |
| Alloc.Summarize | alloc.c:197-229 | `allocinfo`'s loop: free size = Σ(size − 16), chunk count = list length, largest and smallest payload are attained by some block and bound every block; both 0 for an empty list |
| Alloc.CarveKeeps | alloc.c:92-121 | handing out part or all of a free block keeps the allocator invariant, ownership unchanged |
| Alloc.ArenaKeeps | alloc.c:30-45 | a fresh first arena above the break keeps the invariant and adds INCREMENT owned bytes |
| Alloc.GrowKeeps | alloc.c:124-154 | linking a fresh INCREMENT-byte region into the list keeps the invariant and adds INCREMENT owned bytes |
| Alloc.DeallocKeeps | alloc.c:161-190 | returning a handed-out block to the list keeps the invariant, the freed bytes joining the free bytes |
| Alloc.Allocator.constructor | alloc.c:11-15 | initial globals: empty list, first fit, no limit, no heap start, heap size 0 |
| Alloc.Allocator.InitArena | alloc.c:30-45 | the free list becomes the single region returned by `sbrk`, `heap_start` is set, `current_heap_size` is reset to INCREMENT |
| Alloc.Allocator.Place | alloc.c:47-122 | None only when the strategy has no candidate, with nothing changed; otherwise the block the strategy chose is carved, the handed-out block is appended to the live blocks and the pointer is its address + 16, its size at least need |
| Alloc.Allocator.Grow | alloc.c:124-154 | the new region is inserted at its address-order position and coalesced; `current_heap_size` grows by exactly INCREMENT |
| Alloc.Allocator.Serve | alloc.c:47-158 | place or grow and retry: when the list has a candidate, the strategy's choice is carved and handed out with no growth; a result is a new live block of at least need bytes; with no candidate and growth refused (limit, or `sbrk` failure) the answer is NULL with no state change; the heap size stays within a non-zero limit unless unchanged |
| Alloc.Allocator.Retry | alloc.c:124-158 | growth refused by the limit or by `sbrk` answers NULL with no state change; otherwise a result is a new live block of at least need bytes, and the heap size stays within a non-zero limit |
| Alloc.Allocator.Request | alloc.c:30-158 | with an empty list a failing first `sbrk` answers NULL with nothing changed; with a candidate in a non-empty list the strategy's choice is carved with no growth; with none and growth refused, NULL with nothing changed; a result is a new live block of at least need bytes |
| Alloc.Allocator.Alloc | alloc.c:21-159 | a request aligning to ≤ 0 returns NULL before touching anything; with an empty list a failing first `sbrk` returns NULL with nothing changed; with no candidate in a non-empty list and growth refused, NULL with nothing changed; the returned pointer is a block address + 16 with block size ≥ aligned request + 16; the allocator invariant holds throughout |
| Alloc.Allocator.Dealloc | alloc.c:161-190 | NULL is a no-op; otherwise the block leaves the live set and is inserted in address order and coalesced, its bytes joining the free bytes |
| Alloc.Allocator.AllocOpt | alloc.c:192-195 | sets exactly the strategy and the limit, the limit converted as `(uint64_t)` of an `int` |
| Alloc.Allocator.Info | alloc.c:197-229 | as Summarize, on the current free list, leaving it unchanged |
| Shell.Clip | shell.c:32-37 | `strncpy(…, CMDLEN_MAX - 1)` plus NUL: the prefix of the input of length min(length, 4095) |
| Shell.ClipIdempotent | shell.c:271-276 | re-adding a stored entry stores it unchanged |
| Shell.StartNumCountsCommands | shell.c:159-161 | after n commands the newest row is numbered n − 1 exactly while n < 20 |
| Shell.WindowAdd | shell.c:30-39 | writing slot (start + count) % 10 and bumping the count, or advancing start when full, keeps the ring equal to the last min(n, 10) logged entries |
| Shell.History.constructor | shell.c:16-18 | empty history: count 0, start 0 |
| Shell.History.AddHistory | shell.c:20-40 | appends the clipped command line (trailing newline kept) to the log; count grows to at most 10, then start advances by 1 mod 10; only the written slot changes; the newest entry sits at slot (start + count − 1) % 10 |
| Shell.History.Listing | shell.c:159-171 | min(count, 10) rows, newest first, numbers decreasing by 1 from `start_num` |
| Shell.History.Recall | shell.c:258-288 | `!!` ended by the missing `continue`: with an empty history it fails with nothing changed; otherwise it yields the most recent entry and adds it to the history again, and nothing else |
| Shell.History.RecallAsWritten | shell.c:258-324 | the `!!` line as written: after a successful recall the line falls through to `add_history(buffer)`, so the log gains the recalled entry and then "!!", which becomes the newest entry |
| Shell.RunLength | shell.c:65-68 | the length of the leading run of non-delimiters: all of it free of tab and newline, followed by a delimiter or the end |
| Shell.TokensAreRuns | shell.c:65-69 | every token is non-empty and holds no tab or newline (a space is not a separator) |
| Shell.TokensCover | shell.c:65-69 | the tokens, concatenated, are the line with its tabs and newlines removed |
| Shell.SkipDelims | shell.c:65-68 | skipping delimiters leaves the remaining tokens unchanged |
| Shell.RunEnd | shell.c:65-68 | the scan for a token's end stops exactly after its run of non-delimiters |
| Shell.Tokenize | shell.c:62-70 | `argv` is the first min(#tokens, 127) maximal runs of non-delimiters, in order |
| Shell.BackgroundSpec | shell.c:72-91 | a command results exactly when the arguments are neither empty nor just "&"; it runs in the background exactly when the last argument ends in '&'; its arguments plus the removed '&' spell the original, all but the last argument kept as they were |
| Shell.Parse | shell.c:61-91 | the command is the background detection applied to the first 127 tokens |
| MapReduce.StartStep | mapreduce.c:128-132 | each range starts where the previous one ended |
| MapReduce.StartLast | mapreduce.c:120-133 | the ranges together hold all items |
| MapReduce.Partition | mapreduce.c:120-133 | the mapper (and, at 189-201, reducer) ranges tile [0, total) in order, range i holding base + (i < remainder ? 1 : 0) items |
| MapReduce.ChunksBalanced | mapreduce.c:121-130 | chunk sizes never increase and differ by at most 1 |
| MapReduce.TilesCover | mapreduce.c:127-147 | every item falls in exactly one range |
| MapReduce.Truncate | mapreduce.c:79-82 | `strncpy(dst, s, size); dst[size-1] = '\0'`: the prefix of length min(length, size − 1) |
| MapReduce.KvBuffer.constructor | mapreduce.c:117-118 | an empty buffer of the given capacity and field sizes |
| MapReduce.KvBuffer.Emit | mapreduce.c:73-101 | a full buffer answers −1 unchanged; otherwise the truncated pair is appended at index count, the count grows by one, the answer is 0, no other entry changes |
| MapReduce.KvBuffer.Reset | mapreduce.c:117-118 | the buffer becomes empty |
| MapReduce.KvBuffer.GroupAll | mapreduce.c:156-187 | the groups of the buffer's contents form a grouping of them |
| MapReduce.RunEnd | mapreduce.c:161-166 | the run of equal keys from idx is maximal: all keys up to j equal, key j differs or j is the end |
| MapReduce.RunValues | mapreduce.c:172-184 | the group's values are the run's values in buffer order, each truncated |
| MapReduce.GroupStep | mapreduce.c:168-186 | adding a maximal run as a group extends a grouping of the prefix to the longer prefix |
| MapReduce.GroupRuns | mapreduce.c:159-187 | the groups partition the buffer into maximal runs of equal keys: expanded, they give back the buffer in order, adjacent groups have different keys, and none is empty |
| MapReduce.TotalValuesExpand | mapreduce.c:168 | the value counts sum to the number of pairs the groups stand for |
| MapReduce.KeyLeAntisymmetric | mapreduce.c:103-107 | the key order is antisymmetric |
| MapReduce.GroupKeysIncrease | mapreduce.c:153-187 | on a key-sorted buffer, group keys increase strictly and are pairwise distinct |
| Blockchain.BytesLeFilled | blockchain.c:16 | every digest is at most the all-0xff difficulty |
| Blockchain.BytesLeTotal | blockchain.c:44 | the `memcmp` order is total |
| Blockchain.AppendKeeps | blockchain.c:32-46 | a sealed block built for the next position keeps a verifying chain verifying and a linked chain linked |
| Blockchain.Chain.constructor | blockchain.c:8-12 | storage for the given number of blocks, none in use |
| Blockchain.Init | blockchain.c:8-18 | −1 for NULL; otherwise count 0 and the given difficulty, or all 0xff when none is given |
| Blockchain.AddBlock | blockchain.c:25-50 | −1 with no change for NULL, no data or a full chain; otherwise the new block has index = old count, the data, zero or predecessor's previous hash, and the first nonce whose digest is ≤ difficulty; the old count is returned, the count grows by 1, earlier blocks are untouched, and a verifying chain keeps verifying |
| Blockchain.Verify | blockchain.c:52-74 | −1 for NULL; otherwise 0 exactly when every block's hash is its core's digest, is ≤ difficulty and equals the next block's previous hash |
| Blockchain.DefaultDifficultyMines | blockchain.c:13-16 | with the default difficulty the nonce search ends (at nonce 0) |
| Client.HexDigit | client.c:19 | an upper-case hex digit, neither NUL nor newline |
| Client.HexValue | client.c:19 | recognises exactly the digits `%02X` prints and inverts HexDigit |
| Client.HexAt | client.c:18-19 | characters 2i and 2i + 1 of the rendering are the high and low nibble digits of byte i |
| Client.UnhexHex | client.c:18-20 | decoding each pair of output characters recovers the bytes |
| Client.HexUnhex | client.c:18-20 | every decodable text is the rendering of what it decodes to |
| Client.HexIsText | client.c:18-20 | the rendering holds no NUL or newline and is ASCII, so `strlen` gives 2 × buf_size |
| Client.Convert | client.c:13-22 | −1, writing nothing, exactly when a pointer is NULL, buf_size ≤ 0 or str_size < 2·buf_size + 1; otherwise 0, with str starting with the rendering, then a NUL, the rest untouched |
| Client.FrameRoundTrip | client.c:181-187 | the frame of a rendering is 2 bytes longer, and a newline-delimited reader recovers the rendering from it |
| Client.BuildFrame | client.c:181-187 | the sent bytes are 0, the hex string, '\n', with total length hex_len + 2 |
| Client.NewlineFrom | client.c:73-79 | a result is a newline at or after the start |
| Client.NewlineFromFirst | client.c:73-79 | it is the first newline from the start, and None means there is none |
| Client.FrameEnd | client.c:71-81 | a type-0 frame ends at the first newline at or after pos + 7; None exactly when fewer than 7 bytes remain or no newline follows the header |
| Client.FindNewline | client.c:73-79 | the loop over `buffer[j]` finds exactly the first newline from pos + 7 |
| Client.Cut | client.c:63-107 | a shutdown byte halts (and only it halts with shutdown); a byte other than 0 and 1 is skipped; a type-0 byte with no newline after the header halts the scan; a complete frame moves pos just past its first newline after the header |
| Client.StepAt | client.c:62-107 | one pass of the scan loop on the array agrees with the scan function |
| Client.ScanBuffer | client.c:61-108 | the scan loop yields the messages, the consumed count and the shutdown flag of the scan function |
| Client.ScanLeavesUnfinished | client.c:61-108 | the scan stops at a shutdown byte, or else what it leaves is empty or one unfinished type-0 frame |
| Client.ScanShift | client.c:61-114 | scanning after dropped bytes gives the same frames, offsets shifted, so compaction changes nothing |
| Client.WireCut | client.c:83-104 | the scan cuts a relayed frame back into exactly its address, port and text |
| Client.WireAllScan | client.c:61-108 | frames written back to back are cut into exactly their messages, in order |
| Client.FramesThenUnfinished | client.c:61-114 | after complete frames and an unfinished one, all messages are shown and the unfinished bytes kept |
| Client.FramesThenShutdown | client.c:63-68 | a shutdown byte after complete frames stops the scan with those messages shown |
| Client.Append | client.c:58-59 | `memcpy` of the chunk behind the pending bytes |
| Client.ShiftLeft | client.c:110-112 | `memmove` brings the unscanned bytes to the front in order |
| Client.Receiver.constructor | client.c:39-40 | an empty buffer of 4096 bytes |
| Client.Receiver.Feed | client.c:41-114 | a zero-byte read ends the loop; a chunk that would overflow ends it with nothing changed; otherwise the pending bytes and the chunk are scanned, a shutdown byte stops, and else the consumed prefix is dropped and the rest kept in order |
| Client.Receiver.Compact | client.c:109-114 | the pending bytes become those after the consumed prefix, in order |
| Client.TerminatorOutside | client.c:93-99 | for every complete type-0 frame, the NUL index is outside `message[1024]` exactly when the text is 1024 bytes or longer |
| Client.TerminatorPastMessage | client.c:93-99 | a 1032-byte frame with 1024 content bytes fits the receive buffer, and its NUL index falls outside `message[1024]` |
| Client.MessageText | client.c:93-99 | what `message` holds before a terminator kept inside it: shorter than 1024 bytes, the content when it fits, else empty |

## Left out

- Output: the `printf` traces of alloc.c, the shell's `write` output, the
  client's log file and `printf` are not modelled.
- The header files (alloc.h, blockchain.h, interface.h, msgs.h) are not
  part of this model. `INCREMENT`, `BLOCKCHAIN_SIZE`, `DATA_SIZE`,
  `MAX_INTERMEDIATE_KV`, `MAX_FINAL_KV`, `MAX_KEY_SIZE` and `MAX_VALUE_SIZE`
  are parameters. `sizeof(struct header)` is 16: a 64-bit size and a
  pointer.
- Alloc.Allocator.Alloc: `INCREMENT` is taken to be a multiple of 8 of at
  least 24 bytes, and every region `sbrk` grants to start on an 8-byte
  boundary. The invariant relies on both; the source does not check either.
- Alloc.Allocator.Serve: `sbrk` is the list of replies. Running out of
  replies reads as `sbrk` failing, which is what makes the retry terminate.
  The source's retry is the recursive call `alloc(size)` (alloc.c:156). The
  model recurses through `Retry` and `Serve` with the already aligned need.
  It skips the initial-arena check, because the free list is non-empty
  after growth.
- Alloc.Allocator.Alloc: after a growth, the contract states that some
  block of at least the aligned request plus header was handed out. It does
  not state which block the strategy picked from the grown list. Place
  states the pick for each attempt. Request and Serve state it for the
  first attempt on a non-empty list; Alloc leaves that to Request, which it
  calls with the aligned request plus header.
- The initial-arena branch runs whenever the free list is empty, not only on
  the first call. It resets `current_heap_size` to `INCREMENT` and skips the
  limit check. The model reproduces both; Alloc's limit clause allows for
  that reset.
- Addresses and sizes are unbounded naturals. Pointer arithmetic
  wrap-around and `current_heap_size + INCREMENT` overflow are not modelled.
  The `int`/`uint64_t` conversions and `align8_u64` are modelled.
- Alloc.Allocator.Dealloc: the pointer must come from `alloc` and still be
  handed out. Double free, use after free and foreign pointers are caller
  errors the source does not detect, and they are not modelled.
- Shell: the builtins (`exit`, `pwd`, `cd`, `help`, `history` argument
  errors), `fork`/`execvp`/`waitpid`, the prompt, `read_line`, the SIGINT
  handler and `!n` are not modelled.
- Shell.History.RecallAsWritten: which input line reaches the `!!` branch
  is not modelled. `strcmp(buffer, "!!")` (shell.c:258) compares the whole
  read buffer, and `read_line` keeps the newline (shell.c:54-56). So only a
  line that arrives without a newline matches; "!!\n" goes to
  `add_history` and `parse_and_exec` like any other line. RecallAsWritten
  and Recall model the branch once it is taken; `parse_and_exec` of the
  recalled entry and of "!!" is not modelled.
- MapReduce: threads, mutexes, the user's `map` and `reduce` callbacks,
  `qsort` and the building of `mr_output` are not modelled. GroupKeysIncrease
  takes the buffer's sortedness as a precondition. Keys compare as strings
  of characters, as `strncmp` does within `MAX_KEY_SIZE`.
- Blockchain: SHA-256 is a function parameter on block cores; the layout of
  `struct block_core` is not modelled; the `clock_gettime` reading is the
  parameter `timestamp`.
- Blockchain.AddBlock: the nonce search loops forever when no 32-bit nonce
  qualifies. The contract therefore requires that one exists (`Mineable`).
  DefaultDifficultyMines shows that one always exists under the default
  difficulty.
- Client: socket setup, `connect`, `getentropy`, thread creation and join,
  `inet_ntop`, `ntohs` (the port is read as a big-endian pair), the log
  file, and `read` errors (`rlen < 0`) are not modelled. Feed models one
  pass of the receiver's outer loop with the bytes `read` returned.
- Client.MessageText: `printf("%s")` stops at the first 0 byte of the
  text. The model keeps the bytes of `message` before the terminator
  client.c:99 writes, not what is printed.
- Client.Convert: `buf_size * 2 + 1` is computed on unbounded integers.
  `ssize_t` overflow for huge sizes is not modelled.
- server.c, lab2/lab2.c and lab4/lab4.c are not part of this model.

## Findings

| source | as written | input that shows it | evidently intended | confidence | as-written member | corrected member |
|---|---|---|---|---|---|---|
| shell.c:258-289 | the `!!` branch has no `continue` (the `!n` branch has one at shell.c:321), so after a successful recall the line "!!" also reaches `add_history(buffer)` and `parse_and_exec(buffer)` at shell.c:323-324 | history ending in "ls", then the line "!!" without a newline: the log becomes …, "ls", "ls", "!!", and a second "!!" recalls "!!" | the recalled command is recorded once and "!!" is neither stored nor run | not executed | Shell.History.RecallAsWritten | Shell.History.Recall |
| client.c:96-99 | for a text of 1024 bytes or more, the copy into `char message[1024]` is skipped, but `message[content_len] = '\0'` still writes at index `content_len` | a type-0 frame whose text is 1024 bytes (1032 bytes with header and newline), which fits the 4096-byte buffer | the NUL lands inside `message`, and an over-long text prints as empty | not executed | Client.TerminatorPastMessage | Client.MessageText |

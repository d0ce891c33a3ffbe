# Cflat core in Dafny

A model of the core of Cflat, a header-only C library: the bit tricks of
CflatBit.h; the arena allocator of CflatArena.h (blocks, push and pop,
clear, set position, temporary and scratch arenas); the open-addressing
hash table and hash set; the KMP automaton and the string views of
CflatString.h; the ring buffer; the dynamic array, growable slices, slice
views and fixed-length arrays; the integer index skeleton of the FFT; the
matrix transpose; and the linear congruential generator of the access
benchmark.

Each header is one module: `Words` (bounded machine words and the bitwise
operations on them), `Core`, `Bits`, `Arena`, `ArenaRewind`,
`ArenaScratch`, `HashProbe`, `HashStore`, `HashTable`, `HashSet`, `Kmp`,
`Strings`, `RingBuffer`, `Da`, `Append`, `Slices`, `Arrays`, `Fft`,
`Linear` and `Lcg`.

How the C is read:

- Machine words are naturals bounded by their width (`u8`, `u64`,
  `usize`, `i64`, ...). The wrap-arounds, truncations and signed
  reinterpretations the C performs are written out as `% 2^w` or an
  explicit conversion; the few that are not are named under "## Left
  out". Bitwise operations are defined on naturals.
- Memory is a byte sequence. A pointer is a natural, with 0 for NULL; a
  nullable handle is `Option<T>`, with `None` for NULL.
- An operation that can dereference NULL, fail an assert or loop forever
  answers an `Outcome`: `Done(value)`, `Faults` or `Hangs`. The string
  clones, the dynamic array, the ring buffer and the fixed-length array
  are built on the arena's push, so a NULL it returns makes them fault.
  The constructors whose pushes are taken to succeed are named under
  "## Left out".
- Arena blocks are a map from block ids to block records. The chain and
  the free list are sequences of ids.
- CflatCore.h repeats `cflat_align_pow2`, `cflat_is_pow2` and the
  `next_pow2`/`prev_pow2` bodies of CflatBit.h. The copies have the same
  bodies, so one definition in `Bits` models both; the two CflatCore.h
  bodies that carry another name are listed under "## Findings".
- Where the code and its evident intent differ, the model has both: a
  member named `...AsWritten` follows the code, and the plain name is the
  corrected definition that the rest of the model builds on. Each such
  pair is listed under "## Findings".

## Model

| member | source | states |
|---|---|---|
| Core.Min | src/CflatCore.h:129 | `cflat_min` returns one of its arguments, and it is at most both |
| Core.Max | src/CflatCore.h:130 | `cflat_max` returns one of its arguments, and it is at least both |
| Core.MinMaxSplit | src/CflatCore.h:129-130 | together the two macros split a pair: the minimum is at most the maximum and the two add up to the pair's sum |
| Core.LlPush | src/CflatCore.h:146 | `cflat_ll_push` makes the node the top, links it to the old top, and leaves every other link as it was |
| Core.LlPop | src/CflatCore.h:147 | `cflat_ll_pop` moves the top to the head's link and changes no link |
| Core.ListFromFrame | src/CflatCore.h:146 | rewriting the link of a node that is not on a list leaves the list intact |
| Core.LlPushList | src/CflatCore.h:146 | pushing a node that is not on the list prepends it to the list |
| Core.LlPopList | src/CflatCore.h:147 | popping a non-empty list drops its head |
| Core.LlPopAfterPush | src/CflatCore.h:146-147 | a pop right after a push restores the old top |
| Bits.SmearBits | src/CflatBit.h:124-134 | after the `x \|= x >> 2^j` steps for `j < n`, bit `i` is set exactly when some bit of `x` in `[i, i + 2^n)` is |
| Bits.SmearOfPositive | src/CflatBit.h:239-245 | on a non-zero `2^(2^n)`-bit value the smear is the block of ones up to and including the top bit |
| Bits.IsPow2Iff | src/CflatBit.h:28 | `cflat_is_pow2(x)` holds exactly for the powers of two |
| Bits.AlignPow2Rounds | src/CflatBit.h:27 | for a power-of-two `b` and no wrap, `cflat_align_pow2(x, b)` is a multiple of `b` in `[x, x + b)` and the least multiple of `b` at or above `x` |
| Bits.AlignPow2Is | src/CflatBit.h:27 | the macro's result is the one multiple of `b` in `[x, x + b)` |
| Bits.AlignPow2NeedsPow2 | src/CflatBit.h:27 | for `b = 3`, which is not a power of two, the mask does not round: `cflat_align_pow2(1, 3) == 1` |
| Bits.AlignPow2Twice | src/CflatCore.h:97 | for a power-of-two `b` and no wrap, rounding an already rounded value keeps it |
| Bits.NextPow2OfPositive | src/CflatBit.h:124-134 | past 1 the unsigned steps give the next power of two above `x - 1`, or 0 when that power is the word size |
| Bits.NextPow2UnsignedSpec | src/CflatBit.h:124-134 | unsigned `next_pow2` maps 0 to 1, gives the least power of two at or above `x` up to half the range, and wraps to 0 above it |
| Bits.NextPow2SignedOfPositive | src/CflatBit.h:112-122 | past 1 the signed steps give the next power of two above `x - 1`, read as a two's complement value |
| Bits.NextPow2SignedSteps | src/CflatBit.h:112-122 | the signed bit steps give the two's complement reading of `2^(floor(log2(x - 1)) + 1)` |
| Bits.ToSignedSmall | src/CflatBit.h:112-122 | a pattern below the sign bit reads as itself |
| Bits.ToSignedSignBit | src/CflatBit.h:112-122 | the sign bit alone reads as the most negative value |
| Bits.NextPow2SignedSpec | src/CflatBit.h:112-122 | signed `next_pow2` maps `x <= 1` to 1, gives the least power of two at or above `x` up to a quarter of the range, and otherwise gives the most negative value |
| Bits.PrevPow2UnsignedSpec | src/CflatBit.h:208-218 | `prev_pow2` maps 0 to 0 and anything else to the largest power of two at or below it |
| Bits.NextPow2U8 | src/CflatBit.h:61-68 | 0 goes to 1; up to 0x80 the result is the power of two in `[x, 2x)`; above that it is 0 |
| Bits.NextPow2U16 | src/CflatBit.h:80-88 | the same for 16 bits, with bound 0x8000 |
| Bits.NextPow2U32 | src/CflatBit.h:101-110 | the same for 32 bits, with bound 0x8000_0000 |
| Bits.NextPow2U64 | src/CflatBit.h:124-134 | the same for 64 bits, with bound 2^63 |
| Bits.NextPow2I8AsWritten | src/CflatBit.h:54-59 | with its single smear step, the 8-bit signed body gives 1 for `x <= 1` and otherwise a value at or above `x`, or -128 |
| Bits.NextPow2I8AsWrittenMisses | src/CflatBit.h:54-59 | the as-written body maps 9 to 13, which is not a power of two |
| Bits.NextPow2I8 | src/CflatBit.h:54-59 | with the full smear, `x <= 1` goes to 1; up to 0x40 the result is the positive power of two in `[x, 2x)`; above that it is -128 |
| Bits.NextPow2I16 | src/CflatBit.h:70-78 | the same for 16 bits, with bound 0x4000 and wrap value -0x8000 |
| Bits.IsPow2I8AsWritten | src/CflatCore.h:261-266 | `cflat_is_pow2_i8` carries the one-step `next_pow2` body, so read as a test it says yes to every input; it gives 1 for `x <= 1` |
| Bits.IsPow2I16AsWritten | src/CflatCore.h:277-285 | `cflat_is_pow2_i16` carries the 16-bit `next_pow2` body, and likewise says yes to every input |
| Bits.IsPow2I8Misnamed | src/CflatCore.h:261-266 | 3 is not a power of two, yet `cflat_is_pow2_i8(3)` returns 4, the value `cflat_next_pow2_i8(3)` should give |
| Bits.IsPow2I16Misnamed | src/CflatCore.h:277-285 | the same for `cflat_is_pow2_i16(3)`, which is `cflat_next_pow2_i16(3) == 4` |
| Bits.NextPow2I32 | src/CflatBit.h:90-99 | the same for 32 bits, with bound 0x4000_0000 and wrap value -2^31 |
| Bits.NextPow2I64 | src/CflatBit.h:112-122 | the same for 64 bits, with bound 2^62 and wrap value -2^63 |
| Bits.PrevPow2U8 | src/CflatBit.h:145-152 | 0 goes to 0; any other `x` goes to the power of two `r` with `r <= x < 2r` |
| Bits.PrevPow2U16 | src/CflatBit.h:164-172 | the same for 16 bits |
| Bits.PrevPow2U32 | src/CflatBit.h:185-194 | the same for 32 bits |
| Bits.PrevPow2U64 | src/CflatBit.h:208-218 | the same for 64 bits |
| Bits.PrevPow2I8 | src/CflatBit.h:136-143 | `x <= 0` goes to 0; a positive `x` goes to the positive power of two `r` with `r <= x < 2r` |
| Bits.PrevPow2I16 | src/CflatBit.h:154-162 | the same for 16 bits |
| Bits.PrevPow2I32 | src/CflatBit.h:174-183 | the same for 32 bits |
| Bits.PrevPow2I64 | src/CflatBit.h:196-206 | the same for 64 bits |
| Bits.NextPow2U64Unique | src/CflatBit.h:124-134 | the result is unique: any power of two `r` with `x <= r < 2x` is the one `cflat_next_pow2_u64` returns |
| Bits.Lut64Inverts | src/CflatBit.h:220-229 | the 64-entry table maps the De Bruijn slot of `2^k` back to `k`, for every `k < 64` |
| Bits.Lut32Inverts | src/CflatBit.h:231-237 | the 32-entry table maps the slot of the smeared `2^(k+1) - 1` back to `k`, for every `k < 32` |
| Bits.Log2U64Steps | src/CflatBit.h:239-247 | on a non-zero input the smear, the top-bit isolation and the table lookup give `floor(log2 x)` |
| Bits.Log2U64OfZero | src/CflatBit.h:239-247 | on 0 the same steps give 63 |
| Bits.Log2U64 | src/CflatBit.h:239-247 | `cflat_log2_u64` is `floor(log2 x)` for non-zero `x` and 63 for 0 |
| Bits.Log2U32Steps | src/CflatBit.h:249-256 | on a non-zero input the smear and the table lookup give `floor(log2 x)` |
| Bits.Log2U32OfZero | src/CflatBit.h:249-256 | on 0 the same steps give 0 |
| Bits.Log2U32 | src/CflatBit.h:249-256 | `cflat_log2_u32` is `floor(log2 x)` for non-zero `x` and 0 for 0 |
| Arena.NodeInit | src/CflatArena.h:155-167 | a fresh node is its arena's only block (chain `[0]`, empty free list) with position 0 and nothing in use; with sane sizes the arena is well formed |
| Arena.ArenaInit | src/CflatArena.h:172-175 | an arena in a caller's buffer is well formed, holds one block that it does not own, has everything committed, and has position 0 with nothing in use |
| Arena.NewBlock | src/CflatArena.h:177-194 | the block `cflat_arena_new` builds is owned, its cursor is at the header, its reservation and commit are the requested sizes rounded up to pages, and it reads as zero |
| Arena.CommitBelowReserve | src/CflatArena.h:179-183 | rounding both sizes to pages keeps `commit <= reserve`, and a zero commit stays zero |
| Arena.ArenaNew | src/CflatArena.h:177-194 | for a commit of 1 to `reserve` bytes, `cflat_arena_new` gives a well-formed, committed one-block arena it owns, with page-rounded sizes at or above those asked for and less than a page above them, and position 0 with nothing in use |
| Arena.New | src/CflatArena.h:177-194 | `cflat_arena_new` faults exactly when `commit > reserve` (the assert of line 179), when the rounded reservation is 0 (the assert of line 189), or when the rounded commit is 0, so that the header store of line 191 hits memory reserved with no access; otherwise it is `ArenaNew`, with both sizes `align_pow2(size, 4096)` |
| Arena.PageRoundZero | src/CflatArena.h:181-183 | rounding a size up to a page gives 0 exactly for 0 and for sizes less than a page below 2^64 |
| Arena.NewZeroCommitFaults | src/CflatArena.h:187-191 | `cflat_arena_new(reserve, 0)` faults at its header store |
| Arena.AlignOf | src/CflatArena.h:233 | an alignment of 0 becomes pointer alignment; any other is kept |
| Arena.FirstFit | src/CflatArena.h:242-250 | the free-list search stops at the first block that fits after a reset; every block before it does not fit |
| Arena.ResetCursors | src/CflatArena.h:243 | the search resets the cursor of every block it visits and changes nothing else |
| Arena.GrownSizes | src/CflatArena.h:254-260 | a new block copies the current block's sizes, or uses `align_pow2(size + header, align)` for both when the request does not fit the current reservation |
| Arena.Choose | src/CflatArena.h:240-268 | the block push moves to becomes the chain's head with its cursor at the header, the old chain follows it, the arena stays linked and the position is unchanged |
| Arena.ChooseFree | src/CflatArena.h:242-250 | taking free block `k` unlinks it from the free list, makes it the head of the chain, resets the cursors of it and the blocks before it, and neither loses nor duplicates a block |
| Arena.ChooseNew | src/CflatArena.h:252-264 | creating a block resets every free cursor and makes a new owned block with id `next` the chain's head; the lists gain exactly that block |
| Arena.Commit | src/CflatArena.h:271-281 | the commit faults (division by zero) exactly when the cursor must pass a committed size of 0; otherwise it commits `pst` rounded up to a multiple of the old commit, clamped to the reservation, and changes nothing else |
| Arena.ZeroFill | src/CflatArena.h:289 | `cflat_mem_zero` zeroes exactly `[lo, hi)` and keeps every other byte |
| Arena.PushAsWritten | src/CflatArena.h:230-294 | push as written leaves the arena linked and never changes its position, because line 290 adds `pst - pst` |
| Arena.Chosen | src/CflatArena.h:239-269 | push keeps the arena when the request fits the current block, and otherwise moves to the block `Choose` gives, without moving the position |
| Arena.Settle | src/CflatArena.h:271-291 | the commit and placement in the chosen block keep the lists and the position |
| Arena.Push | src/CflatArena.h:230-294 | the corrected push faults and refuses exactly as the source does, and a placement differs only in a position that grows by the bytes consumed |
| Arena.CommitReaches | src/CflatArena.h:271-281 | when the cursor stays within the reservation, the commit faults only from a commit of 0, never shrinks or passes the reservation, and reaches `pst` exactly when the reservation does |
| Arena.StartAligned | src/CflatArena.h:267-268 | the placement starts at the block's cursor rounded up to the alignment, less than one alignment past it, and the end does not wrap |
| Arena.SettleOutcome | src/CflatArena.h:271-291 | placement faults exactly when nothing is committed and returns NULL exactly when the aligned end passes the reservation |
| Arena.SettleValid | src/CflatArena.h:271-291 | placement keeps the arena well formed |
| Arena.SettleRefused | src/CflatArena.h:285 | a refused placement changes no cursor and no bytes in use |
| Arena.SettlePlaced | src/CflatArena.h:285-290 | a placement is in the head block at the aligned start; its cursor moves to the end, and the bytes consumed count the padding |
| Arena.SettleInUse | src/CflatArena.h:285-290 | a placement adds exactly the bytes consumed to those in use |
| Arena.ChooseSome | src/CflatArena.h:240-268 | for sane arguments push always finds or makes a block, and its reservation keeps the later sums from wrapping |
| Arena.ChooseIsFree | src/CflatArena.h:242-250 | when a free block fits, push moves to the first such block |
| Arena.ChooseIsNew | src/CflatArena.h:252-262 | when none fits, push creates a block with the grown sizes |
| Arena.ChooseInUse | src/CflatArena.h:240-268 | moving to a new head does not change the bytes in use |
| Arena.HeadedInUse | src/CflatArena.h:264 | putting an empty block in front of an unchanged chain keeps the bytes in use |
| Arena.ChosenFacts | src/CflatArena.h:239-269 | for sane arguments push has a block to place in, keeps the bytes in use, and stays in the current arena when the request fits |
| Arena.ChosenCommitted | src/CflatArena.h:240-268 | moving to a block keeps every reachable block committed |
| Arena.PushIsSettle | src/CflatArena.h:230-294 | push as written is block choice followed by placement |
| Arena.PushKeepsValid | src/CflatArena.h:230-294 | push keeps the arena well formed |
| Arena.PushFaults | src/CflatArena.h:271-273 | push faults exactly when the block it places in has nothing committed, so never while every reachable block has something committed, and it keeps them committed |
| Arena.PlacedInside | src/CflatArena.h:285-290 | a placement on a well-formed arena lies in a block of the new arena, past the header, and ends within the block |
| Arena.PushSafe | src/CflatArena.h:230-294 | while every reachable block has something committed, push never faults, and a placement ends within its block |
| Arena.PushPlacement | src/CflatArena.h:236-287 | a placement is aligned, past the header, and moves the block's cursor to its end; it is in the current block exactly when the request fits there; in a new or reused block it starts at `align_pow2(header, align)` |
| Arena.PushPadding | src/CflatArena.h:236-287 | a placement consumes its size plus less than one alignment of padding |
| Arena.PushAccounts | src/CflatArena.h:230-294 | with line 290 corrected, push keeps the position equal to the bytes the chain has handed out (mod 2^64); a placement adds the bytes consumed and a refusal adds nothing |
| Arena.PushPlacedInUse | src/CflatArena.h:285-290 | a placement adds the bytes consumed to those in use and, wrapping, to the position |
| Arena.PushRefusedInUse | src/CflatArena.h:283-293 | a refusal changes neither the bytes in use nor the position |
| Arena.SettleContents | src/CflatArena.h:285-289 | a placement writes only its own block; it zeroes the allocation when `clear` is set and keeps every other byte |
| Arena.ChosenBlocks | src/CflatArena.h:240-268 | block choice changes only free cursors and leaves chain blocks intact; a block it creates reads as zero |
| Arena.ResetSparesChain | src/CflatArena.h:243 | resetting free cursors leaves the chain's blocks alone |
| Arena.PushContents | src/CflatArena.h:285-289 | push writes only the allocation in its block, zeroed exactly when `clear` is set |
| Arena.PushFreshZero | src/CflatArena.h:261 | a block push creates reads as zero |
| Arena.PushOthers | src/CflatArena.h:230-294 | every other block keeps its sizes and bytes, and the chain's blocks are untouched |
| Arena.PushPlacedView | src/CflatArena.h:230-294 | a placement by push is the placement made in the chosen arena, with the position moved |
| Arena.SettleFrame | src/CflatArena.h:271-291 | placement touches only the head block, and keeps its owner and reservation |
| Arena.PushStays | src/CflatArena.h:239 | a push that fits the current block places there, never returns NULL, and leaves both lists alone |
| Arena.PushReusesFree | src/CflatArena.h:242-250 | otherwise push takes the first free block that fits: it leaves the free list, heads the chain, and every free block before it has its cursor reset |
| Arena.FreeChoice | src/CflatArena.h:242-264 | the arena a push that takes free block `k` places in |
| Arena.PushShape | src/CflatArena.h:271-291 | a push that does not fault changes, besides the position, only the cursor, commit and bytes of the chosen head |
| Arena.FreeResets | src/CflatArena.h:243 | taking free block `k` resets the cursors of it and every block before it |
| Arena.PushCreatesBlock | src/CflatArena.h:252-264 | when no free block fits, push creates an owned block with id `next` and the grown sizes rounded to pages, heads the chain with it, and resets every free cursor |
| Arena.NewChoice | src/CflatArena.h:252-264 | the arena a push that creates a block places in |
| Arena.PushRefusedOnlyNew | src/CflatArena.h:239-291 | push returns NULL only right after creating a block |
| Arena.FreeChoiceFits | src/CflatArena.h:245 | a free block picked by the fit test has room for the placement |
| Arena.FreeHeadRoom | src/CflatArena.h:245 | the fit test's sum does not wrap for sane arguments, so the picked block really has room |
| Arena.HeaderAlign | src/CflatArena.h:233 | pointer alignment leaves the header in place; page alignment moves the start to the end of the first page |
| Arena.OnePage | src/CflatArena.h:177-194 | `cflat_arena_new(4096, c)` for a commit `c` of 1 to 4096 bytes is a one-page arena |
| Arena.NewPage | src/CflatArena.h:177-194 | the block of such an arena is owned, has its cursor at the header, and has one page reserved and committed |
| Arena.PageValid | src/CflatArena.h:177-194 | a one-page arena is well formed with nothing in use |
| Arena.FirstPush | src/CflatArena.h:230-294 | a 16-byte push with pointer alignment on a committed page places 16 bytes |
| Arena.PushAsWrittenMisses | src/CflatArena.h:287-290 | as written, 16 bytes handed out from a fresh arena leave its position at 0 |
| Arena.PushLargeAlignRefused | src/CflatArena.h:252-291 | 10 bytes at alignment 4096 on a one-page arena create a second one-page block, which starts its data at 4096 and is refused: push returns NULL and leaves the block in the chain |
| Arena.PageRefused | src/CflatArena.h:252-291 | the same refusal stated on a one-page arena with any contents |
| Arena.PageMoves | src/CflatArena.h:252-264 | that push moves to a second one-page block with id 1 |
| Arena.PageGrows | src/CflatArena.h:252-264 | the second block is the one `ChooseNew` builds with page sizes |
| Arena.PushWraps | src/CflatArena.h:236-237 | the sum at line 237 wraps: a request for 2^64 - 1 bytes on a fresh arena hands out offset 64 and moves the cursor back to 63 |
| Arena.PageWraps | src/CflatArena.h:236-237 | the same wrap on any committed one-page arena |
| Arena.PageSettles | src/CflatArena.h:239 | on a one-page arena, a push whose aligned end stays within the page places in it |
| ArenaRewind.Allocated | src/CflatArena.h:303 | the bytes pop reads as handed out from a block are its cursor past the header |
| ArenaRewind.PopChain | src/CflatArena.h:300-315 | the pop loop keeps every block id |
| ArenaRewind.PopChainShape | src/CflatArena.h:300-315 | the pop loop keeps a suffix of the chain and moves the emptied blocks to the free list, losing and duplicating none |
| ArenaRewind.PopChainFrame | src/CflatArena.h:300-315 | the pop loop changes only cursors, and only those of chain blocks |
| ArenaRewind.Pop | src/CflatArena.h:296-324 | `cflat_arena_pop` keeps the arena linked and every block, and lowers the position by `size` with 64-bit wrap-around |
| ArenaRewind.PermLinked | src/CflatArena.h:296-324 | moving blocks between the chain and the free list keeps an arena linked |
| ArenaRewind.PopChainUsed | src/CflatArena.h:300-315 | the pop loop takes back exactly `size` bytes from the chain, or all of them when the chain holds fewer |
| ArenaRewind.UsedEmptyHead | src/CflatArena.h:309-313 | emptying the head block of a list leaves the bytes of the rest |
| ArenaRewind.PopChainCursors | src/CflatArena.h:300-315 | the pop loop keeps every cursor between the header and where it was, and leaves the blocks it frees at the header |
| ArenaRewind.PopChainOk | src/CflatArena.h:300-315 | the pop loop keeps every block well formed |
| ArenaRewind.PopKeepsValid | src/CflatArena.h:296-324 | pop keeps an arena well formed |
| ArenaRewind.PopInUse | src/CflatArena.h:296-324 | pop gives back `size` bytes of the chain, or all of them when it holds fewer |
| ArenaRewind.PopEmptied | src/CflatArena.h:317-323 | when the loop empties the chain, the block brought back holds nothing |
| ArenaRewind.PopAccounts | src/CflatArena.h:296-324 | popping at most the bytes in use keeps the position equal to them |
| ArenaRewind.PopPastStart | src/CflatArena.h:296-324 | popping more than is in use empties the chain but wraps the position to `2^64 - (size - pos)` |
| ArenaRewind.Restart | src/CflatArena.h:352-358 | after the splice, its first block heads the chain with its cursor at the header, the rest is the free list, and the position and bytes in use are 0 |
| ArenaRewind.ClearAsWritten | src/CflatArena.h:338-359 | clear as written sets the position and the bytes in use to 0 |
| ArenaRewind.Clear | src/CflatArena.h:338-359 | the corrected clear sets the position and the bytes in use to 0, keeps the arena linked, and loses no block |
| ArenaRewind.ClearKeepsValid | src/CflatArena.h:338-359 | the corrected clear keeps an arena well formed |
| ArenaRewind.ClearAsWrittenKeepsValid | src/CflatArena.h:338-359 | clear as written keeps an arena well formed too, because the blocks it keeps are distinct |
| ArenaRewind.RestartValid | src/CflatArena.h:352-358 | restarting on a list of distinct existing blocks keeps an arena well formed |
| ArenaRewind.ClearAgrees | src/CflatArena.h:346-351 | with at most one free block the two clears agree |
| ArenaRewind.ClearLosesFreeBlocks | src/CflatArena.h:346-351 | with two or more free blocks, clear as written leaves the second free block reachable from neither list |
| ArenaRewind.TempBegin | src/CflatArena.h:361-366 | ending a temporary arena right after beginning it gives back the same arena |
| ArenaRewind.UnalignedSane | src/CflatArena.h:332-335 | the `align = 1` push that set_pos makes has sane arguments |
| ArenaRewind.UnalignedConsumes | src/CflatArena.h:332-335 | an unaligned push that succeeds consumes exactly its size |
| ArenaRewind.SetPosReaches | src/CflatArena.h:326-336 | the corrected set position never faults on a balanced arena; it lands exactly on the target unless it must grow a block and the push returns NULL; going down it always lands |
| ArenaRewind.SetPosDown | src/CflatArena.h:327-330 | setting the position down lands exactly on the target and keeps the arena well formed |
| ArenaRewind.SetPosBelow | src/CflatArena.h:327-330 | setting the position down pops the difference |
| ArenaRewind.PopBack | src/CflatArena.h:327-330 | popping back to a target below the position reaches it exactly |
| ArenaRewind.SetPosUp | src/CflatArena.h:332-335 | the corrected set position upwards lands on the target, or stays where it was when the push returns NULL |
| ArenaRewind.UnalignedPush | src/CflatArena.h:332-335 | an unaligned push on a balanced arena never faults, keeps it balanced, and moves the position by exactly `size` or not at all |
| ArenaRewind.UnalignedBalance | src/CflatArena.h:332-335 | the balance part of the above for a push that does not fault |
| ArenaRewind.UnalignedPlaced | src/CflatArena.h:332-335 | a placed unaligned push moves the position and the bytes in use by exactly `size` |
| ArenaRewind.UnalignedRefused | src/CflatArena.h:332-335 | a refused unaligned push keeps both |
| ArenaRewind.SetPosOverFixedPushOvershoots | src/CflatArena.h:332 | over the corrected push, line 332 alone makes a successful set position above the current one move `target` bytes past it |
| ArenaRewind.Sixteen | src/CflatArena.h:326-336 | the example arena (position 16, cursor 80) is linked |
| ArenaRewind.SixteenBalanced | src/CflatArena.h:326-336 | the example arena is balanced and has room for 32 more bytes |
| ArenaRewind.SetPosOverFixedPushExample | src/CflatArena.h:332 | over the corrected push, setting the example's position to 32 leaves it at 48 |
| ArenaRewind.SetPosOverFixedPushPlaces | src/CflatArena.h:332 | when the head block has room, that overshoot always happens |
| ArenaRewind.SetPosAsWrittenStays | src/CflatArena.h:326-336 | as written, a set position above the current one never moves the position, although its push hands out `target` bytes (or none when it returns NULL) |
| ArenaRewind.SetPosAsWrittenCursor | src/CflatArena.h:326-336 | as written, when the head block has room, the position stays and that block's cursor moves by `target` |
| ArenaRewind.SetPosAsWrittenExample | src/CflatArena.h:326-336 | as written, setting the example's position to 32 leaves it at 16 and moves the cursor from 80 to 112 |
| ArenaRewind.SetPosExample | src/CflatArena.h:326-336 | the corrected set position lands the example on 32 |
| ArenaRewind.TempEndAsWrittenDiffers | src/CflatArena.h:368-370 | ending a temporary arena begun at 32 on the example: as written the position stays at 16; corrected, it returns to 32 |
| ArenaRewind.UnalignedFits | src/CflatArena.h:239 | an unaligned push that fits in the head block is placed there |
| ArenaRewind.PushBalanced | src/CflatArena.h:230-294 | a successful corrected push on a balanced arena keeps it balanced and moves its position by the bytes consumed |
| ArenaRewind.TempRoundTrip | src/CflatArena.h:361-370 | a temporary arena undoes a push: ending it after a successful push restores the position and the bytes in use |
| ArenaRewind.TempLeaksAsWritten | src/CflatArena.h:368-370 | as written, push never moves the position, so ending a temporary arena after a push pops nothing |
| ArenaRewind.PushAsWrittenInUse | src/CflatArena.h:285-290 | the bytes a push as written hands out stay in use, as many as with the position fixed |
| ArenaScratch.Owned | src/CflatArena.h:206-212 | the blocks whose `ptr2free` is set, in order: exactly the listed ids that are owned, and no more of them |
| ArenaScratch.Delete | src/CflatArena.h:196-228 | delete of NULL releases nothing; otherwise no more blocks than the arena reaches |
| ArenaScratch.DeleteReleases | src/CflatArena.h:196-228 | delete releases exactly the owned blocks on the chain and the free list, each once |
| ArenaScratch.DeleteInit | src/CflatArena.h:172-175 | an arena built in a caller's buffer releases nothing |
| ArenaScratch.DeleteNew | src/CflatArena.h:177-194 | an arena from `cflat_arena_new` with something committed releases its one reservation |
| ArenaScratch.ClearReleasesSame | src/CflatArena.h:338-359 | after the corrected clear, delete releases the same blocks as before |
| ArenaScratch.ClearAsWrittenLeaks | src/CflatArena.h:346-351 | after clear as written, an owned block past the head of the free list is never released |
| ArenaScratch.Ready | src/CflatArena.h:379-384 | a slot the scan reaches is kept, or, when it was NULL, initialised in its thread-local buffer as a well-formed empty arena |
| ArenaScratch.Scan | src/CflatArena.h:374-404 | the scan hands out the first slot from `i` on whose arena is not a conflict, initialises the slots it passes, keeps the rest, and dereferences NULL exactly when every slot is a conflict |
| ArenaScratch.GetScratch | src/CflatArena.h:61-64 | `cflat_get_scratch_arena` scans the two thread-local slots |
| ArenaScratch.ScanFirst | src/CflatArena.h:386-399 | the slot handed out is the first one not among the conflicts |
| ArenaScratch.ScanValid | src/CflatArena.h:374-404 | the scan keeps every slot's arena well formed |
| ArenaScratch.NestedScratch | src/CflatArena.h:374-404 | a fresh pool hands out slot 0 with no conflict, then slot 1 with slot 0 as conflict, and dereferences NULL with both |
| HashProbe.FnvFoldAppend | src/CflatHashTable.h:77-84 | the hash folds the key one byte at a time, first to last: one more byte is one more round |
| HashProbe.FnvHash | src/CflatHashTable.h:77-84 | the loop of `cflat__fnv1a_hash` (seed 0x100, xor, multiply with 64-bit wrap, final `h ^ h >> 32`) computes the recursive fold |
| HashProbe.FnvEmpty | src/CflatHashTable.h:77-84 | the empty key hashes to the seed 0x100 |
| HashProbe.Step | src/CflatHashTable.h:93 | the probe step is always odd |
| HashProbe.MaskStep | src/CflatHashTable.h:90-95 | the next index is below the capacity `2^e` |
| HashProbe.MaskStepMod | src/CflatHashTable.h:90-95 | up to 32 index bits the `i32` truncation and the wrap are invisible: the next index is the last one plus the step, modulo the capacity |
| HashProbe.ThroughI32Mod | src/CflatHashTable.h:90 | passing an index through the `i32` parameter keeps its low 32 bits |
| HashProbe.Probe | src/CflatHashTable.h:170-172 | every probed index is below the capacity |
| HashProbe.ProbeMod | src/CflatHashTable.h:170-172 | probe `k` is `hash + k * step` modulo the capacity |
| HashProbe.ProbeDistinct | src/CflatHashTable.h:170-172 | the first `2^e` probes are pairwise distinct |
| HashProbe.ProbePeriodic | src/CflatHashTable.h:170-172 | the probe sequence repeats with period `2^e` |
| HashProbe.Probed | src/CflatHashTable.h:170-172 | the set of the first `n` probes lies below the capacity |
| HashProbe.ProbedSize | src/CflatHashTable.h:170-172 | the first `n <= 2^e` probes are `n` distinct indices |
| HashProbe.ProbeCovers | src/CflatHashTable.h:170-172 | every index below the capacity is probed within the first `2^e` probes |
| HashStore.MaxLoadBelow | src/CflatHashTable.h:176 | the load cap `(3 << e) / 4` is three quarters of the capacity and below it |
| HashStore.MaxLoadMonotone | src/CflatHashTable.h:176 | the load cap grows with the exponent |
| HashStore.ContentsHas | src/CflatHashTable.h:163-203 | a key is in the table's contents exactly when some USED slot holds it |
| HashStore.ContentsValue | src/CflatHashTable.h:163-203 | with unique keys, the contents map a USED slot's key to that slot's value |
| HashStore.ContentsUpdate | src/CflatHashTable.h:181-185 | writing a new key into a free slot adds exactly that entry and one to the count |
| HashStore.EmptyExists | src/CflatHashTable.h:174-186 | with no DELETED slots and fewer USED slots than slots, some slot is EMPTY |
| HashStore.AddScan | src/CflatHashTable.h:169-202 | the insertion probe keeps the table's shape |
| HashStore.GetScanAsWritten | src/CflatHashTable.h:205-229 | the lookup as written reports only USED slots |
| HashStore.GetScan | src/CflatHashTable.h:205-229 | the lookup with its loop ended after `2^e` probes reports only USED slots |
| HashStore.GetScanSound | src/CflatHashTable.h:205-229 | the bounded lookup always ends and reports only slots holding the key |
| HashStore.AsWrittenSound | src/CflatHashTable.h:205-229 | the lookup as written never reports a miss: it finds a slot holding the key or loops forever |
| HashStore.AsWrittenAgrees | src/CflatHashTable.h:205-229 | where the bounded lookup finds the key, the lookup as written finds the same slot |
| HashStore.AddScanMirror | src/CflatHashTable.h:169-202 | insertion finds the key already present exactly where the lookup finds it |
| HashStore.AddScanCycles | src/CflatHashTable.h:169-202 | insertion loops forever only when no probed slot from then on is EMPTY |
| HashStore.AddScanInserted | src/CflatHashTable.h:174-190 | insertion refuses only above the load cap; when it writes, it writes the first DELETED slot it passed (or the EMPTY one it reached), adds one to the count, and changes nothing else |
| HashStore.GetScanFrame | src/CflatHashTable.h:205-229 | writing another key into a free slot does not change where the lookup finds a key |
| HashStore.GetSpec | src/CflatHashTable.h:205-229 | on a valid table the bounded lookup finds a key exactly when it is in the contents, at a slot holding its value, and otherwise reports a miss |
| HashStore.GetAsWrittenSpec | src/CflatHashTable.h:205-229 | on a valid table the lookup as written finds every present key and loops forever on an absent one |
| HashStore.AbsentNowhere | src/CflatHashTable.h:163-203 | a key not in the contents is in no USED slot |
| HashStore.NeverCycles | src/CflatHashTable.h:169-202 | on a valid table insertion never loops forever |
| HashStore.InsertKeeps | src/CflatHashTable.h:174-186 | inserting a new key keeps the table valid, adds one to the count and adds exactly that entry |
| HashStore.AddRawSpec | src/CflatHashTable.h:163-203 | `cflat__hashtable_add_raw` on a valid table never loops; it reports a present key at its slot, refuses exactly a new key above the load cap, and otherwise inserts the entry keeping the table valid |
| HashStore.NewStore | src/CflatHashTable.h:97-108 | a new table has `next_pow2(capacity)` EMPTY slots and count 0 |
| HashStore.Shaped | src/CflatHashTable.h:90-95 | a table of the model has at least one slot and at most 2^32 |
| HashStore.NothingUsed | src/CflatHashTable.h:97-108 | slots that are all free have count 0 and no contents |
| HashStore.NewStoreShaped | src/CflatHashTable.h:97-108 | up to 2^32 the exponent is `log2` of the slot count, the slots hold the capacity asked for, and fewer than twice it |
| HashStore.NewStoreValid | src/CflatHashTable.h:97-108 | a new table is valid and empty |
| HashStore.NewStoreOfPow2 | src/CflatHashTable.h:97-108 | asking for `2^e` slots gives exponent `e` |
| HashStore.MaxLoadDoubles | src/CflatHashTable.h:176 | doubling the capacity raises the load cap by at least one |
| HashStore.NewStoreHuge | src/CflatHashTable.h:97-108 | a capacity above 2^63 rounds to 0 slots with exponent 63 |
| HashStore.Rehash | src/CflatHashTable.h:137-147 | re-adding the old USED slots keeps the new table's shape |
| HashStore.UniqueAfter | src/CflatHashTable.h:137-147 | with unique keys, a USED slot's key is not among the earlier slots |
| HashStore.RehashSafe | src/CflatHashTable.h:137-147 | re-adding keeps the new table valid and only ever holds old entries |
| HashStore.RehashComplete | src/CflatHashTable.h:137-147 | when the old entries fit under the new load cap, re-adding copies every one of them |
| HashStore.ResizeStore | src/CflatHashTable.h:110-150 | a resized table has the exponent of the new capacity |
| HashStore.ResizeSpec | src/CflatHashTable.h:110-150 | resize gives a valid table holding only old entries, and all of them when they fit under the new load cap |
| HashTable.New | src/CflatHashTable.h:97-108 | a new table keeps the hash function and has count 0 |
| HashTable.Resize | src/CflatHashTable.h:110-150 | resizing NULL dereferences it (line 113); otherwise the hash function is kept and the table keeps its shape |
| HashTable.Add | src/CflatHashTable.h:152-161 | adding to NULL dereferences it at line 156; otherwise the hash function is kept |
| HashTable.GetAsWritten | src/CflatHashTable.h:205-229 | a lookup in NULL gives NULL and never faults |
| HashTable.Get | src/CflatHashTable.h:205-229 | the same for the bounded lookup |
| HashTable.NewSpec | src/CflatHashTable.h:97-108 | a new table is valid, empty, and has at least the capacity asked for |
| HashTable.ResizeSpec | src/CflatHashTable.h:110-150 | resize keeps the table valid and, when the entries fit, keeps its contents |
| HashTable.Grow | src/CflatHashTable.h:156 | the doubling resize of add keeps the contents and the count and leaves room for one more entry |
| HashTable.AddSpec | src/CflatHashTable.h:152-161 | `cflat_hashtable_add` on a valid table keeps it valid, reports an insertion exactly when the key was absent, and then adds exactly that entry (otherwise the contents are unchanged) |
| HashTable.GetSpec | src/CflatHashTable.h:205-229 | the bounded lookup returns the key's value when present and NULL otherwise |
| HashTable.GetAsWrittenHangs | src/CflatHashTable.h:205-229 | the lookup as written returns a present key's value and loops forever on an absent key |
| HashTable.EmptyGetHangs | src/CflatHashTable.h:205-229 | on a new, empty table the lookup as written loops forever, where the bounded one returns NULL |
| HashSet.HashesOf | src/CflatHashSet.h:159 | the hash array has one entry per slot |
| HashSet.New | src/CflatHashSet.h:116-126 | a new table has count 0 and, up to 2^32, its hash array matches its slots |
| HashSet.AddRaw | src/CflatHashSet.h:139-178 | a write keeps the table's shape and lands in a slot of it |
| HashSet.Rehash | src/CflatHashSet.h:209-217 | re-adding keeps the table's shape |
| HashSet.Resize | src/CflatHashSet.h:180-221 | resize never faults (NULL makes a new table) and keeps the shape |
| HashSet.Add | src/CflatHashSet.h:223-232 | adding to NULL dereferences it at line 227 |
| HashSet.GetAsWritten | src/CflatHashSet.h:234-256 | a lookup in NULL gives NULL and never faults |
| HashSet.Get | src/CflatHashSet.h:234-256 | the same for the bounded lookup |
| HashSet.NewStoreShaped2 | src/CflatHashSet.h:116-126 | up to 2^32 a new store has its shape |
| HashSet.NewSpec | src/CflatHashSet.h:116-126 | a new table is valid, empty, and has at least the capacity asked for |
| HashSet.HashesUpdate | src/CflatHashSet.h:158-159 | writing a slot writes the key's FNV-1a hash into the hash array at the same index |
| HashSet.AddRawTracks | src/CflatHashSet.h:139-178 | the set's add_raw does what the table's does and keeps the hash array in step |
| HashSet.RehashTracks | src/CflatHashSet.h:209-217 | the set's rehash does what the table's does and keeps the hash array in step |
| HashSet.AddRawSpec | src/CflatHashSet.h:139-178 | on a valid table add_raw never loops, reports present keys, refuses exactly a new key above the load cap, and otherwise inserts the entry with its hash |
| HashSet.ResizeSpec | src/CflatHashSet.h:180-221 | resize of NULL gives an empty valid table; otherwise it holds only old entries, and all of them when they fit |
| HashSet.AddSpec | src/CflatHashSet.h:223-232 | add keeps a valid table valid, reports an insertion exactly when the key was absent, and then adds exactly that entry |
| HashSet.Grow | src/CflatHashSet.h:227 | the doubling resize keeps the contents and leaves room for one more entry |
| HashSet.GetSpec | src/CflatHashSet.h:234-256 | the bounded lookup returns a present key's value and NULL otherwise |
| HashSet.GetAsWrittenHangs | src/CflatHashSet.h:234-256 | the lookup as written loops forever on an absent key |
| HashSet.ResizeScratchAliases | src/CflatHashSet.h:194-197 | the scratch scope of resize, taken with no conflict, is slot 0, and slot 1 once slot 0 is a conflict |
| Kmp.OverlapStep | src/CflatString.h:128-134 | the overlap after one more byte is the automaton's move from the overlap before it: the invariant every row of the table serves |
| Kmp.DeltaAdvance | src/CflatString.h:132 | from state `q < \|p\|` the byte `p[q]` moves to `q + 1` |
| Kmp.DeltaFromZero | src/CflatString.h:123-124 | from state 0 only the first byte of the pattern moves, to 1 |
| Kmp.DeltaRestart | src/CflatString.h:129-131 | every other move from state `q` is the move from the restart state, the overlap of `p[1..q]` |
| Kmp.FullOverlap | src/CflatString.h:149 | the state is the pattern's length exactly when the text read so far ends with the pattern |
| Kmp.FirstIs | src/CflatString.h:139-158 | the first occurrence is the one with none before it, -1 when there is none |
| Kmp.LastIs | src/CflatString.h:164-180 | the last occurrence is the one with none after it, -1 when there is none |
| Kmp.MatchEnds | src/CflatString.h:151 | an occurrence at `n - \|p\|` is the pattern ending the first `n` bytes, so `i - length + 1` is where it starts |
| Kmp.FirstRow | src/CflatString.h:123-124 | row 0 has a cell for every byte value (`FirstRowAgrees` states that it is the KMP row of state 0) |
| Kmp.FirstRowAgrees | src/CflatString.h:123-124 | row 0 is the KMP row of state 0 |
| Kmp.AppendRow | src/CflatString.h:129-132 | a copy of the restart state's row with the match byte set to `q + 1` is the KMP row of state `q` |
| Kmp.StateAdvances | src/CflatString.h:133 | the restart state follows the pattern's own bytes from index 1 |
| Kmp.Fill | src/CflatString.h:128-134 | the rounds of `cflat__dfa_new` give `length + 1` rows of 256 cells, each cell below the cell width |
| Kmp.DfaNew | src/CflatString.h:114-137 | the automaton has a row per state and every cell names a row and fits its cell width |
| Kmp.Round | src/CflatString.h:128-134 | one round on correct rows appends the next correct row and the next restart state |
| Kmp.FillCorrect | src/CflatString.h:128-134 | with cells wider than the pattern's length the rounds build exactly the KMP table |
| Kmp.DfaNewCorrect | src/CflatString.h:114-137 | with wide enough cells every cell of the automaton is the KMP move |
| Kmp.ScanStep | src/CflatString.h:147-149 | after each byte the state is the overlap of the text read so far; it equals the pattern's length exactly where an occurrence ends |
| Kmp.Scan | src/CflatString.h:147-155 | a reported index is where an occurrence ending within the text starts, or the index found before |
| Kmp.ScanFirstSpec | src/CflatString.h:147-155 | leaving the loop at the first hit reports the first occurrence |
| Kmp.ScanLastSpec | src/CflatString.h:172-177 | going on after every hit reports the last occurrence |
| Kmp.ScanNever | src/CflatString.h:147-155 | an automaton whose cells never reach the pattern's length reports -1 |
| Kmp.LongNeverAccepts | src/CflatString.h:116-132 | with byte cells, a pattern of 256 bytes or more stores `q + 1` truncated, and no cell reaches the pattern's length |
| Kmp.ScansCorrect | src/CflatString.h:139-180 | the automaton of a correct width makes the scans report the first and the last occurrence |
| Kmp.FindIndexSpec | src/CflatString.h:139-158 | `cflat_sv_find_index_sv` reports the first occurrence (the last one when the exit is a `continue`) for patterns of 1 to 255 bytes, and -1 for every longer pattern |
| Kmp.FindIndex | src/CflatString.h:139-158 | a reported index marks an occurrence that ends within the text; otherwise the result is -1 |
| Kmp.FindLastIndexSpec | src/CflatString.h:164-180 | `cflat_sv_find_last_index_sv` reports the last occurrence for patterns of 1 to 255 bytes, and -1 for every longer pattern |
| Kmp.ExitReadingsDiffer | src/CflatString.h:153 | the two readings of the exit give different answers: 0 and 1 for "a" in "aa" |
| Kmp.LongPatternMissed | src/CflatString.h:116-132 | a pattern of 256 bytes or more occurs at 0 in itself, yet the search reports -1 |
| Kmp.FindIndexWideSpec | src/CflatString.h:139-158 | with cells wide enough for every state the search reports the first occurrence of every non-empty pattern |
| Kmp.FindIndexEmptySpec | src/CflatString.h:124-158 | the empty pattern occurs at 0, yet the search reports -1 for an empty text, 1 when the first byte differs from the byte past the pattern, and reads past the one-row table otherwise |
| Strings.StrLen | src/CflatString.h:70 | `strlen` counts the bytes before the first NUL: every byte counted is non-zero and the one after them is NUL |
| Strings.SvFromCstr | src/CflatString.h:70 | a C string's view lies in memory, holds no NUL, and is followed by its terminating NUL |
| Strings.StrClone | src/CflatString.h:75-107 | a clone holds one byte more than its length, for the terminating NUL |
| Strings.StrCloneSpec | src/CflatString.h:75-107 | a clone keeps the length and every byte and ends in NUL; read back as a C string it gives the source exactly when the source holds no NUL |
| Strings.StrCloneIn | src/CflatString.h:84-90 | a clone pushes `sizeof(CflatString) + length + 1` bytes; a NULL push faults at the length store; a clone that completes is at the pushed address, changes only that block, and holds the length, the bytes and a NUL |
| Strings.ImageHolds | src/CflatString.h:86-88 | the stored length, bytes and NUL read back as the length, the bytes and a terminator |
| Strings.StrCloneInSpec | src/CflatString.h:84-90 | on a committed arena and without a wrap, a clone faults exactly when the push returns NULL, and changes no byte outside its own |
| Strings.StrCloneInWraps | src/CflatString.h:85 | a length within 9 of 2^64 wraps the pushed size below the header, and the clone faults |
| Strings.StrCloneCstr | src/CflatString.h:75-82 | `cflat_str_clone_cstr` never loops, and a clone that completes holds the bytes up to the NUL |
| Strings.StrCloneSv | src/CflatString.h:84-90 | `cflat_str_clone_sv` never loops, and a clone that completes holds the view's bytes |
| Strings.StrCloneStr | src/CflatString.h:92-98 | `cflat_str_clone_str` never loops, and a clone that completes holds the string's `length` bytes |
| Strings.StrCloneSb | src/CflatString.h:100-106 | `cflat_str_clone_sb` never loops, and a clone that completes holds the builder's `count` bytes |
| Strings.StrLenIs | src/CflatString.h:70 | with a NUL at `i + n` and none before it, `strlen` from `i` is `n` |
| Strings.CstrCloneRoundTrip | src/CflatString.h:70-82 | a C string cloned into an arena and read back as a C string from the clone's `data` gives the same length and bytes |
| Strings.CloneViewRoundTrip | src/CflatString.h:71-90 | a view cloned into an arena and read back as a `CflatString` from the clone's header gives a valid view of the same bytes |
| Strings.SearchSpec | src/CflatString.h:139-158 | for a pattern of 1 to 255 bytes the search gives -1 exactly when the pattern does not occur, and otherwise an occurrence with none before it (or none after it, when the scan goes on) |
| Strings.FindSubstring | src/CflatString.h:186-193 | the result lies in memory and, unless it is the zero view, is at least as long as the pattern |
| Strings.FindSubstringSpec | src/CflatString.h:186-193 | the zero view exactly when the pattern does not occur; otherwise a view of the same memory running to the end of the string and starting with the pattern, at the first occurrence (the last when the scan goes on) |
| Strings.FindSubstringWhere | src/CflatString.h:186-188 | the index the search reports is -1 exactly when the pattern is absent, and otherwise an occurrence inside the string |
| Strings.FoundBytes | src/CflatString.h:189-192 | the rest of the string from an occurrence starts with the pattern |
| Strings.FindSubstringLong | src/CflatString.h:186-193 | a pattern of 256 bytes or more always gives the zero view |
| Strings.PathName | src/CflatString.h:222-239 | the name lies in memory |
| Strings.ByteMatch | src/CflatString.h:231 | a one-byte pattern occurs exactly where that byte is |
| Strings.ByteSearch | src/CflatString.h:231 | a one-byte search gives -1 exactly when the byte is absent, otherwise a position holding it with none before (or, going on, none after) |
| Strings.SeparatorView | src/CflatString.h:231-235 | the separator the search finds in the path, and the view after it: the bytes after that separator |
| Strings.PathNameSpec | src/CflatString.h:230-237 | away from Windows, a path without `/` is its own name; otherwise the name is what follows the first `/` (or, when the scan goes on, the last one, and then it holds no `/`) |
| Strings.WindowsPathNameSpec | src/CflatString.h:222-229 | on Windows, with the scan going on, a path with neither separator is its own name; otherwise the name follows a separator and holds neither `/` nor `\` |
| Strings.WindowsFirstPathNameSpec | src/CflatString.h:222-229 | on Windows, with the scan left at the first hit, a path with neither separator is its own name; otherwise the name follows the first separator of one kind, and the other kind, when present, occurs before it: the later of the first `/` and the first `\` |
| Strings.LastSeparator | src/CflatString.h:223-224 | the search that goes on finds the last `c`, -1 for none, and the view after it holds the bytes after it |
| Strings.LaterSeparator | src/CflatString.h:225-228 | after the later of the last `/` and the last `\` neither separator follows |
| Strings.WindowsFirstSeparators | src/CflatString.h:222-229 | with the scan left at the first hit the Windows name of `a/b/c` is `b/c`, not `c` |
| RingBuffer.Span | src/CflatRingBuffer.h:122-132 | the distance from `read` to `write` is below the length, and 0 exactly when the indices meet |
| RingBuffer.Contents | src/CflatRingBuffer.h:68-116 | the waiting elements, oldest first, are as many as the distance |
| RingBuffer.SlotsBeforeWrite | src/CflatRingBuffer.h:86-116 | going on from `read` past every waiting element reaches `write`, and no waiting element sits on `write` |
| RingBuffer.SlotAfterRead | src/CflatRingBuffer.h:81 | moving `read` on one slot shifts the waiting slots by one |
| RingBuffer.NextIndex | src/CflatRingBuffer.h:81-111 | `(k + 1) % length` is `k + 1`, or 0 at the end |
| RingBuffer.Fresh | src/CflatRingBuffer.h:53-54 | the ring a placed push gets has both indices 0; up to 2^63 slots it is empty, with a power-of-two length holding the request; beyond, `next_pow2` wraps to 0 and the ring has no slots |
| RingBuffer.NewLength | src/CflatRingBuffer.h:54 | `next_pow2` of a request up to 2^63 is a power of two that holds it; past 2^63 it is 0 |
| RingBuffer.IsEmpty | src/CflatRingBuffer.h:58-66 | on a ring with slots, empty exactly when nothing is waiting; NULL and a ring without slots are empty |
| RingBuffer.Count | src/CflatRingBuffer.h:122-132 | on a ring with slots, the number of waiting elements, below the length; 0 for NULL and for a ring without slots |
| RingBuffer.Read | src/CflatRingBuffer.h:68-84 | a read succeeds exactly when it yields an element and keeps the ring well formed; a ring without slots has `read == write` and gives nothing (line 75) |
| RingBuffer.Put | src/CflatRingBuffer.h:99-116 | a store keeps the ring valid and its length |
| RingBuffer.Overwrite | src/CflatRingBuffer.h:99-116 | nothing for NULL; a ring with slots stays valid; a ring without slots faults, as `(write + 1) % rb->length` divides by zero (line 108) |
| RingBuffer.WriteAsWritten | src/CflatRingBuffer.h:86-97 | the write as written keeps the ring well formed and does nothing to NULL; a ring without slots is refused, as `0 - 0 == length` (lines 90-91) |
| RingBuffer.Write | src/CflatRingBuffer.h:86-97 | the intended write keeps the ring well formed, does nothing to NULL and refuses a ring without slots |
| RingBuffer.Clear | src/CflatRingBuffer.h:118-120 | clearing NULL dereferences it; otherwise the length and slots are untouched, and a ring with slots is left empty |
| RingBuffer.PutContents | src/CflatRingBuffer.h:99-116 | a store appends the element; on a full ring the oldest one is dropped |
| RingBuffer.PutAppends | src/CflatRingBuffer.h:103-114 | below full, the contents gain the element at the end |
| RingBuffer.PutDrops | src/CflatRingBuffer.h:110-112 | on a full ring the element is appended and the oldest element is lost |
| RingBuffer.OverwriteSpec | src/CflatRingBuffer.h:99-116 | overwriting never fails: the element is appended, and on a full ring the oldest one is lost |
| RingBuffer.ReadSpec | src/CflatRingBuffer.h:68-84 | a read yields the oldest element and removes it, and fails exactly on an empty ring, which it leaves alone |
| RingBuffer.WriteSpec | src/CflatRingBuffer.h:86-97 | the intended write succeeds exactly when the ring is not full, and then appends; otherwise nothing changes |
| RingBuffer.FirstInFirstOut | src/CflatRingBuffer.h:68-116 | an element written into an empty ring is the next one read |
| RingBuffer.DifferenceNeverLength | src/CflatRingBuffer.h:90-91 | the unsigned difference `write - read` is never the length |
| RingBuffer.WriteAsWrittenOverwrites | src/CflatRingBuffer.h:86-97 | so `ring_buffer_write` as written always succeeds and behaves as `ring_buffer_overwrite` |
| RingBuffer.WriteLosesOldest | src/CflatRingBuffer.h:86-97 | in a ring of two slots, writing `a` then `b` succeeds twice as written and loses `a`; the intended write refuses `b` |
| RingBuffer.ZeroLengthRing | src/CflatRingBuffer.h:48-54 | a request of 2^63 + 1 gives a ring without slots in 26 pushed bytes; on it a read and a write give nothing, the count is 0, and an overwrite divides by zero at line 108 |
| RingBuffer.Allocated | src/CflatRingBuffer.h:48-54 | the intended block holds as many slots as the ring indexes, at least the request |
| RingBuffer.SizeForExact | src/CflatRingBuffer.h:48 | without a wrap the size is the header plus every slot |
| RingBuffer.ByteSizeExact | src/CflatRingBuffer.h:48 | without a wrap the intended size is the header plus a slot for each index the ring uses |
| RingBuffer.PlaceRing | src/CflatRingBuffer.h:53 | the header store goes through exactly when the push placed a block with room for the header; a NULL push faults |
| RingBuffer.NewOptAsWritten | src/CflatRingBuffer.h:46-56 | `ring_buffer_new_opt` pushes `length * element_size + sizeof(CflatRingBuffer)` bytes for the requested length; a NULL push faults; a ring it makes has both indices 0 and `next_pow2(length)` slots |
| RingBuffer.NewOpt | src/CflatRingBuffer.h:46-56 | the same with the size pushed for `next_pow2(length)` slots |
| RingBuffer.NewOptSpec | src/CflatRingBuffer.h:46-56 | on a committed arena and without a wrap, the new ring faults exactly when the push returns NULL; otherwise it is valid and empty, and its header and every slot lie within its block |
| RingBuffer.FreshThree | src/CflatRingBuffer.h:54 | a request for 3 slots gives a valid ring of 4 |
| RingBuffer.ThreeStores | src/CflatRingBuffer.h:103-107 | three stores into an empty ring of four slots leave `write` at 3 |
| RingBuffer.StoresInside | src/CflatRingBuffer.h:103-107 | in every ring reached from a new one by stores, reads and clears, the slot at `write` ends within the intended block |
| RingBuffer.SlotInside | src/CflatRingBuffer.h:103 | a slot index below the length ends within the size pushed for that length |
| RingBuffer.Run | src/CflatRingBuffer.h:68-120 | a run of stores, reads and clears keeps the ring valid and its length |
| RingBuffer.StoreBeyondBlock | src/CflatRingBuffer.h:48-54 | asking for 3 slots of 4 bytes pushes the header and 12 bytes, yet gives a ring of 4; after three stores `write` is 3, whose slot ends past the pushed bytes, and the fourth store writes there (line 103) |
| Da.Fresh | src/CflatDa.h:73-85 | the array a placed push gets is empty, belongs to its arena, and has the requested capacity (4 when 0 is asked for) in a block of header plus `capacity * element_size` bytes |
| Da.Cloned | src/CflatDa.h:87-94 | the clone a placed push gets exists exactly when the source is not NULL |
| Da.Capacity | src/CflatDa.h:74 | a capacity of 0 becomes 4; any other is kept |
| Da.ByteSizeExact | src/CflatDa.h:76 | without a wrap the pushed size is the header plus every slot |
| Da.Slots | src/CflatDa.h:76 | the slots a block really holds: all of them without a wrap, and only those that fit after the header when the size wraps |
| Da.Place | src/CflatDa.h:81-83 | the header stores go through exactly when the push placed a block with room for the header; a NULL push faults |
| Da.NewOpt | src/CflatDa.h:73-85 | `cflat_da_new_opt` pushes `sizeof(CflatOpaqueDa) + capacity * element_size` bytes (wrapping); a NULL push faults; an array it makes is empty, belongs to its arena, has the capacity, and its slots fit the pushed bytes |
| Da.NewOptSpec | src/CflatDa.h:73-85 | on a committed arena and without a wrap, the new array faults exactly when the push returns NULL, and is otherwise `Fresh` |
| Da.CopyOver | src/CflatDa.h:92 | the copy of the header and the first `count` elements faults exactly when it runs past the new block; otherwise the new array takes the source's header and elements and keeps its other slots |
| Da.CloneOpt | src/CflatDa.h:87-94 | `cflat_da_clone_opt` gives NULL for NULL; otherwise it faults when its `cflat_da_new_opt` does, and a clone that completes has the source's header and first `count` elements |
| Da.CopyFits | src/CflatDa.h:92 | the copied bytes fit a block that holds the larger capacity |
| Da.CloneOptSpec | src/CflatDa.h:87-94 | on a committed arena and without a wrap, a clone faults exactly when its push returns NULL, and is otherwise `Cloned` |
| Da.CloneSpec | src/CflatDa.h:87-94 | a clone has the source's count, capacity, arena and first `count` elements, in a block holding at least either capacity; NULL clones to NULL |
| Da.CloneCapacityOverwritten | src/CflatDa.h:90-92 | a clone asking for 100 slots of a 4-slot array gets a block of 100, yet its copied header says 4 |
| Da.Grown | src/CflatDa.h:57-58 | the grown capacity is above the old one: 4 from 0, otherwise twice as much |
| Da.Append | src/CflatDa.h:50-69 | an append keeps the array's header claims true |
| Da.AppendSpec | src/CflatDa.h:50-69 | an append adds exactly the value at `count` and keeps the elements before it; the capacity grows, to 4 or twice, exactly when the array was full |
| Da.AppendIndices | tst/arena_tests.c:99-109 | appending `0 .. n - 1` to a new array leaves every element reading back as its index |
| Da.CloneKeepsElements | tst/arena_tests.c:111-127 | a clone of such an array has the same count and every element |
| Append.Doubling | src/CflatAppend.h:18 | when the doubling loop ends the capacity has reached the hint |
| Append.WrapsAt64 | src/CflatAppend.h:18 | after 64 doublings every capacity has wrapped to 0 |
| Append.DoubleStep | src/CflatAppend.h:18 | one doubling of the wrapped capacity is the wrapped capacity of one more power of two |
| Append.DoublingReaches | src/CflatAppend.h:18 | for hints up to 2^63 the loop ends at the first `start * 2^j` that reaches the hint, below twice the hint unless `start` already reached it |
| Append.NewSizeCovers | src/CflatAppend.h:19 | while the grown bytes stay within 2^63, `new_size` covers them |
| Append.Resize | src/CflatAppend.h:10-22 | a resize that ends keeps the length and the old elements, does not shrink, and reaches the hint |
| Append.ResizeKeeps | src/CflatAppend.h:15 | a hint within the capacity changes nothing |
| Append.ResizeGrows | src/CflatAppend.h:15-18 | a larger hint up to 2^63 grows the capacity to the first `start * 2^j` that reaches it, from the old capacity or 4 |
| Append.ResizeHangs | src/CflatAppend.h:18 | a hint above 2^63 never ends the loop: the capacity wraps to 0 and stays there |
| Append.AppendValue | src/CflatAppend.h:24-28 | an append that ends keeps the slice's claims true |
| Append.AppendSpec | src/CflatAppend.h:24-28 | below 2^63 elements an append ends, stores the value at the old length, counts it and keeps the elements before it |
| Slices.ResolveSpec | src/CflatSlice.h:49-53 | a non-negative offset or length is kept; a negative one counts back from the length, wrapping modulo 2^64 beyond the start |
| Slices.Subslice | src/CflatSlice.h:48-61 | a subslice's capacity equals its length |
| Slices.SubsliceWithin | src/CflatSlice.h:48-61 | a subslice that stays within its slice reaches exactly elements `o .. o + n` of it |
| Slices.SubsliceUnchecked | src/CflatSlice.h:48-61 | nothing is checked: four elements from offset 2 of a four-element slice reach past its end |
| Slices.SkipTakePartition | src/CflatSlice.h:24-25 | taking `k` and skipping `k` split a slice: the first `k` elements and the remaining `length - k`, each at its own address |
| Slices.SkipBack | src/CflatSlice.h:24 | skipping `-k` is not refused: the slice starts `k` elements before the end and has `length + k` elements, `k` of them past the end |
| Slices.At | src/CflatSlice.h:30-31 | with the check on, `cflat_slice_at` succeeds exactly when the index read as `usize` is below the length; the address is `data + index * size` (the check is the `cflat_assert` of src/CflatCore.h:173-175) |
| Slices.AtChecked | src/CflatSlice.h:30-31 | with the check on, an index is accepted exactly when it is in `0 .. length`, and a negative one always faults (the assert of src/CflatCore.h:175) |
| Slices.AtUnchecked | src/CflatSlice.h:30-31 | with the check off a negative index reads below the slice (`NO_BOUNDS_CHECK`, src/CflatCore.h:173) |
| Slices.SliceNew | src/CflatSlice.h:63-73 | a new slice has the requested length at the arena's address and pushes `capacity * element_size` bytes |
| Slices.SliceNewSpec | src/CflatSlice.h:63-73 | up to 2^63 the capacity is a power of two holding the length and the requested capacity, below twice the larger (1 when both are 0); past 2^63 it wraps to 0 |
| Slices.SliceNewDefault | src/CflatSlice.h:16-18 | `cflat_slice_new` with its default capacity 4 gives three elements a capacity of 4 |
| Arrays.LeBytes | src/CflatArray.h:64 | a stored `usize` takes the requested number of bytes |
| Arrays.LeRoundTrip | src/CflatArray.h:64 | reading back the bytes stored for a value gives the value, when it fits |
| Arrays.Write | src/CflatArray.h:64-65 | a write keeps the memory's size, puts the bytes in place and changes no other byte |
| Arrays.WriteBeside | src/CflatArray.h:64-65 | a write leaves every range beside it as it was |
| Arrays.ArrayInit | src/CflatArray.h:59-67 | `cflat_array_init` never loops; a header it places lies inside memory |
| Arrays.ArrayInitSpec | src/CflatArray.h:59-67 | NULL memory gives the shared empty header and leaves memory alone; a block that holds the array reads back `length`, has exactly its element bytes zeroed when `clear` is set, and keeps every other byte |
| Arrays.InitWrites | src/CflatArray.h:64-65 | the header write and the zeroing together: the header reads `length`, the element bytes are zero, the rest is kept |
| Arrays.SetI32 | tst/arena_tests.c:161-163 | an element store keeps the memory's size |
| Arrays.SetGet | tst/arena_tests.c:161-163 | a store reads back at its own index and leaves every other element and the header alone |
| Arrays.FillIndices | tst/arena_tests.c:154-188 | storing each index into its element leaves the length unchanged and every element reading back as its index |
| Arrays.StoreLength | src/CflatArray.h:53 | the header store faults exactly when its eight bytes are not inside the block; otherwise the header reads back `length` and nothing else in the arena changes |
| Arrays.ArrayNewOpt | src/CflatArray.h:47-55 | `cflat_array_new_opt` never loops |
| Arrays.StoreBytes | src/CflatString.h:86-88 | stores into a block fault exactly when they run past it; otherwise the bytes read back and nothing else in the arena changes |
| Arrays.ArrayNewSpec | src/CflatArray.h:47-55 | a new array is the pushed block with the header reading `length`, with the push's placement, position and chain; a refused or faulting push faults |
| Fft.Log2OfPow2 | src/CflatFft.h:30 | `cflat_log2_u64` of `2^m` is `m` |
| Fft.ShiftOfCache | src/CflatFft.h:31 | `L >> (16 - m)` is `2^m` |
| Fft.RegionStartOf | src/CflatFft.h:29-31 | up to `log = 16` the region of `len = 2^log` starts `2^log` below the top of the table |
| Fft.TwiddleIndexSpec | src/CflatFft.h:28-33 | for `len = 2^m`, `1 <= m <= 16`, and `k < len / 2`, the index is `k + 2^16 - 2^m`, inside `len`'s region `[2^16 - 2^m, 2^16 - 2^(m-1))` |
| Fft.TwiddleIndexOfPow2 | src/CflatFft.h:28-33 | for `len = 2^m` the index is the slot for `log = m` |
| Fft.TwiddleIndex | src/CflatFft.h:28-33 | unless `k + 2^16` wraps, the index lies between `k` and one table length past it |
| Fft.TwiddleSlot | src/CflatFft.h:30-32 | the same, once `log2(len)` is known |
| Fft.TwiddleDistinct | src/CflatFft.h:28-33 | distinct `(len, k)` pairs within the table use distinct slots |
| Fft.SlotsDiffer | src/CflatFft.h:31-32 | regions of different sizes do not overlap, and within one region `k` tells the slots apart |
| Fft.VectorLookupInRegion | src/CflatFft.h:39-62 | a vector lookup at a `k` the merge loops reach reads four slots that all lie in `len`'s region |
| Fft.Precompute | src/CflatFft.h:43-51 | `cflat_twidle_precompute` sets `done`; a second call writes nothing, and the first writes every slot below `2^16 - 1` exactly once |
| Fft.PrecomputeStep | src/CflatFft.h:47-48 | writing slot `2^16 - len + k` extends the written range by one and keeps every slot written once |
| Fft.MergeIndices | src/CflatFft.h:57-65 | the merge loop for `len = 2^m >= 8` reads only twiddles of `len`'s region and touches every `out` index below `len` exactly once (the same split at lines 197-202) |
| Fft.MergeStep | src/CflatFft.h:59-64 | one merge step touches `e .. e + 4` and `o .. o + 4`, none touched before |
| Fft.SplitStrided | src/CflatFft.h:198-199 | the inputs of the two halves, at `in` and `in + stride` with stride doubled, are disjoint and together are the inputs of the whole |
| Fft.ReadsSpec | src/CflatFft.h:187-203 | for a power-of-two size the recursion reads exactly the inputs of its strided view (and its twin at lines 217-233) |
| Fft.EntryAsWritten | src/CflatFft.h:205-211 | the entry points go on exactly when the size is a power of two and both buffer addresses are multiples of 32 (and lines 235-240); nothing bounds the size by the table |
| Fft.OversizedReadsPast | src/CflatFft.h:30-32 | a size of 2^17 passes the check, and its last merge looks up twiddle slot 2^16, one past the table (reached through the check at line 206) |
| Fft.RegionStartOf17 | src/CflatFft.h:30-31 | `16 - 17` wraps in `usize` and the region start becomes the table size |
| Fft.Entry | src/CflatFft.h:205-211 | the corrected entry points go on exactly for a power of two up to 2^16 with both buffers 32-byte aligned (and lines 235-240) |
| Fft.EntryLookupsInTable | src/CflatFft.h:28-33 | for every size the corrected check accepts, each merge's twiddle lookup stays in the table (the lookups of lines 200-201) |
| Linear.Transposed | src/CflatLinear.h:11-17 | the transpose of a rectangular matrix has the swapped shape, with element `(j, i)` taken from `(i, j)` |
| Linear.TransposeInvolution | src/CflatLinear.h:11-17 | transposing twice gives the matrix back |
| Linear.Transpose | src/CflatLinear.h:11-17 | the loops of `cflat_transpose` leave every output element `(j, i)` equal to input element `(i, j)` |
| Linear.TransposeIsTransposed | src/CflatLinear.h:11-17 | the output the loops write is the transpose of the input |
| Lcg.ForceOneModFour | tst/access.c:24 | `(x & ~3) \| 1` clears the low two bits of `x` and sets bit 0: the result is one more than a multiple of four |
| Lcg.Multiplier | tst/access.c:24 | the multiplier is one more than a multiple of four |
| Lcg.Create | tst/access.c:20-26 | the generator starts at the seed, with an odd increment (`increment \| 1`) and a multiplier that is one more than a multiple of four |
| Lcg.CreateMultiplier | tst/access.c:24 | the masking does not change the constant 6364136223846793005, whose low bits are already `01` |
| Lcg.Next | tst/access.c:28-31 | a step keeps the multiplier and the increment, and the new state is below `max_exclusive` when it is not 0 |
| Lcg.NextOfPow2 | tst/access.c:28-31 | with `max_exclusive == 2^k` a step is the affine map `s -> (a * s + c) mod 2^k` |
| Lcg.NextOfOddMax | tst/access.c:29-30 | with an odd `max_exclusive` the mask is even and every value is even |
| Lcg.Run | tst/access.c:77-81 | `n` draws give `n` values, each below `max_exclusive` |
| Lcg.OddBoundRepeats | tst/access.c:73-93 | the benchmarks draw with `max_exclusive == INT32_MAX`, odd, so every index drawn is even and index 1 is never written (the bound is set at line 108) |
| Lcg.RunIsOrbit | tst/access.c:28-31 | draw `i` of a run modulo `2^k` is the orbit of the affine map after `i + 1` steps, reduced modulo `2^k` |
| Lcg.NoRepeat | tst/access.c:28-31 | with an odd increment and a multiplier one more than a multiple of four, orbit points less than `2^k` steps apart differ modulo `2^k` |
| Lcg.FullPeriod | tst/access.c:20-31 | under those conditions the first `2^k` draws with `max_exclusive == 2^k` are pairwise distinct and are every number below `2^k` |
| Lcg.CreateFullPeriod | tst/access.c:20-31 | every generator `distinct_sequence_rng` makes has that full period, whatever the seed and increment |

## Left out

- HashStore.Shaped: a table's exponent is at most 32, while the source allows any exponent below 64 (src/CflatHashTable.h:91). Up to 2^32 slots the probe step's `i32` truncation is invisible (`HashProbe.MaskStepMod`); the larger tables are not modelled.
- HashTable.Add: requires an exponent below 32, so that the doubling retry of src/CflatHashTable.h:156 stays within `HashStore.Shaped`.
- HashSet.Add: requires an exponent below 32, for the same reason.
- HashTable.Resize: requires a capacity of at most 2^32, where the source accepts any `usize` (src/CflatHashTable.h:110-117).
- HashSet.Resize: requires a capacity of at most 2^32, as `HashTable.Resize` does.
- HashTable.Get: keys are compared byte for byte, the default `cflat__mem_equals`. A caller's `equals` function (src/CflatHashTable.h:193 and 220) is not modelled. A caller's `hash` function is modelled, as the `Hasher` parameter.
- HashTable.ResizeSpec: states the rehash into the new table, not the arena traffic around it. Left out are `cflat_arena_extend`, the pop of `old_size` (src/CflatHashTable.h:135) against the pop of `new_size` in the set (src/CflatHashSet.h:206), and the scratch arena taken with no conflict (src/CflatHashSet.h:195). `cflat_arena_extend` is not part of this model. `HashSet.ResizeScratchAliases` states only which arena the scratch scope picks.
- Kmp.DfaNew: requires a non-empty pattern. The source accepts an empty one (src/CflatString.h:124) and then reads the byte just past the view. The empty pattern's search is modelled on its own, by `Kmp.EmptyScan` and `Kmp.FindIndexEmpty`, and `Kmp.FindIndexEmptySpec` states its results.
- Kmp.FindIndex: requires a non-empty pattern, for the same reason as `Kmp.DfaNew`.
- Strings.FindSubstring: requires a non-empty pattern, for the same reason as `Kmp.DfaNew`.
- Kmp.Scan: `scope_exit` (src/CflatString.h:152) is not defined in any header of this model. The library's own early exit `cflat_defer_exit` is `continue` (src/CflatCore.h:144), and inside the inner `for` it would only move on to the next byte. The search therefore takes a `leaves` parameter. With `leaves` set, the search stops at the first match. Without it, the search runs to the end and reports the last match. `Kmp.FindIndex`, `Strings.FindSubstring` and `Strings.PathName` carry the same parameter.
- Strings.PathName: outside Windows, src/CflatString.h:231 calls `cflat_find_substring_sv`, a name no header defines. It is read as `cflat_sv_find_substring_sv`.
- Bits.NextPow2I32: on inputs above 2^30 the `++x` of src/CflatBit.h:98 overflows, which is undefined behaviour in C. The model states the two's-complement wrap to the minimum value.
- Bits.NextPow2I64: the same holds for the overflow at src/CflatBit.h:120.
- Arena.ArenaInit: requires a buffer at least as large as the block header. `cflat_arena_init` (src/CflatArena.h:172-175) does not check this, and a smaller buffer would place the header outside it.
- Arena.ArenaNew: requires a commit of at least 1 byte, no more than the reservation, and a reservation that fits the address space once it is rounded up to pages. `Arena.New` answers every other input: it faults, as the asserts of src/CflatArena.h:179 and 189 and the header store of line 191 do.
- Arena.NewBlock: admits a commit of 0, although `cflat_arena_new` faults on such a block (`Arena.New`). Push asks for one only from a current block with nothing committed, and there it faults at the commit step first.
- ArenaRewind.Clear: the source's evident intent is ambiguous here. The corrected clear puts every free block first and then the chain, so the free list becomes "free list, then chain". The as-written `ArenaRewind.ClearAsWritten` keeps only the first free block.
- Append.Resize: `cflat_arena_extend_opt`, which moves the elements to a larger block, is not part of this model. Its effect is taken to be a block of the new capacity that starts with the old elements.
- Da.Grown: the capacity is a natural, so the doubling of `cflat_da_append` (src/CflatDa.h:56-58) is not wrapped at 2^64. Such capacities cannot be allocated in any case.
- Da.Append: the grown copy is `Da.Cloned`, the array once the clone's push has placed. The arena state and a NULL push of that clone are modelled by `Da.CloneOpt`, not here.
- Fft.TwiddleIndex: a shift by 64 or more is undefined behaviour in C. The model reads it the way x86-64 does, with the count taken modulo 64.
- Linear.Transpose: the `restrict` qualifiers and the returned pointer are not modelled. The method takes `in` and `out` as separate matrices.
- The floating point of the FFT (twiddle values, butterflies, scaling) is not modelled, nor are the other CflatFft.h kernels. Only their integer indexing is.
- The operating-system shim (reserve, commit, release and page size), thread-local storage for the scratch arenas, and ASAN poisoning are not modelled. Reserve and commit always succeed unless a requires above says otherwise, and the page size is the constant 4096.
- The LCG seeds from `time(NULL)` and from a pointer in tst/access.c. Both are parameters. The benchmarks' timing and `printf` are not modelled.
- HashTable.New: the four pushes of src/CflatHashTable.h:99-102 are taken to succeed with zeroed memory. The NULL they can return, the wrap of `key_size*capacity`, and the arena state are not modelled.
- HashSet.New: the same holds for the pushes of src/CflatHashSet.h:116-133.
- Kmp.DfaNew: the push of src/CflatString.h:118 is taken to succeed. The table is a value, not bytes in an arena.
- Slices.SliceNew: states the bytes pushed, not the arena state after the push of src/CflatSlice.h:68. The data pointer is only stored there, so a NULL push does not fault.
- RingBuffer.NewOpt: `ring_buffer_new` passes `sizeof(TRb)`, the size of the ring's own struct, as `element_size`, and the `ring_buffer_write`, `ring_buffer_overwrite` and `ring_buffer_read` macros (lines 37-39) pass `cflat_sizeof_member(CflatRingBuffer, data[0])`, which is 1 whatever the element type. The model takes the element size as given and moves whole elements.
- The string builder and `CflatString` types appear only as a view (data and length). Their capacities are not modelled.

## Findings

| source | as written | input that shows it | evidently intended | confidence | as-written member | corrected member |
|---|---|---|---|---|---|---|
| src/CflatArena.h:287-290 | `arena->pos += pst - current_node->pos` runs after `current_node->pos = pst`, so it adds 0 and the logical position never moves | a push of 16 bytes on a fresh arena leaves `pos` at 0 with 16 bytes in use | the position grows by the bytes the push consumed | high; not executed | Arena.PushAsWrittenMisses | Arena.PushAccounts |
| src/CflatArena.h:346-351 | clear sets `freelst->prev = arena->free`, which drops every free block after the first | an arena whose free list holds two blocks: the second is on neither list afterwards | every block stays reachable: the free list, then the chain | high; not executed | ArenaRewind.ClearLosesFreeBlocks | ArenaRewind.ClearKeepsValid |
| src/CflatArena.h:332-335 | set position pushes `pos` bytes instead of `pos - arena->pos`, and that push as written does not move the position | an arena at position 16 set to 32 stays at 16, and its cursor moves from 80 to 112 | the position becomes the target | high; not executed | ArenaRewind.SetPosAsWrittenExample | ArenaRewind.SetPosReaches |
| src/CflatArena.h:368-370 | ending a temporary arena goes through set position as written | a temporary arena begun at 32 and ended at 16 leaves the position at 16 | ending a temporary arena restores the position it began at | high; not executed | ArenaRewind.TempEndAsWrittenDiffers | ArenaRewind.TempRoundTrip |
| src/CflatBit.h:54-59 | `cflat_next_pow2_i8` has a single smear step, `x \|= x >> 1` | 9 gives 13, which is not a power of two | the next power of two, as the other widths compute | high; not executed | Bits.NextPow2I8AsWrittenMisses | Bits.NextPow2I8 |
| src/CflatCore.h:261-266 | the body of `cflat_next_pow2_i8` is defined under the name `cflat_is_pow2_i8`, so the `cflat_next_pow2_i8` declared at line 224 has no definition in this header | `cflat_is_pow2_i8(3)` returns 4, which reads as "yes" for a number that is not a power of two | the definition of `cflat_next_pow2_i8` | high; not executed | Bits.IsPow2I8Misnamed | Bits.NextPow2I8 |
| src/CflatCore.h:277-285 | the body of `cflat_next_pow2_i16` is defined under the name `cflat_is_pow2_i16`, so the `cflat_next_pow2_i16` declared at line 226 has no definition in this header | `cflat_is_pow2_i16(3)` returns 4 | the definition of `cflat_next_pow2_i16` | high; not executed | Bits.IsPow2I16Misnamed | Bits.NextPow2I16 |
| src/CflatHashTable.h:205-229 | the lookup loop has no exit for an EMPTY slot, so a missing key is searched for forever | any key in a new, empty table | a miss returns NULL | high; not executed | HashTable.EmptyGetHangs | HashTable.GetSpec |
| src/CflatHashSet.h:234-256 | the set's lookup has the same loop with no exit for a miss | a key that is not in the set | a miss returns NULL | high; not executed | HashSet.GetAsWrittenHangs | HashSet.GetSpec |
| src/CflatRingBuffer.h:90-91 | the full test `write - read == length` never holds, because indices stay below `length`; a write to a full ring overwrites the oldest element | a ring of 2 slots written twice holds only the second value | a write to a full ring is refused | medium; not executed | RingBuffer.WriteLosesOldest | RingBuffer.WriteSpec |
| src/CflatRingBuffer.h:48-54 | the push covers `length` slots, but the ring uses `next_pow2(length)` | a request for 3 slots: the fourth write stores at slot 3, past the block | a block of `next_pow2(length)` slots | high; not executed | RingBuffer.StoreBeyondBlock | RingBuffer.StoresInside |
| src/CflatString.h:116-132 | the automaton's cells are bytes, so `q + 1` is truncated for a pattern of 256 bytes or more | a pattern of 256 bytes searched for in itself is not found | patterns of any length are found | medium; not executed | Kmp.LongPatternMissed | Kmp.FindIndexWideSpec |
| src/CflatFft.h:205-211 | besides the buffers' alignment, the entry points check only that the size is a power of two, while the twiddle table covers sizes up to 2^16 | a size of 2^17 reads twiddle slot 2^16, one past the table | sizes above the table are refused | medium; not executed | Fft.OversizedReadsPast | Fft.EntryLookupsInTable |

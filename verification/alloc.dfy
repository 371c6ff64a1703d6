/**
 * The allocator of alloc.c as a class: the module globals `free_list`,
 * `alloc_algo`, `heap_limit`, `heap_start` and `current_heap_size` are its
 * fields. Headers live in memory the allocator owns; the model keeps the
 * free blocks in `freeList` and the blocks handed out (whose headers
 * `dealloc` reads back) in `live`.
 *
 * `sbrk` is an oracle: each call consumes the next reply of a list the
 * caller supplies. A granted region starts `gap` bytes above the current
 * program break (other code may have moved the break in between), so it
 * never overlaps memory the allocator already owns.
 */
module Alloc {
  import opened Wrappers
  import opened FreeList

  /** A C `int`. */
  type Int32 = x: int | -0x8000_0000 <= x < 0x8000_0000

  /** What one call of `sbrk(INCREMENT)` answers. */
  datatype SbrkReply = Refused | Granted(gap: nat)

  /** `struct allocinfo`. */
  datatype AllocInfo = AllocInfo(freeSize: int, freeChunks: nat, largest: int, smallest: int)

  /** `(uint64_t)v` for an `int`: negative values wrap modulo 2^64. */
  function ToU64(v: Int32): (r: nat)
    ensures r < U64_LIMIT && r % U64_LIMIT == v % U64_LIMIT
    ensures r % 0x1_0000_0000 == v % 0x1_0000_0000
  {
    if v < 0 then v + U64_LIMIT else v
  }

  /** `(int)n`: the low 32 bits read as a two's-complement number. */
  function ToI32(n: nat): (r: Int32)
    ensures r % 0x1_0000_0000 == n % 0x1_0000_0000
  {
    var low := n % 0x1_0000_0000;
    if low < 0x8000_0000 then low else low - 0x1_0000_0000
  }

  /** alloc.c:25: `size = (int)align8_u64((uint64_t)size)`. */
  function AlignedRequest(size: Int32): Int32 {
    ToI32(Align8(ToU64(size)))
  }

  /**
   * The request survives the check `size <= 0` of alloc.c:27 exactly when
   * 1 <= size <= 2^31 - 8, and then it is `size` rounded up to a multiple
   * of 8. Zero, every negative size, and the seven largest positive sizes
   * (which round up to 2^31 and wrap to a negative `int`) are refused.
   */
  lemma AlignedRequestSpec(size: Int32)
    ensures AlignedRequest(size) > 0 <==> 1 <= size <= 0x7FFF_FFF8
    ensures AlignedRequest(size) > 0 ==>
      AlignedRequest(size) % 8 == 0 && size <= AlignedRequest(size) < size + 8
  {
    if size >= 0 {
      AlignedNonNegative(size);
    } else {
      AlignedNegative(size);
    }
  }

  /** A size of at least 0 rounds up; past 2^31 - 8 it wraps to INT_MIN. */
  lemma AlignedNonNegative(size: Int32)
    requires size >= 0
    ensures size <= 0x7FFF_FFF8 ==> AlignedRequest(size) == (size + 7) / 8 * 8
    ensures size > 0x7FFF_FFF8 ==> AlignedRequest(size) == -0x8000_0000
  {
    var a := Align8(ToU64(size));
    assert a == (size + 7) / 8 * 8;
    if size <= 0x7FFF_FFF8 {
      assert a < 0x8000_0000;
    } else {
      assert a == 0x8000_0000;
    }
  }

  /** A negative size never becomes a positive request. */
  lemma AlignedNegative(size: Int32)
    requires size < 0
    ensures AlignedRequest(size) <= 0
  {
    var n := ToU64(size);
    var a := Align8(n);
    if size >= -7 {
      assert n + 7 >= U64_LIMIT;
    } else {
      var down := (size + 7) / 8 * 8;
      assert -0x8000_0000 <= down <= -8;
      assert a == U64_LIMIT + down;
      assert a % 0x1_0000_0000 == down + 0x1_0000_0000;
    }
  }

  /** Bytes of a list of blocks, header included, beyond the header: the payloads. */
  function Payload(s: seq<Block>): int {
    if s == [] then 0 else Payload(s[..|s| - 1]) + s[|s| - 1].size - HEADER
  }

  /** The reported free size is the free bytes less one header per chunk. */
  lemma {:induction false} PayloadSum(s: seq<Block>)
    ensures Payload(s) == Sum(s) - HEADER * |s|
  {
    if s != [] {
      var n := |s| - 1;
      PayloadSum(s[..n]);
      assert s == s[..n] + [s[n]];
      SumConcat(s[..n], [s[n]]);
      SingletonSumBytes(s[n]);
    }
  }

  /**
   * The walk of alloc.c:204-226: sum the payload sizes and track the
   * largest and smallest payload. The source starts the running minimum at
   * UINT64_MAX; here "no chunk yet" plays that part.
   */
  method Summarize(fl: seq<Block>) returns (info: AllocInfo)
    requires forall i :: 0 <= i < |fl| ==> fl[i].size > HEADER
    ensures info.freeSize == Payload(fl) == Sum(fl) - HEADER * |fl|
    ensures info.freeChunks == |fl|
    ensures fl == [] ==> info.largest == 0 && info.smallest == 0
    ensures forall i :: 0 <= i < |fl| ==> info.smallest <= fl[i].size - HEADER <= info.largest
    ensures fl != [] ==>
      && (exists i :: 0 <= i < |fl| && fl[i].size - HEADER == info.largest)
      && (exists i :: 0 <= i < |fl| && fl[i].size - HEADER == info.smallest)
  {
    var freeSize := 0;
    var chunks := 0;
    var largest := 0;
    var smallest: Option<int> := None;
    ghost var atLargest, atSmallest := 0, 0;
    while chunks < |fl|
      invariant chunks <= |fl|
      invariant freeSize == Payload(fl[..chunks])
      invariant forall i :: 0 <= i < chunks ==> fl[i].size - HEADER <= largest
      invariant chunks == 0 ==> largest == 0
      invariant chunks > 0 ==> atLargest < chunks && fl[atLargest].size - HEADER == largest
      invariant chunks == 0 <==> smallest.None?
      invariant smallest.Some? ==> forall i :: 0 <= i < chunks ==> smallest.value <= fl[i].size - HEADER
      invariant smallest.Some? ==> atSmallest < chunks && fl[atSmallest].size - HEADER == smallest.value
    {
      var chunk := fl[chunks].size - HEADER;
      assert fl[..chunks + 1][..chunks] == fl[..chunks];
      freeSize := freeSize + chunk;
      if chunk > largest {
        largest := chunk;
        atLargest := chunks;
      }
      if smallest.None? || chunk < smallest.value {
        smallest := Some(chunk);
        atSmallest := chunks;
      }
      chunks := chunks + 1;
    }
    assert fl[..chunks] == fl;
    PayloadSum(fl);
    info := AllocInfo(freeSize, chunks, largest, if chunks == 0 then 0 else smallest.value);
  }

  /**
   * Free blocks are well formed and in strict address order with gaps;
   * handed-out blocks are well formed and pairwise disjoint; the two groups
   * share no byte, lie below the break, and together account for every byte
   * obtained from `sbrk`.
   */
  ghost predicate Consistent(increment: nat, brk: nat, fl: seq<Block>, live: seq<Block>, owned: nat) {
    && increment % 8 == 0 && increment >= MIN_BLOCK
    && brk % 8 == 0
    && WellFormed(fl)
    && (forall i :: 0 <= i < |live| ==> BlockOk(live[i]))
    && Pairwise(live)
    && Bytes(fl) !! Bytes(live)
    && (forall x :: x in Bytes(fl) ==> x < brk)
    && (forall x :: x in Bytes(live) ==> x < brk)
    && Sum(fl) + Sum(live) == owned
  }

  /** Handing out part or all of free block k keeps the state consistent. */
  lemma CarveKeeps(increment: nat, brk: nat, fl: seq<Block>, live: seq<Block>, owned: nat, k: nat, need: nat)
    requires Consistent(increment, brk, fl, live, owned) && k < |fl|
    requires need <= fl[k].size && need >= MIN_BLOCK && need % 8 == 0
    ensures Consistent(increment, brk, Carve(fl, k, need), live + [Taken(fl[k], need)], owned)
  {
    var t := Taken(fl[k], need);
    CarveSpec(fl, k, need);
    DisjointFromAll(t, live);
    PairwiseAppend(live, t);
    RangeInBytes(fl, k);
  }

  /** Every byte of a block lies between its address and its end. */
  lemma RangeBounds(b: Block)
    ensures forall x :: x in Range(b) ==> b.addr <= x < b.End()
  {
    forall x | x in Range(b)
      ensures b.addr <= x < b.End()
    {
      assert Holds(b, x);
    }
  }

  /** A region granted above the break is disjoint from everything below it. */
  lemma FreshApart(brk: nat, b: Block, s: seq<Block>)
    requires brk <= b.addr && forall i :: 0 <= i < |s| ==> s[i].size > 0
    requires forall x :: x in Bytes(s) ==> x < brk
    ensures forall i :: 0 <= i < |s| ==> Disjoint(b, s[i])
    ensures Range(b) !! Bytes(s)
  {
    EndsBelow(s, brk);
    RangeBounds(b);
  }

  /** Sums of multiples of 8 are multiples of 8. */
  lemma AlignedSum(brk: nat, gap: nat, increment: nat)
    requires brk % 8 == 0 && gap % 8 == 0 && increment % 8 == 0
    ensures (brk + gap) % 8 == 0 && (brk + gap + increment) % 8 == 0
  {
    var x, y, z := brk / 8, gap / 8, increment / 8;
    assert brk + gap == 8 * (x + y);
    assert brk + gap + increment == 8 * (x + y + z);
  }

  /**
   * Adding block b to the free list, with the break raised to `top`, keeps
   * the state consistent when b is new memory below `top`.
   */
  lemma AddFreeKeeps(increment: nat, brk: nat, fl: seq<Block>, live: seq<Block>, owned: nat,
                     b: Block, top: nat, fl': seq<Block>)
    requires Consistent(increment, brk, fl, live, owned)
    requires brk <= top && top % 8 == 0 && b.End() <= top
    requires WellFormed(fl') && Sum(fl') == Sum(fl) + b.size && Bytes(fl') == Bytes(fl) + Range(b)
    requires Range(b) !! Bytes(live)
    ensures Consistent(increment, top, fl', live, owned + b.size)
  {
    RangeBounds(b);
  }

  /** A first region, granted while the free list is empty, becomes the whole free list. */
  lemma ArenaKeeps(increment: nat, brk: nat, live: seq<Block>, owned: nat, gap: nat)
    requires Consistent(increment, brk, [], live, owned) && gap % 8 == 0
    ensures Consistent(increment, brk + gap + increment, [Block(brk + gap, increment)], live, owned + increment)
  {
    var b := Block(brk + gap, increment);
    AlignedSum(brk, gap, increment);
    FreshApart(brk, b, live);
    SingletonSumBytes(b);
    AddFreeKeeps(increment, brk, [], live, owned, b, brk + gap + increment, [b]);
  }

  /** Linking a granted region into the free list keeps the state consistent. */
  lemma GrowKeeps(increment: nat, brk: nat, fl: seq<Block>, live: seq<Block>, owned: nat, gap: nat, k: nat)
    requires Consistent(increment, brk, fl, live, owned) && gap % 8 == 0
    requires IsInsertionPoint(fl, brk + gap, k)
    ensures var b := Block(brk + gap, increment);
      && Consistent(increment, brk + gap + increment, Coalesce(fl, k, b), live, owned + increment)
      && Bytes(Coalesce(fl, k, b)) == Bytes(fl) + Range(b)
  {
    var b := Block(brk + gap, increment);
    AlignedSum(brk, gap, increment);
    FreshApart(brk, b, fl);
    FreshApart(brk, b, live);
    CoalesceSpec(fl, k, b);
    AddFreeKeeps(increment, brk, fl, live, owned, b, brk + gap + increment, Coalesce(fl, k, b));
  }

  /** Returning handed-out block k to the free list keeps the state consistent. */
  lemma DeallocKeeps(increment: nat, brk: nat, fl: seq<Block>, live: seq<Block>, owned: nat, k: nat, j: nat)
    requires Consistent(increment, brk, fl, live, owned) && k < |live|
    requires IsInsertionPoint(fl, live[k].addr, j)
    ensures && Consistent(increment, brk, Coalesce(fl, j, live[k]), live[..k] + live[k+1..], owned)
            && Bytes(Coalesce(fl, j, live[k])) == Bytes(fl) + Range(live[k])
  {
    var block := live[k];
    PairwiseRemove(live, k);
    RangeInBytes(live, k);
    DisjointFromAll(block, fl);
    CoalesceSpec(fl, j, block);
  }

  class Allocator {
    /** INCREMENT of alloc.h: the bytes every `sbrk` call asks for. */
    const increment: nat
    var freeList: seq<Block>
    var algo: Algo
    var heapLimit: nat
    var heapStart: Option<nat>
    var currentHeapSize: nat
    /** The program break: all memory the allocator owns lies below it. */
    var brk: nat
    /** The blocks handed out and not returned, with the sizes their headers hold. */
    var live: seq<Block>
    /** The bytes obtained from `sbrk` so far. */
    ghost var owned: nat

    /** The allocator's state is Consistent. */
    ghost predicate Valid()
      reads this
    {
      Consistent(increment, brk, freeList, live, owned)
    }

    /**
     * The state before the first call: an empty free list, first fit, no
     * heap limit, no heap. `brk` is where the program break stands.
     */
    constructor (increment: nat, brk: nat)
      requires increment % 8 == 0 && increment >= MIN_BLOCK && brk % 8 == 0
      ensures Valid()
      ensures this.increment == increment && this.brk == brk
      ensures freeList == [] && live == [] && algo == FirstFit
      ensures heapLimit == 0 && heapStart == None && currentHeapSize == 0
    {
      this.increment := increment;
      this.brk := brk;
      freeList := [];
      live := [];
      algo := FirstFit;
      heapLimit := 0;
      heapStart := None;
      currentHeapSize := 0;
      owned := 0;
    }

    /**
     * alloc.c:30-45: the free list is empty, so a new arena from `sbrk`
     * becomes the whole free list; `heap_start` moves to it and
     * `current_heap_size` is reset to INCREMENT.
     */
    method InitArena(gap: nat)
      requires Valid() && freeList == [] && gap % 8 == 0
      modifies this`freeList, this`heapStart, this`currentHeapSize, this`brk, this`owned
      ensures Valid()
      ensures freeList == [Block(old(brk) + gap, increment)]
      ensures heapStart == Some(old(brk) + gap) && currentHeapSize == increment
      ensures brk == old(brk) + gap + increment && owned == old(owned) + increment
    {
      ArenaKeeps(increment, brk, live, owned, gap);
      freeList, heapStart, currentHeapSize, brk, owned :=
        [Block(brk + gap, increment)], Some(brk + gap), increment, brk + gap + increment, owned + increment;
    }

    /**
     * alloc.c:47-122: pick a block for `need` bytes (header included) by the
     * current strategy, then split it or unlink it whole, and hand it out.
     * On success the pointer returned is the block address plus the header.
     */
    method Place(need: nat) returns (p: Option<nat>, ghost k: nat)
      requires Valid() && need >= MIN_BLOCK && need % 8 == 0
      modifies this`freeList, this`live
      ensures Valid()
      ensures p.None? ==> NoCandidate(old(freeList), algo, need)
      ensures p.None? ==> freeList == old(freeList) && live == old(live)
      ensures p.Some? ==>
        && IsChoice(old(freeList), algo, need, k)
        && freeList == Carve(old(freeList), k, need)
        && live == old(live) + [Taken(old(freeList)[k], need)]
      ensures p.Some? ==>
        && |live| == |old(live)| + 1 && live[..|old(live)|] == old(live)
        && p.value == live[|old(live)|].addr + HEADER
        && need <= live[|old(live)|].size
    {
      var chosen := Choose(freeList, algo, need);
      if chosen.None? {
        return None, 0;
      }
      var at := chosen.value;
      var fl := freeList;
      var t := Taken(fl[at], need);
      CarveKeeps(increment, brk, fl, live, owned, at, need);
      freeList := Carve(fl, at, need);
      k := at;
      live := live + [t];
      p := Some(t.addr + HEADER);
    }

    /**
     * alloc.c:124-155 after the limit check: a granted region is linked in
     * address order and coalesced with its neighbours, and
     * `current_heap_size` grows by INCREMENT.
     */
    method Grow(gap: nat) returns (ghost k: nat)
      requires Valid() && gap % 8 == 0
      modifies this`freeList, this`currentHeapSize, this`brk, this`owned
      ensures Valid()
      ensures IsInsertionPoint(old(freeList), old(brk) + gap, k)
      ensures freeList == Coalesce(old(freeList), k, Block(old(brk) + gap, increment))
      ensures currentHeapSize == old(currentHeapSize) + increment
      ensures brk == old(brk) + gap + increment && owned == old(owned) + increment
    {
      var b := Block(brk + gap, increment);
      var at := InsertionScan(freeList, b.addr);
      GrowKeeps(increment, brk, freeList, live, owned, gap, at);
      freeList, brk, owned, currentHeapSize :=
        Coalesce(freeList, at, b), brk + gap + increment, owned + increment, currentHeapSize + increment;
      k := at;
    }

    /** alloc.c:124: growth is allowed with no limit, or while it stays within it. */
    predicate MayGrow()
      reads this
    {
      heapLimit == 0 || currentHeapSize + increment <= heapLimit
    }

    /**
     * alloc.c:47-157 for a block size `need` (the aligned request plus the
     * header): place the request, and otherwise grow the heap and try again
     * (the recursive call of alloc.c:156). Each `sbrk` call consumes the
     * next reply; running out of replies reads as `sbrk` failing.
     */
    method Serve(need: nat, replies: seq<SbrkReply>) returns (p: Option<nat>, ghost k: nat)
      requires Valid() && need >= MIN_BLOCK && need % 8 == 0
      requires forall i :: 0 <= i < |replies| && replies[i].Granted? ==> replies[i].gap % 8 == 0
      modifies this`freeList, this`live, this`currentHeapSize, this`brk, this`owned
      decreases |replies|, 1
      ensures Valid()
      ensures p.None? ==> live == old(live)
      ensures p.Some? ==>
        && |live| == |old(live)| + 1 && live[..|old(live)|] == old(live)
        && p.value == live[|old(live)|].addr + HEADER
        && need <= live[|old(live)|].size
      ensures NoCandidate(old(freeList), algo, need)
              && (!old(MayGrow()) || replies == [] || replies[0].Refused?)
              ==> p.None? && unchanged(this)
      ensures !NoCandidate(old(freeList), algo, need) ==>
        && p.Some? && currentHeapSize == old(currentHeapSize) && brk == old(brk)
        && IsChoice(old(freeList), algo, need, k)
        && freeList == Carve(old(freeList), k, need)
        && live == old(live) + [Taken(old(freeList)[k], need)]
      ensures currentHeapSize == old(currentHeapSize) || currentHeapSize <= heapLimit || heapLimit == 0
      ensures old(owned) <= owned
    {
      p, k := Place(need);
      if p.None? {
        p, k := Retry(need, replies);
      }
    }

    /**
     * alloc.c:124-156: with no block to place the request in, grow the heap
     * when the limit allows it and `sbrk` grants a region, then serve the
     * request again.
     */
    method Retry(need: nat, replies: seq<SbrkReply>) returns (p: Option<nat>, ghost k: nat)
      requires Valid() && need >= MIN_BLOCK && need % 8 == 0
      requires forall i :: 0 <= i < |replies| && replies[i].Granted? ==> replies[i].gap % 8 == 0
      modifies this`freeList, this`live, this`currentHeapSize, this`brk, this`owned
      decreases |replies|, 0
      ensures Valid()
      ensures p.None? ==> live == old(live)
      ensures p.Some? ==>
        && |live| == |old(live)| + 1 && live[..|old(live)|] == old(live)
        && p.value == live[|old(live)|].addr + HEADER
        && need <= live[|old(live)|].size
      ensures !old(MayGrow()) || replies == [] || replies[0].Refused? ==> p.None? && unchanged(this)
      ensures currentHeapSize == old(currentHeapSize) || currentHeapSize <= heapLimit || heapLimit == 0
      ensures old(owned) <= owned
    {
      if !MayGrow() || replies == [] || replies[0].Refused? {
        return None, 0;
      }
      ghost var _ := Grow(replies[0].gap);
      p, k := Serve(need, replies[1..]);
    }

    /**
     * alloc.c:21-159: align the request and refuse what is not positive;
     * with an empty free list, a first `sbrk` sets up the arena
     * (alloc.c:30-45); then serve the request.
     */
    method Alloc(size: Int32, replies: seq<SbrkReply>) returns (p: Option<nat>, ghost k: nat)
      requires Valid()
      requires forall i :: 0 <= i < |replies| && replies[i].Granted? ==> replies[i].gap % 8 == 0
      modifies this`freeList, this`live, this`heapStart, this`currentHeapSize, this`brk, this`owned
      ensures Valid()
      ensures AlignedRequest(size) <= 0 ==> p.None? && unchanged(this)
      ensures AlignedRequest(size) > 0 && old(freeList) == [] && (replies == [] || replies[0].Refused?)
              ==> p.None? && unchanged(this)
      ensures p.None? ==> live == old(live)
      ensures p.Some? ==>
        && |live| == |old(live)| + 1 && live[..|old(live)|] == old(live)
        && p.value == live[|old(live)|].addr + HEADER
        && AlignedRequest(size) + HEADER <= live[|old(live)|].size
      ensures AlignedRequest(size) > 0 && old(freeList) != []
              && NoCandidate(old(freeList), algo, AlignedRequest(size) + HEADER)
              && (!old(MayGrow()) || replies == [] || replies[0].Refused?)
              ==> p.None? && unchanged(this)
      ensures heapLimit == 0 || currentHeapSize == old(currentHeapSize)
              || currentHeapSize == increment || currentHeapSize <= heapLimit
      ensures old(owned) <= owned
    {
      var aligned := AlignedRequest(size);
      if aligned <= 0 {
        return None, 0;
      }
      AlignedRequestSpec(size);
      p, k := Request(aligned + HEADER, replies);
    }

    /**
     * alloc.c:30-157 for a block size `need`: with an empty free list, a
     * first `sbrk` sets up the arena (alloc.c:30-45), and a failing one
     * answers NULL; then serve the request.
     */
    method Request(need: nat, replies: seq<SbrkReply>) returns (p: Option<nat>, ghost k: nat)
      requires Valid() && need >= MIN_BLOCK && need % 8 == 0
      requires forall i :: 0 <= i < |replies| && replies[i].Granted? ==> replies[i].gap % 8 == 0
      modifies this`freeList, this`live, this`heapStart, this`currentHeapSize, this`brk, this`owned
      ensures Valid()
      ensures old(freeList) == [] && (replies == [] || replies[0].Refused?) ==> p.None? && unchanged(this)
      ensures p.None? ==> live == old(live)
      ensures p.Some? ==>
        && |live| == |old(live)| + 1 && live[..|old(live)|] == old(live)
        && p.value == live[|old(live)|].addr + HEADER
        && need <= live[|old(live)|].size
      ensures old(freeList) != [] && NoCandidate(old(freeList), algo, need)
              && (!old(MayGrow()) || replies == [] || replies[0].Refused?)
              ==> p.None? && unchanged(this)
      ensures old(freeList) != [] && !NoCandidate(old(freeList), algo, need) ==>
        && p.Some? && currentHeapSize == old(currentHeapSize) && brk == old(brk)
        && IsChoice(old(freeList), algo, need, k)
        && freeList == Carve(old(freeList), k, need)
        && live == old(live) + [Taken(old(freeList)[k], need)]
      ensures heapLimit == 0 || currentHeapSize == old(currentHeapSize)
              || currentHeapSize == increment || currentHeapSize <= heapLimit
      ensures old(owned) <= owned
    {
      if freeList != [] {
        p, k := Serve(need, replies);
        return;
      }
      if replies == [] || replies[0].Refused? {
        return None, 0;
      }
      InitArena(replies[0].gap);
      p, k := Serve(need, replies[1..]);
    }

    /**
     * alloc.c:161-190: `dealloc(NULL)` does nothing; otherwise the block
     * whose payload starts at `ptr` goes back into the free list in address
     * order and is coalesced with its neighbours.
     */
    method Dealloc(ptr: Option<nat>)
      requires Valid()
      requires ptr.Some? ==> exists k :: 0 <= k < |live| && live[k].addr + HEADER == ptr.value
      modifies this`freeList, this`live
      ensures Valid()
      ensures ptr.None? ==> freeList == old(freeList) && live == old(live)
      ensures ptr.Some? ==> exists k: nat ::
        && k < |old(live)| && old(live)[k].addr + HEADER == ptr.value
        && live == old(live)[..k] + old(live)[k+1..]
        && Bytes(freeList) == old(Bytes(freeList)) + Range(old(live)[k])
        && exists j: nat ::
             && IsInsertionPoint(old(freeList), old(live)[k].addr, j)
             && freeList == Coalesce(old(freeList), j, old(live)[k])
    {
      if ptr.None? {
        return;
      }
      var k :| 0 <= k < |live| && live[k].addr + HEADER == ptr.value;
      var block := live[k];
      var j := InsertionScan(freeList, block.addr);
      DeallocKeeps(increment, brk, freeList, live, owned, k, j);
      freeList := Coalesce(freeList, j, block);
      live := live[..k] + live[k+1..];
    }

    /** alloc.c:192-195: set the strategy and the limit, `(uint64_t)limit`. */
    method AllocOpt(algorithm: Algo, limit: Int32)
      requires Valid()
      modifies this`algo, this`heapLimit
      ensures Valid()
      ensures algo == algorithm && heapLimit == ToU64(limit)
    {
      algo := algorithm;
      heapLimit := ToU64(limit);
    }

    /** alloc.c:197-229: `allocinfo`, which only reads the free list. */
    method Info() returns (info: AllocInfo)
      requires Valid()
      ensures info.freeSize == Payload(freeList) == Sum(freeList) - HEADER * |freeList|
      ensures info.freeChunks == |freeList|
      ensures freeList == [] ==> info.largest == 0 && info.smallest == 0
      ensures forall i :: 0 <= i < |freeList| ==>
        info.smallest <= freeList[i].size - HEADER <= info.largest
      ensures freeList != [] ==>
        && (exists i :: 0 <= i < |freeList| && freeList[i].size - HEADER == info.largest)
        && (exists i :: 0 <= i < |freeList| && freeList[i].size - HEADER == info.smallest)
    {
      info := Summarize(freeList);
    }
  }
}

/**
 * The free-list logic of the allocator in alloc.c, on values.
 *
 * A block is an (address, size) pair: `size` counts the 16-byte header
 * (`struct header`: a 64-bit size and a next pointer) together with the
 * payload. The intrusive free list is modelled as the sequence of its
 * blocks in list order; the `next` links are the sequence order.
 */
module FreeList {
  import opened Wrappers

  /** sizeof(struct header). */
  const HEADER: nat := 16
  /** The smallest block ever kept: a header plus 8 payload bytes (alloc.c:100). */
  const MIN_BLOCK: nat := HEADER + 8
  const U64_LIMIT: nat := 0x1_0000_0000_0000_0000

  datatype Block = Block(addr: nat, size: nat) {
    function End(): nat { addr + size }
  }

  /** The placement strategies of `enum algs`. */
  datatype Algo = FirstFit | BestFit | WorstFit

  /** Every block the allocator creates is 8-aligned and can hold a header and 8 bytes. */
  predicate BlockOk(b: Block) {
    b.size >= MIN_BLOCK && b.size % 8 == 0 && b.addr % 8 == 0
  }

  predicate Disjoint(a: Block, b: Block) {
    a.End() <= b.addr || b.End() <= a.addr
  }

  /**
   * Strictly increasing addresses with a gap between any two blocks: no two
   * free blocks overlap and none is physically adjacent to another.
   */
  predicate Separated(fl: seq<Block>) {
    forall i, j :: 0 <= i < j < |fl| ==> fl[i].End() < fl[j].addr
  }

  predicate WellFormed(fl: seq<Block>) {
    (forall i :: 0 <= i < |fl| ==> BlockOk(fl[i])) && Separated(fl)
  }

  /** Total bytes (headers included) of a list of blocks. */
  function Sum(s: seq<Block>): nat {
    if s == [] then 0 else s[0].size + Sum(s[1..])
  }

  /** Byte x lies inside block b. */
  predicate Holds(b: Block, x: nat) {
    b.addr <= x < b.End()
  }

  /** The bytes a block occupies. */
  function Range(b: Block): set<nat> {
    set x: nat | b.addr <= x < b.addr + b.size && Holds(b, x)
  }

  /** The bytes a list of blocks occupies. */
  function Bytes(s: seq<Block>): set<nat> {
    if s == [] then {} else Range(s[0]) + Bytes(s[1..])
  }

  // ---------------------------------------------------------------------------
  // Facts about Sum and Bytes
  // ---------------------------------------------------------------------------

  lemma {:induction false} SumConcat(a: seq<Block>, b: seq<Block>)
    ensures Sum(a + b) == Sum(a) + Sum(b)
  {
    if a == [] {
      assert a + b == b;
    } else {
      assert (a + b)[1..] == a[1..] + b;
      SumConcat(a[1..], b);
    }
  }

  lemma {:induction false} BytesConcat(a: seq<Block>, b: seq<Block>)
    ensures Bytes(a + b) == Bytes(a) + Bytes(b)
  {
    if a == [] {
      assert a + b == b;
    } else {
      assert (a + b)[1..] == a[1..] + b;
      BytesConcat(a[1..], b);
    }
  }

  lemma RangeSplit(addr: nat, s1: nat, s2: nat)
    ensures Range(Block(addr, s1 + s2)) == Range(Block(addr, s1)) + Range(Block(addr + s1, s2))
  {
    var whole, left, right := Block(addr, s1 + s2), Block(addr, s1), Block(addr + s1, s2);
    forall x: nat
      ensures x in Range(whole) <==> x in Range(left) + Range(right)
    {
      assert Holds(whole, x) <==> Holds(left, x) || Holds(right, x);
    }
  }

  /** Every block's bytes belong to the list's bytes. */
  lemma {:induction false} RangeInBytes(s: seq<Block>, i: nat)
    requires i < |s|
    ensures Range(s[i]) <= Bytes(s)
  {
    if i > 0 {
      RangeInBytes(s[1..], i - 1);
    }
  }

  /** A list whose blocks all lie in [lo, hi) occupies only bytes in [lo, hi). */
  lemma {:induction false} BytesWithin(s: seq<Block>, lo: nat, hi: nat)
    requires forall i :: 0 <= i < |s| ==> lo <= s[i].addr && s[i].End() <= hi
    ensures forall x :: x in Bytes(s) ==> lo <= x < hi
  {
    if s != [] {
      BytesWithin(s[1..], lo, hi);
    }
  }

  /** Two non-empty blocks whose byte sets do not meet are disjoint by address. */
  lemma RangesDisjoint(a: Block, b: Block)
    requires a.size > 0 && b.size > 0 && Range(a) !! Range(b)
    ensures Disjoint(a, b)
  {
    var x := if a.addr < b.addr then b.addr else a.addr;
    assert Holds(a, x) && Holds(b, x) ==> x in Range(a) * Range(b);
  }

  /** A block whose bytes avoid a list's bytes is disjoint from each block of it. */
  lemma DisjointFromAll(b: Block, s: seq<Block>)
    requires b.size > 0 && forall i :: 0 <= i < |s| ==> s[i].size > 0
    requires Range(b) !! Bytes(s)
    ensures forall i :: 0 <= i < |s| ==> Disjoint(b, s[i])
  {
    forall i | 0 <= i < |s|
      ensures Disjoint(b, s[i])
    {
      RangeInBytes(s, i);
      RangesDisjoint(b, s[i]);
    }
  }

  /** A block disjoint from every block of a list shares no byte with it. */
  lemma {:induction false} DisjointBytes(b: Block, s: seq<Block>)
    requires forall i :: 0 <= i < |s| ==> Disjoint(b, s[i])
    ensures Range(b) !! Bytes(s)
  {
    if s != [] {
      DisjointBytes(b, s[1..]);
      forall x | x in Range(b)
        ensures x !in Range(s[0])
      {
        assert Holds(b, x) && Disjoint(b, s[0]);
      }
    }
  }

  /** A list whose bytes all lie below `top` has every block ending at or below it. */
  lemma EndsBelow(s: seq<Block>, top: nat)
    requires forall i :: 0 <= i < |s| ==> s[i].size > 0
    requires forall x :: x in Bytes(s) ==> x < top
    ensures forall i :: 0 <= i < |s| ==> s[i].End() <= top
  {
    forall i | 0 <= i < |s|
      ensures s[i].End() <= top
    {
      RangeInBytes(s, i);
      assert Holds(s[i], s[i].End() - 1);
      assert s[i].End() - 1 in Range(s[i]);
    }
  }

  /** Taking block k out of a list removes its size. */
  lemma RemoveAtSum(s: seq<Block>, k: nat)
    requires k < |s|
    ensures Sum(s) == Sum(s[..k] + s[k+1..]) + s[k].size
  {
    var pre, post := s[..k], s[k+1..];
    assert s == (pre + [s[k]]) + post;
    SumConcat(pre + [s[k]], post);
    SumConcat(pre, [s[k]]);
    SingletonSumBytes(s[k]);
    SumConcat(pre, post);
  }

  /** Taking block k out of a list removes its bytes. */
  lemma RemoveAtBytes(s: seq<Block>, k: nat)
    requires k < |s|
    ensures Bytes(s) == Bytes(s[..k] + s[k+1..]) + Range(s[k])
  {
    BytesAround(s, k);
    BytesConcat(s[..k], s[k+1..]);
  }

  /** No two blocks of a list overlap (the blocks handed out need not be in order). */
  predicate Pairwise(s: seq<Block>) {
    forall i, j :: 0 <= i < j < |s| ==> Disjoint(s[i], s[j])
  }

  /** Appending a block disjoint from all the others keeps a list pairwise disjoint. */
  lemma PairwiseAppend(s: seq<Block>, b: Block)
    requires Pairwise(s) && forall i :: 0 <= i < |s| ==> Disjoint(b, s[i])
    ensures Pairwise(s + [b])
    ensures Sum(s + [b]) == Sum(s) + b.size && Bytes(s + [b]) == Bytes(s) + Range(b)
  {
    var r := s + [b];
    forall i, j | 0 <= i < j < |r|
      ensures Disjoint(r[i], r[j])
    {
      if j == |s| {
        assert Disjoint(b, s[i]);
      } else {
        assert r[i] == s[i] && r[j] == s[j];
      }
    }
    SingletonSumBytes(b);
    SumConcat(s, [b]);
    BytesConcat(s, [b]);
  }

  /**
   * Removing block k keeps a pairwise disjoint list pairwise disjoint, and
   * the removed block shares no byte with what is left.
   */
  lemma PairwiseRemove(s: seq<Block>, k: nat)
    requires Pairwise(s) && k < |s|
    ensures Pairwise(s[..k] + s[k+1..])
    ensures Range(s[k]) !! Bytes(s[..k] + s[k+1..])
    ensures Sum(s) == Sum(s[..k] + s[k+1..]) + s[k].size
    ensures Bytes(s) == Bytes(s[..k] + s[k+1..]) + Range(s[k])
  {
    var r := s[..k] + s[k+1..];
    assert forall i :: 0 <= i < |r| ==> r[i] == s[if i < k then i else i + 1];
    forall i | 0 <= i < |r|
      ensures Disjoint(s[k], r[i])
    {
      var i' := if i < k then i else i + 1;
      assert Disjoint(s[i'], s[k]) || Disjoint(s[k], s[i']);
    }
    forall a, b | 0 <= a < b < |r|
      ensures Disjoint(r[a], r[b])
    {
      var a', b' := if a < k then a else a + 1, if b < k then b else b + 1;
      assert Disjoint(s[a'], s[b']);
    }
    DisjointBytes(s[k], r);
    RemoveAtSum(s, k);
    RemoveAtBytes(s, k);
  }

  /** The bytes of a list are those before position k, of block k and after it. */
  lemma BytesAround(fl: seq<Block>, k: nat)
    requires k < |fl|
    ensures Bytes(fl) == Bytes(fl[..k]) + Range(fl[k]) + Bytes(fl[k+1..])
  {
    var pre, post := fl[..k], fl[k+1..];
    assert fl == (pre + [fl[k]]) + post;
    BytesConcat(pre + [fl[k]], post);
    BytesConcat(pre, [fl[k]]);
    SingletonSumBytes(fl[k]);
  }

  /** In a separated list the blocks before position k lie below block k. */
  lemma SeparatedBefore(fl: seq<Block>, k: nat)
    requires Separated(fl) && k < |fl|
    ensures Bytes(fl[..k]) !! Range(fl[k])
  {
    var pre := fl[..k];
    forall i | 0 <= i < |pre|
      ensures 0 <= pre[i].addr && pre[i].End() <= fl[k].addr
    {
      assert pre[i] == fl[i];
    }
    BytesWithin(pre, 0, fl[k].addr);
  }

  /** In a separated list the blocks after position k lie above block k. */
  lemma SeparatedAfter(fl: seq<Block>, k: nat)
    requires Separated(fl) && k < |fl|
    ensures Bytes(fl[k+1..]) !! Range(fl[k])
  {
    var post := fl[k+1..];
    var lo, hi := fl[k].End() + 1, fl[|fl| - 1].End() + 1;
    forall i | 0 <= i < |post|
      ensures lo <= post[i].addr && post[i].End() <= hi
    {
      assert post[i] == fl[k + 1 + i];
      if k + 1 + i < |fl| - 1 {
        assert fl[k + 1 + i].End() < fl[|fl| - 1].addr;
      }
    }
    BytesWithin(post, lo, hi);
  }

  /** The bytes of the blocks before and after position k do not meet block k. */
  lemma SeparatedSplit(fl: seq<Block>, k: nat)
    requires Separated(fl) && k < |fl|
    ensures Bytes(fl) == Bytes(fl[..k]) + Range(fl[k]) + Bytes(fl[k+1..])
    ensures Bytes(fl[..k]) !! Range(fl[k]) && Bytes(fl[k+1..]) !! Range(fl[k])
  {
    BytesAround(fl, k);
    SeparatedBefore(fl, k);
    SeparatedAfter(fl, k);
  }

  // ---------------------------------------------------------------------------
  // alloc.c:19 — align8_u64
  // ---------------------------------------------------------------------------

  /**
   * `(n + 7) & ~7` on 64-bit unsigned integers: the addition wraps, and
   * clearing the low three bits rounds down to a multiple of 8.
   */
  function Align8(n: nat): (r: nat)
    requires n < U64_LIMIT
    ensures r < U64_LIMIT && r % 8 == 0
    ensures n + 7 < U64_LIMIT ==> n <= r < n + 8
    ensures n + 7 >= U64_LIMIT ==> r == 0
  {
    ((n + 7) % U64_LIMIT) / 8 * 8
  }

  // ---------------------------------------------------------------------------
  // alloc.c:52-90 — choosing a block
  // ---------------------------------------------------------------------------

  /**
   * A block may be chosen for a request whose block size (payload plus
   * header) is `need`: first and best fit accept `size >= need`, worst fit
   * only `size > need` (alloc.c:54, 64, 79).
   */
  predicate Eligible(algo: Algo, b: Block, need: nat) {
    if algo == WorstFit then b.size > need else b.size >= need
  }

  predicate NoCandidate(fl: seq<Block>, algo: Algo, need: nat) {
    forall j :: 0 <= j < |fl| ==> !Eligible(algo, fl[j], need)
  }

  /**
   * Index k is the block the strategy picks: the first eligible one; the
   * smallest eligible one, earliest on ties; or the largest eligible one,
   * earliest on ties.
   */
  predicate IsChoice(fl: seq<Block>, algo: Algo, need: nat, k: nat) {
    && k < |fl|
    && Eligible(algo, fl[k], need)
    && match algo
       case FirstFit =>
         forall j :: 0 <= j < k ==> !Eligible(algo, fl[j], need)
       case BestFit =>
         && (forall j :: 0 <= j < |fl| && Eligible(algo, fl[j], need) ==> fl[k].size <= fl[j].size)
         && (forall j :: 0 <= j < k && Eligible(algo, fl[j], need) ==> fl[k].size < fl[j].size)
       case WorstFit =>
         && (forall j :: 0 <= j < |fl| && Eligible(algo, fl[j], need) ==> fl[j].size <= fl[k].size)
         && (forall j :: 0 <= j < k && Eligible(algo, fl[j], need) ==> fl[j].size < fl[k].size)
  }

  /** The three characterisations each determine the chosen block. */
  lemma ChoiceUnique(fl: seq<Block>, algo: Algo, need: nat, k1: nat, k2: nat)
    requires IsChoice(fl, algo, need, k1) && IsChoice(fl, algo, need, k2)
    ensures k1 == k2
  {
  }

  /** The walk of alloc.c:53-59: stop at the first block that is large enough. */
  method FirstFitScan(fl: seq<Block>, need: nat) returns (k: Option<nat>)
    ensures k.Some? ==> IsChoice(fl, FirstFit, need, k.value)
    ensures k.None? ==> NoCandidate(fl, FirstFit, need)
  {
    var i := 0;
    while i < |fl|
      invariant i <= |fl|
      invariant forall j :: 0 <= j < i ==> fl[j].size < need
    {
      if fl[i].size >= need {
        return Some(i);
      }
      i := i + 1;
    }
    return None;
  }

  /**
   * The walk of alloc.c:62-74: keep the smallest block that is large enough,
   * replacing it only by a strictly smaller one. The source starts its
   * running minimum at UINT64_MAX; here "no block yet" plays that part.
   */
  method BestFitScan(fl: seq<Block>, need: nat) returns (k: Option<nat>)
    ensures k.Some? ==> IsChoice(fl, BestFit, need, k.value)
    ensures k.None? ==> NoCandidate(fl, BestFit, need)
  {
    k := None;
    var bestSize := 0;
    var i := 0;
    while i < |fl|
      invariant i <= |fl|
      invariant k.None? ==> forall j :: 0 <= j < i ==> fl[j].size < need
      invariant k.Some? ==> k.value < i && fl[k.value].size == bestSize && bestSize >= need
      invariant k.Some? ==> forall j :: 0 <= j < i && fl[j].size >= need ==> bestSize <= fl[j].size
      invariant k.Some? ==> forall j :: 0 <= j < k.value && fl[j].size >= need ==> bestSize < fl[j].size
    {
      if fl[i].size >= need && (k.None? || fl[i].size < bestSize) {
        k := Some(i);
        bestSize := fl[i].size;
      }
      i := i + 1;
    }
  }

  /**
   * The walk of alloc.c:77-89: keep the largest block strictly larger than
   * needed, replacing it only by a strictly larger one.
   */
  method WorstFitScan(fl: seq<Block>, need: nat) returns (k: Option<nat>)
    ensures k.Some? ==> IsChoice(fl, WorstFit, need, k.value)
    ensures k.None? ==> NoCandidate(fl, WorstFit, need)
  {
    k := None;
    var worstSize := 0;
    var i := 0;
    while i < |fl|
      invariant i <= |fl|
      invariant k.None? ==> worstSize == 0 && forall j :: 0 <= j < i ==> fl[j].size <= need
      invariant k.Some? ==> k.value < i && fl[k.value].size == worstSize && worstSize > need
      invariant k.Some? ==> forall j :: 0 <= j < i && fl[j].size > need ==> fl[j].size <= worstSize
      invariant k.Some? ==> forall j :: 0 <= j < k.value && fl[j].size > need ==> fl[j].size < worstSize
    {
      if fl[i].size > need && fl[i].size > worstSize {
        k := Some(i);
        worstSize := fl[i].size;
      }
      i := i + 1;
    }
  }

  /** alloc.c:52-90: the walk `alloc_algo` selects. */
  method Choose(fl: seq<Block>, algo: Algo, need: nat) returns (k: Option<nat>)
    ensures k.Some? ==> IsChoice(fl, algo, need, k.value)
    ensures k.None? ==> NoCandidate(fl, algo, need)
  {
    match algo {
      case FirstFit => k := FirstFitScan(fl, need);
      case BestFit => k := BestFitScan(fl, need);
      case WorstFit => k := WorstFitScan(fl, need);
    }
  }

  // ---------------------------------------------------------------------------
  // Splicing: replacing blocks lo..hi of a list by the blocks ms
  // ---------------------------------------------------------------------------

  function Splice(fl: seq<Block>, lo: nat, hi: nat, ms: seq<Block>): seq<Block>
    requires lo <= hi <= |fl|
  {
    fl[..lo] + ms + fl[hi..]
  }

  lemma SpliceSeparated(fl: seq<Block>, lo: nat, hi: nat, ms: seq<Block>)
    requires Separated(fl) && Separated(ms) && lo <= hi <= |fl|
    requires forall j :: 0 <= j < |ms| ==> lo > 0 ==> fl[lo-1].End() < ms[j].addr
    requires forall j :: 0 <= j < |ms| ==> hi < |fl| ==> ms[j].End() < fl[hi].addr
    requires lo > 0 && hi < |fl| ==> fl[lo-1].End() < fl[hi].addr
    ensures Separated(Splice(fl, lo, hi, ms))
  {
    var r := Splice(fl, lo, hi, ms);
    var m := |ms|;
    assert forall i :: 0 <= i < lo ==> r[i] == fl[i];
    assert forall i :: lo <= i < lo + m ==> r[i] == ms[i - lo];
    assert forall i :: lo + m <= i < |r| ==> r[i] == fl[i - lo - m + hi];
    forall i, j | 0 <= i < j < |r|
      ensures r[i].End() < r[j].addr
    {
      if j < lo {
      } else if j < lo + m {
        if i < lo {
          assert fl[i].End() <= fl[lo-1].End();
        }
      } else {
        var j' := j - lo - m + hi;
        assert fl[hi].addr <= fl[j'].addr;
        if i < lo {
          assert fl[i].End() <= fl[lo-1].End();
        }
      }
    }
  }

  lemma SpliceOk(fl: seq<Block>, lo: nat, hi: nat, ms: seq<Block>)
    requires lo <= hi <= |fl|
    requires forall i :: 0 <= i < |fl| ==> BlockOk(fl[i])
    requires forall i :: 0 <= i < |ms| ==> BlockOk(ms[i])
    ensures forall i :: 0 <= i < |Splice(fl, lo, hi, ms)| ==> BlockOk(Splice(fl, lo, hi, ms)[i])
  {
    var r := Splice(fl, lo, hi, ms);
    forall i | 0 <= i < |r|
      ensures BlockOk(r[i])
    {
      if i < lo {
        assert r[i] == fl[i];
      } else if i < lo + |ms| {
        assert r[i] == ms[i - lo];
      } else {
        assert r[i] == fl[i - lo - |ms| + hi];
      }
    }
  }

  lemma SpliceSum(fl: seq<Block>, lo: nat, hi: nat, ms: seq<Block>)
    requires lo <= hi <= |fl|
    ensures Sum(Splice(fl, lo, hi, ms)) + Sum(fl[lo..hi]) == Sum(fl) + Sum(ms)
  {
    assert fl == fl[..lo] + fl[lo..hi] + fl[hi..];
    SumConcat(fl[..lo] + fl[lo..hi], fl[hi..]);
    SumConcat(fl[..lo], fl[lo..hi]);
    SumConcat(fl[..lo] + ms, fl[hi..]);
    SumConcat(fl[..lo], ms);
  }

  lemma SpliceBytes(fl: seq<Block>, lo: nat, hi: nat, ms: seq<Block>)
    requires lo <= hi <= |fl|
    ensures Bytes(Splice(fl, lo, hi, ms)) == Bytes(fl[..lo]) + Bytes(ms) + Bytes(fl[hi..])
    ensures Bytes(fl) == Bytes(fl[..lo]) + Bytes(fl[lo..hi]) + Bytes(fl[hi..])
  {
    assert fl == fl[..lo] + fl[lo..hi] + fl[hi..];
    BytesConcat(fl[..lo] + fl[lo..hi], fl[hi..]);
    BytesConcat(fl[..lo], fl[lo..hi]);
    BytesConcat(fl[..lo] + ms, fl[hi..]);
    BytesConcat(fl[..lo], ms);
  }

  lemma SingletonSumBytes(b: Block)
    ensures Sum([b]) == b.size && Bytes([b]) == Range(b)
  {
    assert [b][1..] == [];
  }

  lemma PairSumBytes(a: Block, b: Block)
    ensures Sum([a, b]) == a.size + b.size && Bytes([a, b]) == Range(a) + Range(b)
  {
    assert [a, b][1..] == [b];
    SingletonSumBytes(b);
  }

  // ---------------------------------------------------------------------------
  // alloc.c:92-121 — split or consume the chosen block
  // ---------------------------------------------------------------------------

  /** alloc.c:95: the bytes left over when `need` bytes are taken from `b`. */
  function Remainder(b: Block, need: nat): nat {
    if b.size > need then b.size - need else 0
  }

  /** alloc.c:100: split only when the leftover can hold a header and 8 bytes. */
  predicate Splits(b: Block, need: nat) {
    Remainder(b, need) >= MIN_BLOCK
  }

  /** The block handed to the caller: shrunk to `need` on a split, else whole. */
  function Taken(b: Block, need: nat): Block {
    if Splits(b, need) then Block(b.addr, need) else b
  }

  /** What block k is replaced by: the remainder at `addr + need`, or nothing. */
  function Leftover(b: Block, need: nat): seq<Block> {
    if Splits(b, need) then [Block(b.addr + need, Remainder(b, need))] else []
  }

  /**
   * The free list after block k serves a request of `need` bytes: on a split
   * the remainder takes the block's place (and its link), otherwise the
   * block is unlinked.
   */
  function Carve(fl: seq<Block>, k: nat, need: nat): seq<Block>
    requires k < |fl|
  {
    Splice(fl, k, k + 1, Leftover(fl[k], need))
  }

  /** Taken and Leftover tile the chosen block. */
  lemma TakenLeftover(b: Block, need: nat)
    requires BlockOk(b) && need <= b.size && need >= MIN_BLOCK && need % 8 == 0
    ensures var t := Taken(b, need);
      && t.addr == b.addr && need <= t.size && BlockOk(t)
      && t.size + Sum(Leftover(b, need)) == b.size
      && Range(t) + Bytes(Leftover(b, need)) == Range(b)
      && Range(t) !! Bytes(Leftover(b, need))
    ensures forall i :: 0 <= i < |Leftover(b, need)| ==>
      BlockOk(Leftover(b, need)[i]) && b.addr < Leftover(b, need)[i].addr
      && Leftover(b, need)[i].End() == b.End()
  {
    if Splits(b, need) {
      var rem := Block(b.addr + need, b.size - need);
      SingletonSumBytes(rem);
      RangeSplit(b.addr, need, b.size - need);
      forall x | x in Range(Taken(b, need))
        ensures x !in Range(rem)
      {
        assert Holds(Taken(b, need), x);
      }
    }
  }

  lemma CarveSpec(fl: seq<Block>, k: nat, need: nat)
    requires WellFormed(fl) && k < |fl|
    requires need <= fl[k].size && need >= MIN_BLOCK && need % 8 == 0
    ensures var t := Taken(fl[k], need);
      && t.addr == fl[k].addr && need <= t.size && BlockOk(t)
      && Range(t) <= Bytes(fl)
    ensures WellFormed(Carve(fl, k, need))
    ensures Sum(Carve(fl, k, need)) + Taken(fl[k], need).size == Sum(fl)
    ensures Bytes(Carve(fl, k, need)) == Bytes(fl) - Range(Taken(fl[k], need))
    ensures Splits(fl[k], need) ==>
      |Carve(fl, k, need)| == |fl| && Carve(fl, k, need)[k] == Block(fl[k].addr + need, fl[k].size - need)
    ensures !Splits(fl[k], need) ==> |Carve(fl, k, need)| == |fl| - 1
    ensures Carve(fl, k, need)[..k] == fl[..k]
  {
    var b := fl[k];
    var ms := Leftover(b, need);
    TakenLeftover(b, need);
    assert fl[k..k+1] == [b];
    SingletonSumBytes(b);
    SpliceSum(fl, k, k + 1, ms);
    CarveBytes(fl, k, need);
    SpliceOk(fl, k, k + 1, ms);
    if k > 0 {
      assert fl[k-1].End() < b.addr;
    }
    SpliceSeparated(fl, k, k + 1, ms);
  }

  lemma CarveBytes(fl: seq<Block>, k: nat, need: nat)
    requires WellFormed(fl) && k < |fl|
    requires need <= fl[k].size && need >= MIN_BLOCK && need % 8 == 0
    ensures Range(Taken(fl[k], need)) <= Bytes(fl)
    ensures Bytes(Carve(fl, k, need)) == Bytes(fl) - Range(Taken(fl[k], need))
  {
    var b := fl[k];
    var t := Taken(b, need);
    var ms := Leftover(b, need);
    TakenLeftover(b, need);
    SeparatedSplit(fl, k);
    assert fl[k..k+1] == [b];
    SingletonSumBytes(b);
    SpliceBytes(fl, k, k + 1, ms);
    assert Range(t) <= Range(b);
    assert Range(t) !! Bytes(fl[..k]) && Range(t) !! Bytes(fl[k+1..]);
  }

  // ---------------------------------------------------------------------------
  // alloc.c:135-154 and alloc.c:168-189 — ordered insert and coalesce
  // ---------------------------------------------------------------------------

  /** k is where a block at address `a` goes to keep the list in address order. */
  predicate IsInsertionPoint(fl: seq<Block>, a: nat, k: nat) {
    && k <= |fl|
    && (forall j :: 0 <= j < k ==> fl[j].addr < a)
    && (k < |fl| ==> a <= fl[k].addr)
  }

  /** The walk `while (p && p < block)` of alloc.c:136-139 and alloc.c:171-174. */
  method InsertionScan(fl: seq<Block>, a: nat) returns (k: nat)
    ensures IsInsertionPoint(fl, a, k)
  {
    k := 0;
    while k < |fl| && fl[k].addr < a
      invariant k <= |fl|
      invariant forall j :: 0 <= j < k ==> fl[j].addr < a
    {
      k := k + 1;
    }
  }

  /** The inserted block ends exactly where its successor starts. */
  predicate MergesForward(fl: seq<Block>, k: nat, b: Block) {
    k < |fl| && b.End() == fl[k].addr
  }

  /** The predecessor ends exactly where the inserted block starts. */
  predicate MergesBackward(fl: seq<Block>, k: nat, b: Block) {
    0 < k <= |fl| && fl[k-1].End() == b.addr
  }

  /** First list position the merged block replaces. */
  function MergeLo(fl: seq<Block>, k: nat, b: Block): nat
    requires k <= |fl|
  {
    if MergesBackward(fl, k, b) then k - 1 else k
  }

  /** Position just after the last list block the merged block replaces. */
  function MergeHi(fl: seq<Block>, k: nat, b: Block): nat
    requires k <= |fl|
  {
    if MergesForward(fl, k, b) then k + 1 else k
  }

  /**
   * The block `b` becomes: it first absorbs its successor
   * (`block->size += curr->size`), then the predecessor absorbs it
   * (`prev->size += block->size`).
   */
  function Merged(fl: seq<Block>, k: nat, b: Block): Block
    requires k <= |fl|
  {
    var size := if MergesForward(fl, k, b) then b.size + fl[k].size else b.size;
    if MergesBackward(fl, k, b) then Block(fl[k-1].addr, fl[k-1].size + size)
    else Block(b.addr, size)
  }

  /** The free list after `b` is linked in at position k and coalesced. */
  function Coalesce(fl: seq<Block>, k: nat, b: Block): seq<Block>
    requires k <= |fl|
  {
    Splice(fl, MergeLo(fl, k, b), MergeHi(fl, k, b), [Merged(fl, k, b)])
  }

  /** The blocks the merged block absorbs, in list order. */
  lemma AbsorbedSlice(fl: seq<Block>, k: nat, b: Block)
    requires k <= |fl|
    ensures var lo, hi := MergeLo(fl, k, b), MergeHi(fl, k, b);
      && lo <= hi
      && fl[lo..hi] == (if MergesBackward(fl, k, b) then [fl[k-1]] else [])
                       + (if MergesForward(fl, k, b) then [fl[k]] else [])
  {
  }

  /** The merged block's size is that of `b` and the neighbours it absorbed. */
  lemma MergedSum(fl: seq<Block>, k: nat, b: Block)
    requires k <= |fl|
    ensures MergeLo(fl, k, b) <= MergeHi(fl, k, b)
    ensures Sum(fl[MergeLo(fl, k, b)..MergeHi(fl, k, b)]) + b.size == Merged(fl, k, b).size
  {
    AbsorbedSlice(fl, k, b);
    var fwd, bwd := MergesForward(fl, k, b), MergesBackward(fl, k, b);
    var before := if bwd then [fl[k-1]] else [];
    var after := if fwd then [fl[k]] else [];
    SumConcat(before, after);
    if bwd { SingletonSumBytes(fl[k-1]); }
    if fwd { SingletonSumBytes(fl[k]); }
  }

  /** The merged block's bytes are those of `b` and the neighbours it absorbed. */
  lemma MergedBytes(fl: seq<Block>, k: nat, b: Block)
    requires k <= |fl|
    ensures MergeLo(fl, k, b) <= MergeHi(fl, k, b)
    ensures Bytes(fl[MergeLo(fl, k, b)..MergeHi(fl, k, b)]) + Range(b) == Range(Merged(fl, k, b))
  {
    AbsorbedSlice(fl, k, b);
    var fwd, bwd := MergesForward(fl, k, b), MergesBackward(fl, k, b);
    var before := if bwd then [fl[k-1]] else [];
    var after := if fwd then [fl[k]] else [];
    BytesConcat(before, after);
    var size := if fwd then b.size + fl[k].size else b.size;
    if fwd {
      SingletonSumBytes(fl[k]);
      RangeSplit(b.addr, b.size, fl[k].size);
    }
    assert Range(Block(b.addr, size)) == Range(b) + Bytes(after);
    if bwd {
      SingletonSumBytes(fl[k-1]);
      RangeSplit(fl[k-1].addr, fl[k-1].size, size);
    }
  }

  /** The merged block keeps the alignment and minimum size of its parts. */
  lemma MergedOk(fl: seq<Block>, k: nat, b: Block)
    requires k <= |fl| && BlockOk(b)
    requires k < |fl| ==> BlockOk(fl[k])
    requires k > 0 ==> BlockOk(fl[k-1])
    ensures BlockOk(Merged(fl, k, b))
  {
  }

  /** The merged block sits strictly between the blocks around it. */
  lemma MergedFits(fl: seq<Block>, k: nat, b: Block)
    requires WellFormed(fl) && BlockOk(b)
    requires IsInsertionPoint(fl, b.addr, k)
    requires forall i :: 0 <= i < |fl| ==> Disjoint(b, fl[i])
    ensures var lo, hi, m := MergeLo(fl, k, b), MergeHi(fl, k, b), Merged(fl, k, b);
      && (lo > 0 ==> fl[lo-1].End() < m.addr)
      && (hi < |fl| ==> m.End() < fl[hi].addr)
      && (lo > 0 && hi < |fl| ==> fl[lo-1].End() < fl[hi].addr)
  {
    var fwd, bwd := MergesForward(fl, k, b), MergesBackward(fl, k, b);
    if !bwd && k > 0 {
      assert Disjoint(b, fl[k-1]) && fl[k-1].addr < b.addr;
    }
    if !fwd && k < |fl| {
      assert Disjoint(b, fl[k]) && b.addr <= fl[k].addr;
    }
  }

  /** Coalescing keeps the list well formed. */
  lemma CoalesceWellFormed(fl: seq<Block>, k: nat, b: Block)
    requires WellFormed(fl) && BlockOk(b)
    requires IsInsertionPoint(fl, b.addr, k)
    requires forall i :: 0 <= i < |fl| ==> Disjoint(b, fl[i])
    ensures WellFormed(Coalesce(fl, k, b))
  {
    var lo, hi, m := MergeLo(fl, k, b), MergeHi(fl, k, b), Merged(fl, k, b);
    MergedSum(fl, k, b);
    MergedOk(fl, k, b);
    MergedFits(fl, k, b);
    SpliceSeparated(fl, lo, hi, [m]);
    SpliceOk(fl, lo, hi, [m]);
  }

  /** Coalescing adds exactly the freed block's size and bytes. */
  lemma CoalesceSumBytes(fl: seq<Block>, k: nat, b: Block)
    requires k <= |fl|
    ensures Sum(Coalesce(fl, k, b)) == Sum(fl) + b.size
    ensures Bytes(Coalesce(fl, k, b)) == Bytes(fl) + Range(b)
  {
    var lo, hi, m := MergeLo(fl, k, b), MergeHi(fl, k, b), Merged(fl, k, b);
    MergedSum(fl, k, b);
    MergedBytes(fl, k, b);
    SingletonSumBytes(m);
    SpliceSum(fl, lo, hi, [m]);
    SpliceBytes(fl, lo, hi, [m]);
  }

  lemma CoalesceSpec(fl: seq<Block>, k: nat, b: Block)
    requires WellFormed(fl) && BlockOk(b)
    requires IsInsertionPoint(fl, b.addr, k)
    requires forall i :: 0 <= i < |fl| ==> Disjoint(b, fl[i])
    ensures WellFormed(Coalesce(fl, k, b))
    ensures Sum(Coalesce(fl, k, b)) == Sum(fl) + b.size
    ensures Bytes(Coalesce(fl, k, b)) == Bytes(fl) + Range(b)
    ensures |Coalesce(fl, k, b)| + (if MergesForward(fl, k, b) then 1 else 0)
            + (if MergesBackward(fl, k, b) then 1 else 0) == |fl| + 1
  {
    CoalesceWellFormed(fl, k, b);
    CoalesceSumBytes(fl, k, b);
  }
}

/**
 * The sequential parts of mapreduce.c: the even split of items over
 * workers, the bounded key/value buffers that `mr_emit_i` and `mr_emit_f`
 * append to, and the grouping of the sorted intermediate buffer into runs
 * of equal keys.
 *
 * Keys and values are C strings, modelled by their contents.
 */
module MapReduce {

  // ---------------------------------------------------------------------------
  // mapreduce.c:120-133 and mapreduce.c:189-201 — splitting work
  // ---------------------------------------------------------------------------

  /** Chunk i of `total` items over `workers` workers: the first `total % workers` get one more. */
  function ChunkSize(total: nat, workers: nat, i: nat): nat
    requires workers > 0
  {
    total / workers + (if i < total % workers then 1 else 0)
  }

  /**
   * The ranges [starts[i], ends[i]) tile [0, total) in order: the first
   * starts at 0, each ends where the next starts, and the last ends at
   * `total`.
   */
  predicate Tiles(starts: seq<nat>, ends: seq<nat>, total: nat) {
    && |starts| == |ends| > 0
    && starts[0] == 0
    && (forall i :: 0 <= i < |starts| ==> starts[i] <= ends[i])
    && (forall i :: 0 <= i < |starts| - 1 ==> ends[i] == starts[i + 1])
    && ends[|ends| - 1] == total
  }

  /** Where chunk i starts: after i chunks of `base` items and min(i, remainder) extra ones. */
  function StartOf(total: nat, workers: nat, i: nat): nat
    requires workers > 0
  {
    i * (total / workers) + (if i < total % workers then i else total % workers)
  }

  /** Each chunk ends where the next starts. */
  lemma StartStep(total: nat, workers: nat, i: nat)
    requires workers > 0
    ensures StartOf(total, workers, i + 1) == StartOf(total, workers, i) + ChunkSize(total, workers, i)
  {
    var base := total / workers;
    assert (i + 1) * base == i * base + base;
  }

  /** The chunks together hold all items. */
  lemma StartLast(total: nat, workers: nat)
    requires workers > 0
    ensures StartOf(total, workers, workers) == total
  {
    assert total == workers * (total / workers) + total % workers;
  }

  /**
   * The loop of mapreduce.c:127-133 (and, for reducers, 195-201): each
   * range starts where the previous one ended and has size
   * `base + (i < remainder ? 1 : 0)`.
   */
  method Partition(total: nat, workers: nat) returns (starts: seq<nat>, ends: seq<nat>)
    requires workers > 0
    ensures Tiles(starts, ends, total) && |starts| == workers
    ensures forall i :: 0 <= i < workers ==> ends[i] == starts[i] + ChunkSize(total, workers, i)
  {
    var base := total / workers;
    var remainder := total % workers;
    starts, ends := [], [];
    var idx := 0;
    var i := 0;
    while i < workers
      invariant i <= workers && |starts| == |ends| == i
      invariant idx == StartOf(total, workers, i)
      invariant forall r :: 0 <= r < i ==> starts[r] == StartOf(total, workers, r)
      invariant forall r :: 0 <= r < i ==> ends[r] == StartOf(total, workers, r + 1)
    {
      var chunk := base + (if i < remainder then 1 else 0);
      StartStep(total, workers, i);
      starts := starts + [idx];
      ends := ends + [idx + chunk];
      idx := idx + chunk;
      i := i + 1;
    }
    forall r | 0 <= r < workers
      ensures ends[r] == starts[r] + ChunkSize(total, workers, r)
    {
      StartStep(total, workers, r);
    }
    StartLast(total, workers);
    assert StartOf(total, workers, 0) == 0;
  }

  /** Chunk sizes differ by at most one, and the larger chunks come first. */
  lemma ChunksBalanced(total: nat, workers: nat, i: nat, j: nat)
    requires workers > 0 && i < j < workers
    ensures ChunkSize(total, workers, j) <= ChunkSize(total, workers, i) <= ChunkSize(total, workers, j) + 1
  {
  }

  /** Ranges that tile [0, total) place every item in exactly one range. */
  lemma {:induction false} TilesCover(starts: seq<nat>, ends: seq<nat>, total: nat, x: nat)
    requires Tiles(starts, ends, total) && x < total
    ensures exists i :: 0 <= i < |starts| && starts[i] <= x < ends[i]
    ensures forall i, j ::
      (0 <= i < |starts| && 0 <= j < |starts| && starts[i] <= x < ends[i] && starts[j] <= x < ends[j])
      ==> i == j
  {
    var i := 0;
    while ends[i] <= x
      invariant 0 <= i < |starts| && starts[i] <= x
      decreases |starts| - i
    {
      i := i + 1;
    }
    forall a, b | 0 <= a < b < |starts|
      ensures ends[a] <= starts[b]
    {
      TilesOrdered(starts, ends, total, a, b);
    }
  }

  lemma {:induction false} TilesOrdered(starts: seq<nat>, ends: seq<nat>, total: nat, a: nat, b: nat)
    requires Tiles(starts, ends, total) && a < b < |starts|
    ensures ends[a] <= starts[b]
    decreases b - a
  {
    if a + 1 < b {
      TilesOrdered(starts, ends, total, a + 1, b);
    }
  }

  // ---------------------------------------------------------------------------
  // mapreduce.c:73-101 — the bounded buffers
  // ---------------------------------------------------------------------------

  datatype Pair = Pair(key: string, value: string)

  /**
   * `strncpy(dst, s, size); dst[size - 1] = '\0'`: what a field of `size`
   * bytes holds afterwards.
   */
  function Truncate(s: string, size: nat): (r: string)
    requires size > 0
    ensures |r| < size && r <= s
    ensures |r| == (if |s| < size then |s| else size - 1)
    ensures |s| < size ==> r == s
  {
    if |s| < size then s else s[..size - 1]
  }

  /**
   * `intermediate_buffer` with `intermediate_count`, or `final_buffer` with
   * `final_count`: `capacity` entries whose keys hold `keySize` bytes and
   * whose values hold `valueSize` bytes.
   */
  class KvBuffer {
    const capacity: nat
    const keySize: nat
    const valueSize: nat
    const entries: array<Pair>
    var count: nat

    ghost predicate Valid()
      reads this, entries
    {
      && entries.Length == capacity && count <= capacity
      && keySize > 0 && valueSize > 0
      && forall i :: 0 <= i < count ==>
           |entries[i].key| < keySize && |entries[i].value| < valueSize
    }

    /** The stored pairs, in the order they were emitted. */
    ghost function Contents(): seq<Pair>
      reads this, entries
      requires Valid()
    {
      entries[..count]
    }

    constructor (capacity: nat, keySize: nat, valueSize: nat)
      requires keySize > 0 && valueSize > 0
      ensures Valid() && Contents() == []
      ensures this.capacity == capacity && this.keySize == keySize && this.valueSize == valueSize
      ensures fresh(entries)
    {
      this.capacity := capacity;
      this.keySize := keySize;
      this.valueSize := valueSize;
      entries := new Pair[capacity](_ => Pair("", ""));
      count := 0;
    }

    /**
     * `mr_emit_i` / `mr_emit_f`: a full buffer answers -1 and is left
     * alone; otherwise the truncated pair goes to index `count`, the count
     * grows by one and the answer is 0.
     */
    method Emit(key: string, value: string) returns (rc: int)
      requires Valid()
      modifies this, entries
      ensures Valid()
      ensures old(count) >= capacity ==> rc == -1 && count == old(count) && unchanged(entries)
      ensures old(count) < capacity ==> rc == 0 && count == old(count) + 1
      ensures old(count) < capacity ==>
        Contents() == old(Contents()) + [Pair(Truncate(key, keySize), Truncate(value, valueSize))]
      ensures forall i :: 0 <= i < capacity && i != old(count) ==> entries[i] == old(entries[i])
    {
      if count >= capacity {
        return -1;
      }
      entries[count] := Pair(Truncate(key, keySize), Truncate(value, valueSize));
      count := count + 1;
      return 0;
    }

    /** mapreduce.c:117-118: `mr_exec` empties both buffers before mapping. */
    method Reset()
      requires Valid()
      modifies this
      ensures Valid() && Contents() == []
    {
      count := 0;
    }

    /** mapreduce.c:159-187 on the (sorted) intermediate buffer. */
    method GroupAll() returns (groups: seq<Group>)
      requires Valid()
      ensures IsGrouping(groups, Contents())
    {
      groups := GroupRuns(entries[..count], keySize, valueSize);
    }
  }

  // ---------------------------------------------------------------------------
  // mapreduce.c:159-187 — grouping runs of equal keys
  // ---------------------------------------------------------------------------

  /** `key_group`: a key and the values emitted under it. */
  datatype Group = Group(key: string, values: seq<string>)

  /** The pairs a list of groups stands for, group by group, values in order. */
  function Expand(groups: seq<Group>): seq<Pair> {
    if groups == [] then []
    else ExpandOne(groups[0]) + Expand(groups[1..])
  }

  function ExpandOne(g: Group): seq<Pair> {
    seq(|g.values|, k requires 0 <= k < |g.values| => Pair(g.key, g.values[k]))
  }

  function TotalValues(groups: seq<Group>): nat {
    if groups == [] then 0 else |groups[0].values| + TotalValues(groups[1..])
  }

  /**
   * `groups` cuts `kvs` into maximal runs of equal keys: expanding the
   * groups gives back the pairs in order, no group is empty, and
   * neighbouring groups have different keys.
   */
  predicate IsGrouping(groups: seq<Group>, kvs: seq<Pair>) {
    && Expand(groups) == kvs
    && (forall g :: 0 <= g < |groups| ==> |groups[g].values| > 0)
    && (forall g :: 0 <= g < |groups| - 1 ==> groups[g].key != groups[g + 1].key)
  }

  lemma {:induction false} ExpandAppend(groups: seq<Group>, g: Group)
    ensures Expand(groups + [g]) == Expand(groups) + ExpandOne(g)
  {
    if groups == [] {
      assert [] + [g] == [g];
      assert [g][1..] == [];
    } else {
      assert (groups + [g])[1..] == groups[1..] + [g];
      ExpandAppend(groups[1..], g);
    }
  }

  /** The values of all groups together number as many as the pairs grouped. */
  lemma {:induction false} TotalValuesExpand(groups: seq<Group>)
    ensures TotalValues(groups) == |Expand(groups)|
  {
    if groups != [] {
      TotalValuesExpand(groups[1..]);
    }
  }

  /** The loop invariant of the grouping scan: the pairs before `idx` are grouped. */
  ghost predicate GroupedUpTo(groups: seq<Group>, kvs: seq<Pair>, idx: nat) {
    && idx <= |kvs|
    && Expand(groups) == kvs[..idx]
    && (forall g :: 0 <= g < |groups| ==> |groups[g].values| > 0)
    && (forall g :: 0 <= g < |groups| - 1 ==> groups[g].key != groups[g + 1].key)
    && (groups != [] ==> 0 < idx && groups[|groups| - 1].key == kvs[idx - 1].key)
    && (groups != [] && idx < |kvs| ==> groups[|groups| - 1].key != kvs[idx].key)
    && (groups == [] ==> idx == 0)
  }

  /** Adding the group of the maximal run [idx, j) keeps the invariant. */
  lemma GroupStep(groups: seq<Group>, kvs: seq<Pair>, idx: nat, j: nat, g: Group)
    requires GroupedUpTo(groups, kvs, idx)
    requires idx < j <= |kvs|
    requires forall k :: idx <= k < j ==> kvs[k].key == kvs[idx].key
    requires j < |kvs| ==> kvs[j].key != kvs[idx].key
    requires g.key == kvs[idx].key && |g.values| == j - idx
    requires forall m :: 0 <= m < |g.values| ==> g.values[m] == kvs[idx + m].value
    ensures GroupedUpTo(groups + [g], kvs, j)
  {
    assert ExpandOne(g) == kvs[idx..j];
    ExpandAppend(groups, g);
    assert kvs[..j] == kvs[..idx] + kvs[idx..j];
  }

  /** mapreduce.c:162-165: `j` walks from `idx` to the first different key. */
  method RunEnd(kvs: seq<Pair>, idx: nat) returns (j: nat)
    requires idx < |kvs|
    ensures idx < j <= |kvs|
    ensures forall k :: idx <= k < j ==> kvs[k].key == kvs[idx].key
    ensures j < |kvs| ==> kvs[j].key != kvs[idx].key
  {
    j := idx + 1;
    while j < |kvs| && kvs[idx].key == kvs[j].key
      invariant idx < j <= |kvs|
      invariant forall k :: idx <= k < j ==> kvs[k].key == kvs[idx].key
    {
      j := j + 1;
    }
  }

  /** mapreduce.c:172-179: the values of the run [idx, j), each copied through a field of `valueSize` bytes. */
  method RunValues(kvs: seq<Pair>, idx: nat, j: nat, valueSize: nat) returns (values: seq<string>)
    requires idx <= j <= |kvs| && valueSize > 0
    ensures |values| == j - idx
    ensures forall m :: 0 <= m < |values| ==> values[m] == Truncate(kvs[idx + m].value, valueSize)
  {
    values := [];
    var k := 0;
    while k < j - idx
      invariant k <= j - idx && |values| == k
      invariant forall m :: 0 <= m < k ==> values[m] == Truncate(kvs[idx + m].value, valueSize)
    {
      values := values + [Truncate(kvs[idx + k].value, valueSize)];
      k := k + 1;
    }
  }

  /**
   * The scan of mapreduce.c:159-187: from `idx`, `j` walks to the first key
   * that differs, the run [idx, j) becomes a group (key and values copied
   * through fields of `keySize` and `valueSize` bytes), and `idx` moves to
   * `j`.
   */
  method GroupRuns(kvs: seq<Pair>, keySize: nat, valueSize: nat) returns (groups: seq<Group>)
    requires keySize > 0 && valueSize > 0
    requires forall i :: 0 <= i < |kvs| ==> |kvs[i].key| < keySize && |kvs[i].value| < valueSize
    ensures IsGrouping(groups, kvs)
  {
    groups := [];
    var idx := 0;
    while idx < |kvs|
      invariant GroupedUpTo(groups, kvs, idx)
      decreases |kvs| - idx
    {
      var j := RunEnd(kvs, idx);
      var values := RunValues(kvs, idx, j, valueSize);
      var g := Group(Truncate(kvs[idx].key, keySize), values);
      GroupStep(groups, kvs, idx, j, g);
      groups := groups + [g];
      idx := j;
    }
    assert kvs[..idx] == kvs;
  }

  // ---------------------------------------------------------------------------
  // Key order: strncmp on NUL-terminated keys
  // ---------------------------------------------------------------------------

  /** `strncmp(a, b, ...) <= 0`: lexicographic order, a proper prefix first. */
  predicate KeyLe(a: string, b: string) {
    a == [] || (b != [] && (a[0] < b[0] || (a[0] == b[0] && KeyLe(a[1..], b[1..]))))
  }

  lemma {:induction false} KeyLeAntisymmetric(a: string, b: string)
    requires KeyLe(a, b) && KeyLe(b, a)
    ensures a == b
  {
    if a != [] && b != [] {
      KeyLeAntisymmetric(a[1..], b[1..]);
      assert a == [a[0]] + a[1..] && b == [b[0]] + b[1..];
    }
  }

  /** The intermediate buffer after `qsort` with `compare_kv`. */
  predicate SortedByKey(kvs: seq<Pair>) {
    forall a, b :: 0 <= a < b < |kvs| ==> KeyLe(kvs[a].key, kvs[b].key)
  }

  /** Where group g starts in the expanded list. */
  function Offset(groups: seq<Group>, g: nat): nat
    requires g <= |groups|
  {
    if g == 0 then 0 else Offset(groups, g - 1) + |groups[g - 1].values|
  }

  /** Group g occupies positions [Offset(g), Offset(g + 1)) of the expansion, all with its key. */
  lemma {:induction false} OffsetKey(groups: seq<Group>, g: nat)
    requires g < |groups| && |groups[g].values| > 0
    ensures Offset(groups, g) < Offset(groups, g + 1) <= |Expand(groups)|
    ensures Expand(groups)[Offset(groups, g)].key == groups[g].key
  {
    if g == 0 {
      TotalValuesExpand(groups);
      assert Expand(groups) == ExpandOne(groups[0]) + Expand(groups[1..]);
      OffsetTotal(groups, 1);
    } else {
      var tail := groups[1..];
      OffsetKey(tail, g - 1);
      OffsetShift(groups, g);
      OffsetShift(groups, g + 1);
      assert Expand(groups) == ExpandOne(groups[0]) + Expand(tail);
    }
  }

  lemma {:induction false} OffsetShift(groups: seq<Group>, g: nat)
    requires 0 < g <= |groups|
    ensures Offset(groups, g) == |groups[0].values| + Offset(groups[1..], g - 1)
  {
    if g > 1 {
      OffsetShift(groups, g - 1);
    }
  }

  lemma {:induction false} OffsetTotal(groups: seq<Group>, g: nat)
    requires g <= |groups|
    ensures Offset(groups, g) <= TotalValues(groups)
  {
    if g > 0 {
      OffsetShift(groups, g);
      OffsetTotal(groups[1..], g - 1);
    }
  }

  /**
   * On a buffer sorted by key, consecutive groups have strictly increasing
   * keys, and no two groups share a key.
   */
  lemma GroupKeysIncrease(groups: seq<Group>, kvs: seq<Pair>)
    requires IsGrouping(groups, kvs) && SortedByKey(kvs)
    ensures forall g :: 0 <= g < |groups| - 1 ==>
      KeyLe(groups[g].key, groups[g + 1].key) && groups[g].key != groups[g + 1].key
    ensures forall g, h :: 0 <= g < h < |groups| ==> groups[g].key != groups[h].key
  {
    forall g, h | 0 <= g < h < |groups|
      ensures KeyLe(groups[g].key, groups[h].key)
    {
      OffsetKey(groups, g);
      OffsetKey(groups, h);
      OffsetMonotone(groups, g + 1, h);
    }
    forall g, h | 0 <= g < h < |groups|
      ensures groups[g].key != groups[h].key
    {
      if groups[g].key == groups[h].key {
        assert KeyLe(groups[g].key, groups[g + 1].key);
        assert KeyLe(groups[g + 1].key, groups[h].key) || g + 1 == h;
        KeyLeAntisymmetric(groups[g].key, groups[g + 1].key);
      }
    }
  }

  lemma {:induction false} OffsetMonotone(groups: seq<Group>, g: nat, h: nat)
    requires g <= h <= |groups|
    ensures Offset(groups, g) <= Offset(groups, h)
    decreases h - g
  {
    if g < h {
      OffsetMonotone(groups, g, h - 1);
    }
  }
}

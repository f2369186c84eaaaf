/** MemPoolT: chunks of equal size handed out from blocks, the free ones linked through their own
    memory. */
module Pool {
  import opened Arith

  /** The smallest number of blocks of the given size that hold n chunks. */
  function Ceiling(n: nat, size: nat): (b: nat)
    requires size > 0
    ensures n <= b * size
    ensures b > 0 ==> (b - 1) * size < n
  {
    if n == 0 then 0
    else
      DivMod(n - 1, size);
      DivNat(n - 1, size);
      MulDist((n - 1) / size, 1, size);
      (n - 1) / size + 1
  }

  class MemPool {
    /** Chunks per block. */
    const count: nat
    /** The first word of every chunk, block after block; a free chunk keeps its link there, -1 at
        the end of the list, and the user of a live chunk keeps anything. */
    var memory: seq<int>
    var blocks: nat
    var root: int
    var currentAllocs: int
    var allocs: nat
    var maxAllocs: nat
    var untracked: int

    /** The free list, in order, and the chunks in use. */
    ghost var free: seq<nat>
    ghost var live: set<nat>

    ghost predicate Valid()
      reads this
    {
      && count > 0 && |memory| == blocks * count && Divided()
      && currentAllocs <= maxAllocs && blocks == Ceiling(maxAllocs, count)
    }

    /** Every chunk is either on the free list or in use. */
    ghost predicate Divided()
      reads this
    {
      && FreeList(memory, root, free)
      && (forall c :: c in live <==> 0 <= c < |memory| && c !in free)
      && currentAllocs == |live| && |live| + |free| == |memory|
    }

    constructor (count: nat)
      requires count > 0
      ensures Valid() && this.count == count && live == {} && blocks == 0 && maxAllocs == 0 && allocs == 0
      ensures untracked == 0
    {
      this.count := count;
      memory, blocks, root := [], 0, -1;
      currentAllocs, allocs, maxAllocs, untracked := 0, 0, 0, 0;
      free, live := [], {};
    }

    /** Alloc: a chunk that is not in use; a new block only when all chunks are. */
    method Alloc() returns (c: nat)
      requires Valid()
      modifies this
      ensures Valid() && c !in old(live) && live == old(live) + {c} && c < |memory|
      ensures currentAllocs == old(currentAllocs) + 1 && maxAllocs == Max(old(maxAllocs), currentAllocs)
      ensures allocs == old(allocs) + 1 && untracked == old(untracked) + 1
      ensures blocks == if old(free) == [] then old(blocks) + 1 else old(blocks)
      ensures old(memory) <= memory
    {
      hide FreeList, Ceiling;
      NullRoot(memory, root, free);
      EnoughBlocks(free == [], blocks, currentAllocs, maxAllocs, count);
      if root == -1 { AddBlock(); }
      c := TakeFirst();
      if currentAllocs > maxAllocs { maxAllocs := currentAllocs; }
      allocs := allocs + 1;
      untracked := untracked + 1;
    }

    /** The first free chunk goes over to the ones in use. */
    method TakeFirst() returns (c: nat)
      requires Divided() && free != []
      modifies this`root, this`free, this`live, this`currentAllocs
      ensures Divided() && c !in old(live) && live == old(live) + {c} && c < |memory|
      ensures currentAllocs == old(currentAllocs) + 1
    {
      hide FreeList;
      Unlinked(memory, root, free);
      Taken(|memory|, root, free, live);
      c := root;
      root := memory[c];
      free, live := free[1..], live + {c};
      currentAllocs := currentAllocs + 1;
    }

    /** Every chunk of a new block becomes free, linked to the next one. */
    method AddBlock()
      requires Valid() && root == -1
      modifies this`memory, this`blocks, this`root, this`free
      ensures free != [] && blocks == old(blocks) + 1 && |memory| == blocks * count
      ensures Divided() && old(memory) <= memory
    {
      var base := |memory|;
      var chunk := seq(count, _ => 0);
      var i := 0;
      while i < count - 1
        invariant 0 <= i <= count - 1 && |chunk| == count
        invariant forall k :: 0 <= k < i ==> chunk[k] == base + k + 1
      {
        chunk := chunk[i := base + i + 1];
        i := i + 1;
      }
      chunk := chunk[count - 1 := -1];
      MulDist(blocks, 1, count);
      memory, blocks, root := memory + chunk, blocks + 1, base;
      Chained(memory, base, |memory|);
      free := Range(base, |memory|);
    }

    /** Free; no chunk at all is accepted and ignored. */
    method Free(mem: int)
      requires Valid() && (mem == -1 || mem in live)
      modifies this
      ensures Valid() && live == old(live) - {mem} && blocks == old(blocks) && maxAllocs == old(maxAllocs)
      ensures mem == -1 ==> free == old(free) && memory == old(memory)
      ensures mem != -1 ==> free == [mem] + old(free)
      ensures currentAllocs == |live| && allocs == old(allocs) && untracked == old(untracked)
      ensures |memory| == |old(memory)|
    {
      hide FreeList;
      if mem == -1 { return; }
      currentAllocs := currentAllocs - 1;
      memory := memory[mem := root];
      root := mem;
      Relinked(old(memory), mem, old(root), free);
      free, live := [mem] + free, live - {mem};
    }

    /** The user of a chunk may write anything to it: the free list runs through other chunks. */
    method Use(c: nat, value: int)
      requires Valid() && c in live
      modifies this`memory
      ensures Valid() && memory == old(memory)[c := value]
    {
      Untouched(memory, c, value, root, free);
      memory := memory[c := value];
    }

    /** SetTracked */
    method SetTracked()
      requires Valid()
      modifies this`untracked
      ensures Valid() && untracked == old(untracked) - 1
    {
      untracked := untracked - 1;
    }
  }

  /** The chunks in fs are distinct, linked in that order, and end with a null link. */
  ghost predicate FreeList(memory: seq<int>, root: int, fs: seq<nat>)
    decreases |fs|
  {
    if fs == [] then root == -1
    else root == fs[0] < |memory| && fs[0] !in fs[1..] && FreeList(memory, memory[root], fs[1..])
  }

  function Range(a: nat, b: nat): (r: seq<nat>)
    requires a <= b
    ensures |r| == b - a && forall c :: c in r <==> a <= c < b
    decreases b - a
  {
    if a == b then [] else [a] + Range(a + 1, b)
  }

  lemma {:induction false} Chained(memory: seq<int>, a: nat, b: nat)
    requires a < b == |memory| && memory[b - 1] == -1 && forall c :: a <= c < b - 1 ==> memory[c] == c + 1
    ensures FreeList(memory, a, Range(a, b))
    decreases b - a
  {
    assert Range(a, b)[1..] == Range(a + 1, b);
    if a + 1 < b { Chained(memory, a + 1, b); }
  }

  lemma NullRoot(memory: seq<int>, root: int, fs: seq<nat>)
    requires FreeList(memory, root, fs)
    ensures root == -1 <==> fs == []
  {}

  /** Taking the first chunk off the list. */
  lemma Unlinked(memory: seq<int>, c: int, fs: seq<nat>)
    requires FreeList(memory, c, fs) && fs != []
    ensures 0 <= c < |memory| && c == fs[0] && c in fs && FreeList(memory, memory[c], fs[1..])
    ensures forall k :: k in fs[1..] <==> k in fs && k != c
  {
    assert fs == [c] + fs[1..];
  }

  /** The chunk taken goes over to the ones in use. */
  lemma Taken(size: nat, c: nat, fs: seq<nat>, live: set<nat>)
    requires fs != [] && c == fs[0] && c in fs && c < size
    requires forall k :: k in fs[1..] <==> k in fs && k != c
    requires forall k :: k in live <==> 0 <= k < size && k !in fs
    ensures c !in live && |live + {c}| == |live| + 1
    ensures forall k :: k in live + {c} <==> 0 <= k < size && k !in fs[1..]
  {}

  /** A write to a chunk that is not on the list. */
  lemma {:induction false} Untouched(memory: seq<int>, c: nat, value: int, root: int, fs: seq<nat>)
    requires FreeList(memory, root, fs) && c < |memory| && c !in fs
    ensures FreeList(memory[c := value], root, fs)
    decreases |fs|
  {
    if fs != [] { Untouched(memory, c, value, memory[root], fs[1..]); }
  }

  /** Putting a chunk that is not on the list in front of it. */
  lemma Relinked(memory: seq<int>, c: nat, root: int, fs: seq<nat>)
    requires FreeList(memory, root, fs) && c < |memory| && c !in fs
    ensures FreeList(memory[c := root], c, [c] + fs)
    ensures forall k :: k in [c] + fs <==> k in fs || k == c
  {
    Untouched(memory, c, root, root, fs);
    assert ([c] + fs)[1..] == fs;
  }

  /** The high-water mark fills the blocks exactly when a new one is needed. */
  lemma EnoughBlocks(full: bool, blocks: nat, current: nat, most: nat, count: nat)
    requires count > 0 && current <= most && blocks == Ceiling(most, count)
    requires if full then current == blocks * count else current < blocks * count
    ensures Ceiling(Max(most, current + 1), count) == if full then blocks + 1 else blocks
  {
    MulDist(blocks, 1, count);
    if full {
      CeilingUnique(current + 1, count, blocks + 1);
    } else {
      CeilingUnique(Max(most, current + 1), count, blocks);
    }
  }

  lemma CeilingUnique(n: nat, size: nat, b: nat)
    requires size > 0 && n <= b * size && (b > 0 ==> (b - 1) * size < n)
    ensures Ceiling(n, size) == b
  {
    var c := Ceiling(n, size);
    if c < b { MulLe(c, b - 1, size); }
    if b < c { MulLe(b, c - 1, size); }
  }

  // ----- whole runs -----

  /** A call, or a write into the i-th chunk held. */
  datatype Call = Allocate | Release(i: nat) | Write(i: nat, value: int)

  /** The chunks held by the caller are pairwise distinct and are exactly the live ones. */
  ghost predicate Holds(pool: MemPool, held: seq<nat>)
    reads pool
  {
    && pool.Valid() && |held| == |pool.live|
    && (forall i, j :: 0 <= i < j < |held| ==> held[i] != held[j])
    && (forall c :: c in pool.live <==> c in held)
  }

  /** The number of chunks held after a call. */
  function HeldAfter(held: nat, call: Call): nat {
    match call
    case Allocate => held + 1
    case Release(i) => if i < held then held - 1 else held
    case Write(_, _) => held
  }

  /** The number held after all the calls, and the largest number held on the way. */
  function Held(calls: seq<Call>): nat {
    if calls == [] then 0 else HeldAfter(Held(calls[..|calls| - 1]), calls[|calls| - 1])
  }

  function Peak(calls: seq<Call>): nat {
    if calls == [] then 0 else Max(Peak(calls[..|calls| - 1]), Held(calls))
  }

  /** The peak bounds the number held at every point of the run and is reached at one of them. */
  lemma {:induction false} PeakReached(calls: seq<Call>)
    ensures forall k :: 0 <= k <= |calls| ==> Held(calls[..k]) <= Peak(calls)
    ensures exists k :: 0 <= k <= |calls| && Held(calls[..k]) == Peak(calls)
  {
    assert calls[..|calls|] == calls;
    if calls == [] {
      assert Held(calls[..0]) == 0;
    } else {
      var front := calls[..|calls| - 1];
      PeakReached(front);
      forall k | 0 <= k <= |calls| ensures Held(calls[..k]) <= Peak(calls) {
        if k < |calls| { assert calls[..k] == front[..k]; }
      }
      var k :| 0 <= k <= |front| && Held(front[..k]) == Peak(front);
      assert front[..k] == calls[..k];
      assert Held(calls[..k]) == Peak(calls) || Held(calls[..|calls|]) == Peak(calls);
    }
  }

  /** One call; chunks are freed only while they are held. */
  method Perform(pool: MemPool, held: seq<nat>, call: Call) returns (held': seq<nat>)
    requires Holds(pool, held)
    modifies pool
    ensures Holds(pool, held') && |held'| == HeldAfter(|held|, call)
    ensures pool.maxAllocs == Max(old(pool.maxAllocs), |held'|)
  {
    hide FreeList, Ceiling;
    held' := held;
    match call
    case Allocate =>
      var c := pool.Alloc();
      held' := held + [c];
    case Release(i) =>
      if i < |held| {
        Removed(held, i);
        pool.Free(held[i]);
        held' := held[..i] + held[i + 1..];
      }
    case Write(i, value) =>
      if i < |held| { pool.Use(held[i], value); }
  }

  /** After any run of calls the chunks held are distinct and none of them is free, live and free
      chunks fill the blocks, and there are exactly as many blocks as the largest number of chunks
      held at once needs. */
  method Run(count: nat, calls: seq<Call>) returns (pool: MemPool, held: seq<nat>)
    requires count > 0
    ensures fresh(pool) && Holds(pool, held)
    ensures forall i :: 0 <= i < |held| ==> held[i] < |pool.memory| && held[i] !in pool.free
    ensures |held| + |pool.free| == pool.blocks * count
    ensures |held| == Held(calls) && pool.maxAllocs == Peak(calls)
    ensures pool.blocks == Ceiling(Peak(calls), count)
  {
    hide FreeList, Ceiling;
    pool := new MemPool(count);
    held := [];
    for n := 0 to |calls|
      invariant fresh(pool) && Holds(pool, held) && pool.count == count
      invariant |held| == Held(calls[..n]) && pool.maxAllocs == Peak(calls[..n])
    {
      held := Perform(pool, held, calls[n]);
      assert calls[..n + 1][..n] == calls[..n];
    }
    assert calls[..|calls|] == calls;
    assert forall i :: 0 <= i < |held| ==> held[i] in pool.live;
  }

  lemma Removed(held: seq<nat>, i: nat)
    requires i < |held| && forall i, j :: 0 <= i < j < |held| ==> held[i] != held[j]
    ensures var rest := held[..i] + held[i + 1..];
            && (forall c :: c in rest <==> c in held && c != held[i])
            && forall i, j :: 0 <= i < j < |rest| ==> rest[i] != rest[j]
  {
    var rest := held[..i] + held[i + 1..];
    assert forall k :: 0 <= k < |rest| ==> rest[k] == held[if k < i then k else k + 1];
    forall c ensures c in rest <==> c in held && c != held[i] {
      if c in held && c != held[i] {
        var k :| 0 <= k < |held| && held[k] == c;
        assert rest[if k < i then k else k - 1] == c;
      }
    }
  }
}

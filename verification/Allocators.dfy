/** The memory arena, a moving offset, and the memory pool, whose free list runs through the free blocks. */
module Allocators {
  import opened Arithmetic
  import opened Bits
  import opened Sequences

  const ALIGNMENT := 16
  const POINTER_SIZE := 8
  const SIZE_MAX := 0xFFFF_FFFF_FFFF_FFFF

  // ---------- Alignment ----------

  /** Clearing the low bits: the mask is all ones above the lowest `k`. */
  lemma {:induction false} MaskRoundsDown(x: nat, w: nat, k: nat)
    requires k <= w && x < Pow2(w)
    ensures Pow2(k) <= Pow2(w) && And(x, Pow2(w) - Pow2(k)) == x - x % Pow2(k)
    decreases w
  {
    hide And;
    PowMono(k, w);
    if k == 0 {
      MaskIsMod(x, w);
      DivMod(x, 0, x, Pow2(w));
      DivMod(x, x, 0, 1);
    } else {
      PowMono(k - 1, w - 1);
      MaskRoundsDown(x / 2, w - 1, k - 1);
      MaskStep(x, Pow2(w - 1), Pow2(k - 1));
    }
  }

  lemma MaskStep(x: nat, p: nat, q: nat)
    requires 0 < q <= p && And(x / 2, p - q) == x / 2 - x / 2 % q
    ensures And(x, 2 * p - 2 * q) == x - x % (2 * q)
  {
    hide And;
    AndEven(x, p - q);
    DoubledMod(x, q);
  }

  lemma AndEven(a: int, b: nat)
    ensures And(a, 2 * b) == 2 * And(a / 2, b)
  {
    if b > 0 {
      assert 2 * b % 2 == 0 && 2 * b / 2 == b;
    }
  }

  /** The block size rounded up to the alignment, with room for a pointer; 0 when that overflows. */
  function AlignBlockSize(size: nat): nat {
    var needed := if size < POINTER_SIZE then POINTER_SIZE else size;
    if needed > SIZE_MAX - (ALIGNMENT - 1) then 0 else And(needed + ALIGNMENT - 1, SIZE_MAX - (ALIGNMENT - 1))
  }

  lemma Powers()
    ensures Pow2(4) == ALIGNMENT && Pow2(64) == SIZE_MAX + 1
  {
    LargestIsPower();
    assert Pow2(34) == 16 * Pow2(30);
    assert Pow2(44) == 1024 * Pow2(34);
    assert Pow2(54) == 1024 * Pow2(44);
    assert Pow2(64) == 1024 * Pow2(54);
  }

  /** The least aligned size that holds a block and a pointer. */
  lemma AlignedSize(size: nat)
    requires size <= SIZE_MAX
    ensures var r := AlignBlockSize(size); r == 0 <==> size > SIZE_MAX - (ALIGNMENT - 1)
    ensures var r := AlignBlockSize(size); r > 0 ==>
      r % ALIGNMENT == 0 && r >= size && r >= POINTER_SIZE && r <= SIZE_MAX && (r < size + ALIGNMENT || r == ALIGNMENT)
  {
    hide And, Pow2;
    Powers();
    var needed := if size < POINTER_SIZE then POINTER_SIZE else size;
    if needed <= SIZE_MAX - (ALIGNMENT - 1) {
      var x := needed + ALIGNMENT - 1;
      MaskRoundsDown(x, 64, 4);
      assert SIZE_MAX - (ALIGNMENT - 1) == Pow2(64) - Pow2(4);
    }
  }

  // ---------- The arena ----------

  /** A block as it lies in a buffer. */
  datatype Block = Block(offset: nat, size: nat)

  /** Blocks in the order they were handed out: aligned, within the offset, and none over another. */
  ghost predicate Stacked(blocks: seq<Block>, offset: nat) {
    && (forall i | 0 <= i < |blocks| ::
      blocks[i].offset % ALIGNMENT == 0 && blocks[i].offset + blocks[i].size <= offset)
    && (forall i, j | 0 <= i < j < |blocks| :: blocks[i].offset + blocks[i].size <= blocks[j].offset)
  }

  lemma StackedOn(blocks: seq<Block>, offset: nat, start: nat, size: nat)
    requires Stacked(blocks, offset) && start >= offset && start % ALIGNMENT == 0
    ensures Stacked(blocks + [Block(start, size)], start + size)
  {
  }

  class MemoryArena {
    const capacity: nat
    var offset: nat
    ghost var blocks: seq<Block>

    ghost predicate Valid()
      reads this
    {
      offset <= capacity <= SIZE_MAX && Stacked(blocks, offset)
    }

    constructor (capacity: nat)
      requires capacity <= SIZE_MAX
      ensures Valid() && this.capacity == capacity && offset == 0 && blocks == []
    {
      this.capacity, offset, blocks := capacity, 0, [];
    }

    /** Hands out the next aligned block, unless padding and block no longer fit. */
    method Alloc(size: nat) returns (r: Option<nat>)
      requires Valid()
      modifies this`offset, this`blocks
      ensures Valid()
      ensures var start := old(offset) + (0 - old(offset)) % ALIGNMENT;
        if start + size <= capacity
        then r == Some(start) && offset == start + size && blocks == old(blocks) + [Block(start, size)]
        else r == None && offset == old(offset) && blocks == old(blocks)
      ensures r.Some? ==> r.value % ALIGNMENT == 0
    {
      hide And, Pow2, Stacked;
      Powers();
      MaskIsMod(0 - offset, 4);
      PaddedIsAligned(offset);
      var padding := And(0 - offset, ALIGNMENT - 1);
      var remaining := capacity - offset;
      if padding > remaining || size > remaining - padding {
        return None;
      }
      var start := offset + padding;
      StackedOn(blocks, offset, start, size);
      blocks := blocks + [Block(start, size)];
      offset := start + size;
      r := Some(start);
    }

    method Reset()
      requires Valid()
      modifies this`offset, this`blocks
      ensures Valid() && offset == 0 && blocks == []
    {
      offset, blocks := 0, [];
    }
  }

  lemma PaddedIsAligned(offset: nat)
    ensures (offset + (0 - offset) % ALIGNMENT) % ALIGNMENT == 0
  {
  }

  // ---------- The pool ----------

  /** The addresses of the blocks of a buffer. */
  ghost function Blocks(start: nat, size: nat, capacity: nat): set<nat> {
    set i: nat | i < capacity :: start + i * size
  }

  /** The address test: within the buffer and a whole number of blocks from its start. */
  predicate IsBlock(start: nat, size: nat, capacity: nat, address: nat)
    requires size > 0
  {
    start <= address < start + size * capacity && (address - start) % size == 0
  }

  lemma BlockAddresses(start: nat, size: nat, capacity: nat, address: nat)
    requires size > 0
    ensures IsBlock(start, size, capacity, address) <==> address in Blocks(start, size, capacity)
  {
    if IsBlock(start, size, capacity, address) {
      var i := (address - start) / size;
      assert address - start == i * size;
      if i >= capacity {
        MulMono(capacity, i, size);
      }
      assert address == start + i * size;
    }
    if address in Blocks(start, size, capacity) {
      var i: nat :| i < capacity && address == start + i * size;
      MulMono(i + 1, capacity, size);
      DivMod(address - start, i, 0, size);
    }
  }

  /** Every block is aligned and lies in the buffer. */
  lemma BlockInBuffer(start: nat, size: nat, capacity: nat, a: nat)
    requires size > 0 && size % ALIGNMENT == 0 && start % ALIGNMENT == 0 && a in Blocks(start, size, capacity)
    ensures start <= a && a + size <= start + size * capacity && a % ALIGNMENT == 0
  {
    var i: nat :| i < capacity && a == start + i * size;
    MulMono(i + 1, capacity, size);
    assert (i + 1) * size == i * size + size && capacity * size == size * capacity;
    var u, v := start / ALIGNMENT, size / ALIGNMENT;
    MultipleOf(i, v, ALIGNMENT);
    assert a == (u + i * v) * ALIGNMENT + 0;
    DivMod(a, u + i * v, 0, ALIGNMENT);
  }

  lemma MultipleOf(i: nat, v: nat, n: nat)
    ensures i * (v * n) == (i * v) * n
  {
  }

  /** Different blocks do not overlap. */
  lemma BlocksApart(start: nat, size: nat, capacity: nat, a: nat, b: nat)
    requires size > 0 && a in Blocks(start, size, capacity) && b in Blocks(start, size, capacity) && a < b
    ensures a + size <= b
  {
    var i: nat :| i < capacity && a == start + i * size;
    var j: nat :| j < capacity && b == start + j * size;
    AtLeastOnce(j - i, size);
    assert (j - i) * size == j * size - i * size > 0;
  }

  lemma NextBlock(start: nat, size: nat, n: nat)
    requires size > 0
    ensures Blocks(start, size, n + 1) == Blocks(start, size, n) + {start + n * size}
    ensures start + n * size !in Blocks(start, size, n)
    ensures start + (n + 1) * size == start + n * size + size
  {
    BlockAddresses(start, size, n, start + n * size);
    assert (n + 1) * size == n * size + size;
    assert size * n == n * size;
  }

  lemma {:induction false} BlockCount(start: nat, size: nat, capacity: nat)
    requires size > 0
    ensures |Blocks(start, size, capacity)| == capacity
  {
    if capacity == 0 {
      assert Blocks(start, size, 0) == {};
    } else {
      BlockCount(start, size, capacity - 1);
      NextBlock(start, size, capacity - 1);
      hide Blocks;
    }
  }

  ghost function Members(s: seq<nat>): set<nat> {
    set x | x in s
  }

  /** The first `n` blocks are threaded, the last of them pointing at block `n`. */
  ghost predicate Threaded(start: nat, size: nat, words: map<nat, nat>, list: seq<nat>, n: nat) {
    && words.Keys == Blocks(start, size, n) && |list| == n
    && forall i | 0 <= i < n ::
      list[i] == start + i * size && list[i] in words && words[list[i]] == start + (i + 1) * size
  }

  lemma ThreadStep(start: nat, size: nat, words: map<nat, nat>, list: seq<nat>, n: nat)
    requires size > 0 && Threaded(start, size, words, list, n)
    ensures Threaded(start, size, words[start + n * size := start + (n + 1) * size], list + [start + n * size], n + 1)
  {
    NextBlock(start, size, n);
  }

  /** A free list: distinct free blocks, each pointing at the next and the last one nowhere. */
  ghost predicate FreeList(words: map<nat, nat>, free: seq<nat>) {
    && (forall i, j | 0 <= i < j < |free| :: free[i] != free[j])
    && (forall i | 0 <= i < |free| :: free[i] in words)
    && (forall i, j | 0 <= i && j == i + 1 < |free| :: words[free[i]] == free[j])
    && (free != [] ==> words[free[|free| - 1]] == 0)
  }

  lemma ThreadEnds(start: nat, size: nat, words: map<nat, nat>, list: seq<nat>, n: nat)
    requires size > 0 && Threaded(start, size, words, list, n)
    ensures var words', list' := words[start + n * size := 0], list + [start + n * size];
      words'.Keys == Blocks(start, size, n + 1) == Members(list') && FreeList(words', list')
  {
    NextBlock(start, size, n);
    var words', list' := words[start + n * size := 0], list + [start + n * size];
    assert forall i | 0 <= i <= n :: list'[i] == start + i * size;
    forall i, j | 0 <= i < j < |list'| ensures list'[i] < list'[j] {
      MulMono(i + 1, j, size);
      assert (i + 1) * size == i * size + size;
    }
    forall i, j | 0 <= i && j == i + 1 < |list'| ensures words'[list'[i]] == list'[j] {
      assert list'[i] < list'[n];
    }
    forall a | a in Blocks(start, size, n + 1) ensures a in list' {
      var i: nat :| i < n + 1 && a == start + i * size;
      assert list'[i] == a;
    }
    forall a | a in list' ensures a in Blocks(start, size, n + 1) {
      var i :| 0 <= i < |list'| && list'[i] == a;
    }
  }

  class MemoryPool {
    const start: nat
    const blockSize: nat
    const capacity: nat
    var freeList: nat
    /** The first word of every block; 0 is the null pointer. */
    var memory: map<nat, nat>
    ghost var free: seq<nat>
    ghost var outstanding: set<nat>

    /** The free list lists the free blocks, each once; with the outstanding ones they make up the pool. */
    ghost predicate Valid()
      reads this
    {
      && start > 0 && start % ALIGNMENT == 0 && blockSize > 0 && blockSize % ALIGNMENT == 0
      && memory.Keys == Blocks(start, blockSize, capacity)
      && FreeList(memory, free) && freeList == (if free == [] then 0 else free[0])
      && Members(free) !! outstanding && Members(free) + outstanding == memory.Keys
    }

    /** Threads the blocks of a fresh buffer onto the free list in order. */
    constructor (start: nat, capacity: nat, blockSize: nat)
      requires start > 0 && start % ALIGNMENT == 0 && capacity > 0
      requires 0 < blockSize <= SIZE_MAX && AlignBlockSize(blockSize) > 0
      ensures Valid() && outstanding == {} && this.capacity == capacity && this.blockSize == AlignBlockSize(blockSize)
    {
      AlignedSize(blockSize);
      var size := AlignBlockSize(blockSize);
      this.start, this.capacity, this.blockSize := start, capacity, size;
      freeList := start;
      var words: map<nat, nat> := map[];
      ghost var list: seq<nat> := [];
      var i := 0;
      while i < capacity - 1
        invariant 0 <= i <= capacity - 1 && Threaded(start, size, words, list, i)
      {
        ThreadStep(start, size, words, list, i);
        NextBlock(start, size, i);
        words := words[start + i * size := start + i * size + size];
        list := list + [start + i * size];
        i := i + 1;
      }
      ThreadEnds(start, size, words, list, i);
      memory := words[start + (capacity - 1) * size := 0];
      free := list + [start + (capacity - 1) * size];
      outstanding := {};
    }

    /** Hands out the head of the free list; fails exactly when every block is outstanding. */
    method Alloc() returns (r: Option<nat>)
      requires Valid()
      modifies this`freeList, this`free, this`outstanding
      ensures Valid()
      ensures r == None <==> old(outstanding) == Blocks(start, blockSize, capacity)
      ensures r == None ==> outstanding == old(outstanding)
      ensures r.Some? ==>
        && r.value !in old(outstanding) && r.value in Blocks(start, blockSize, capacity)
        && outstanding == old(outstanding) + {r.value}
    {
      NotNull();
      if freeList == 0 {
        return None;
      }
      assert free != [] && free[0] in Members(free);
      FreeTail(memory, free);
      r := Some(freeList);
      freeList := memory[freeList];
      outstanding := outstanding + {free[0]};
      free := free[1..];
    }

    lemma NotNull()
      requires Valid()
      ensures 0 !in memory.Keys
      ensures freeList == 0 <==> free == []
      ensures free == [] <==> outstanding == memory.Keys
    {
      if free != [] {
        assert free[0] in Members(free);
      }
    }

    /** Puts a block back in front of the free list; addresses that are no block are refused. */
    method Dealloc(pointer: nat) returns (ok: bool)
      requires Valid() && (IsBlock(start, blockSize, capacity, pointer) ==> pointer in outstanding)
      modifies this
      ensures Valid() && ok == (pointer in Blocks(start, blockSize, capacity))
      ensures outstanding == old(outstanding) - {pointer}
    {
      BlockAddresses(start, blockSize, capacity, pointer);
      if !IsBlock(start, blockSize, capacity, pointer) {
        return false;
      }
      FreePush(memory, free, pointer);
      memory := memory[pointer := freeList];
      freeList := pointer;
      free := [pointer] + free;
      outstanding := outstanding - {pointer};
      ok := true;
    }

    /** The owner of a block may write what it likes to it; the free list does not notice. */
    method Write(pointer: nat, word: nat)
      requires Valid() && pointer in outstanding
      modifies this`memory
      ensures Valid() && memory == old(memory)[pointer := word]
    {
      assert pointer !in Members(free);
      memory := memory[pointer := word];
    }
  }

  /**
     Creates a pool at an address the system hands out; `header` is the room its fields take. It is
     refused for empty pools or blocks, when the sizes overflow, and when there is no memory.
   */
  method NewPool(start: nat, capacity: nat, blockSize: nat, header: nat, available: bool) returns (pool: MemoryPool?)
    requires start > 0 && start % ALIGNMENT == 0 && capacity <= SIZE_MAX && blockSize <= SIZE_MAX && header <= SIZE_MAX
    ensures pool != null <==>
      && capacity > 0 && blockSize > 0 && available
      && AlignBlockSize(blockSize) > 0 && capacity * AlignBlockSize(blockSize) + header <= SIZE_MAX
    ensures pool != null ==> fresh(pool) && pool.Valid() && pool.outstanding == {} && pool.capacity == capacity
  {
    if blockSize == 0 || capacity == 0 {
      return null;
    }
    var size := AlignBlockSize(blockSize);
    Overflows(capacity, size);
    if size == 0 || size > SIZE_MAX / capacity {
      return null;
    }
    if capacity * size > SIZE_MAX - header {
      return null;
    }
    if !available {
      return null;
    }
    pool := new MemoryPool(start, capacity, blockSize);
  }

  lemma Overflows(capacity: nat, size: nat)
    requires capacity > 0
    ensures size > SIZE_MAX / capacity <==> capacity * size > SIZE_MAX
  {
    if capacity * size <= SIZE_MAX {
      DivBounds(SIZE_MAX, capacity, size, SIZE_MAX);
    } else {
      StrictDiv(SIZE_MAX, capacity, size);
    }
  }

  lemma FreeTail(words: map<nat, nat>, free: seq<nat>)
    requires FreeList(words, free) && free != []
    ensures FreeList(words, free[1..]) && Members(free) == Members(free[1..]) + {free[0]}
      && free[0] !in Members(free[1..])
    ensures words[free[0]] == (if free[1..] == [] then 0 else free[1..][0])
  {
    assert free == [free[0]] + free[1..];
  }

  lemma FreePush(words: map<nat, nat>, free: seq<nat>, x: nat)
    requires FreeList(words, free) && x !in Members(free)
    ensures FreeList(words[x := if free == [] then 0 else free[0]], [x] + free)
    ensures Members([x] + free) == Members(free) + {x}
  {
    var list, w := [x] + free, words[x := if free == [] then 0 else free[0]];
    forall i | 0 <= i < |free| ensures free[i] != x && w[free[i]] == words[free[i]] {
      assert free[i] in Members(free);
    }
    forall i, j | 0 <= i && j == i + 1 < |list| ensures w[list[i]] == list[j] {
      if i > 0 {
        assert list[i] == free[i - 1] && list[j] == free[j - 1];
      }
    }
    forall i, j | 0 <= i < j < |list| ensures list[i] != list[j] {
      if i == 0 {
        assert free[j - 1] in Members(free);
      }
    }
  }
}

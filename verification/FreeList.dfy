/** The intrusive free list of sim.h: `SIM_MBLOCK_ALLOC` and `SIM_MBLOCK_FREE`.

    Memory is word-addressed and address 0 is the null pointer. A free block's first word
    holds the address of the next free block; once a block is allocated the client may
    overwrite all of it. Here each macro is one atomic operation; `FreeListThreads` takes
    the lock apart. */
module FreeList {

  const NULL: nat := 0

  /** Blocks of `size` words each. */
  datatype Pool = Pool(blocks: set<nat>, size: nat)

  /** The blocks lie inside memory, off the null address, and do not overlap. */
  ghost predicate Laid(p: Pool, words: nat) {
    && p.size > 0
    && NULL !in p.blocks
    && (forall b :: b in p.blocks ==> b + p.size <= words)
    && (forall b, b' :: b in p.blocks && b' in p.blocks && b != b' ==> b + p.size <= b' || b' + p.size <= b)
  }

  /** Following the links from `head` visits exactly `stack` and ends in null. */
  ghost predicate Chain(mem: seq<nat>, head: nat, stack: seq<nat>)
    decreases |stack|
  {
    if stack == [] then head == NULL
    else head == stack[0] && head != NULL && head < |mem| && Chain(mem, mem[head], stack[1..])
  }

  /** Following the links from `head` comes to an end. */
  ghost predicate Ends(mem: seq<nat>, head: nat) {
    exists s: seq<nat> :: Chain(mem, head, s)
  }

  /** The links from `head` determine the list. */
  lemma {:induction false} ChainUnique(mem: seq<nat>, head: nat, s: seq<nat>, s': seq<nat>)
    requires Chain(mem, head, s) && Chain(mem, head, s')
    ensures s == s'
    decreases |s|
  {
    if s != [] {
      ChainUnique(mem, mem[head], s[1..], s'[1..]);
      assert s == [s[0]] + s[1..] && s' == [s'[0]] + s'[1..];
    }
  }

  lemma {:induction false} ChainSuffix(mem: seq<nat>, head: nat, s: seq<nat>, i: nat)
    requires Chain(mem, head, s) && i < |s|
    ensures Chain(mem, s[i], s[i..])
    decreases |s|
  {
    if i == 0 {
      assert s[0..] == s;
    } else {
      ChainSuffix(mem, mem[head], s[1..], i - 1);
      assert s[1..][i - 1..] == s[i..];
    }
  }

  /** A chain that ends is acyclic: no block occurs in it twice. */
  lemma ChainAcyclic(mem: seq<nat>, head: nat, s: seq<nat>)
    requires Chain(mem, head, s)
    ensures forall i, j :: 0 <= i < j < |s| ==> s[i] != s[j]
  {
    forall i, j | 0 <= i < j < |s|
      ensures s[i] != s[j]
    {
      ChainSuffix(mem, head, s, i);
      ChainSuffix(mem, head, s, j);
      if s[i] == s[j] {
        ChainUnique(mem, s[i], s[i..], s[j..]);
      }
    }
  }

  /** A chain depends on nothing but the first words of its own blocks. */
  lemma {:induction false} ChainFrame(mem: seq<nat>, mem': seq<nat>, head: nat, s: seq<nat>)
    requires Chain(mem, head, s) && |mem| == |mem'|
    requires forall b :: b in s && b < |mem| ==> mem[b] == mem'[b]
    ensures Chain(mem', head, s)
    decreases |s|
  {
    if s != [] {
      assert s[0] in s;
      assert forall b :: b in s[1..] ==> b in s;
      ChainFrame(mem, mem', mem[head], s[1..]);
    }
  }

  /** A block on the list is still reached after its own link has been changed. */
  lemma {:induction false} StillReached(mem: seq<nat>, mem': seq<nat>, head: nat, s: seq<nat>, s': seq<nat>, b: nat)
    requires Chain(mem, head, s) && Chain(mem', head, s') && b in s && |mem| == |mem'|
    requires forall i :: 0 <= i < |mem| && i != b ==> mem[i] == mem'[i]
    ensures b in s'
    decreases |s|
  {
    if s[0] != b {
      StillReached(mem, mem', mem[head], s[1..], s'[1..], b);
    }
  }

  /** The two assignments of the free macro, on any block of the pool, leave a chain that
      ends if and only if the block was not already on the list. */
  lemma FreeEndsIffNotListed(p: Pool, mem: seq<nat>, head: nat, s: seq<nat>, b: nat)
    requires Laid(p, |mem|) && Chain(mem, head, s) && b in p.blocks
    ensures b < |mem|
    ensures Ends(mem[b := head], b) <==> b !in s
    ensures b !in s ==> Chain(mem[b := head], b, [b] + s)
  {
    assert b + p.size <= |mem|;
    var mem' := mem[b := head];
    if b !in s {
      ChainFrame(mem, mem', head, s);
      assert ([b] + s)[1..] == s;
      assert Chain(mem', b, [b] + s);
    } else if Ends(mem', b) {
      var s' :| Chain(mem', b, s');
      ChainAcyclic(mem', b, s');
      StillReached(mem, mem', head, s, s'[1..], b);
    }
  }

  /** Writing any word of a block leaves the first words of all other blocks alone. */
  lemma Separation(p: Pool, mem: seq<nat>, b: nat, k: nat, v: nat)
    requires Laid(p, |mem|) && b in p.blocks && k < p.size
    ensures b + k < |mem|
    ensures forall b' :: b' in p.blocks && b' != b ==> mem[b + k := v][b'] == mem[b']
  {
  }

  /** The free list and the held blocks together are the pool, each block once. */
  ghost predicate Partition(p: Pool, stack: seq<nat>, held: set<nat>) {
    && (forall b :: b in p.blocks <==> b in stack || b in held)
    && (forall b :: b in stack ==> b !in held)
  }

  class BlockList {
    const pool: Pool
    const mem: array<nat>
    var free: nat
    ghost var stack: seq<nat>
    ghost var held: set<nat>

    ghost predicate Valid()
      reads this, mem
    {
      && Laid(pool, mem.Length)
      && Chain(mem[..], free, stack)
      && Partition(pool, stack, held)
    }

    /** Any well-formed chain through the whole pool. */
    constructor (pool: Pool, mem: array<nat>, free: nat, ghost stack: seq<nat>)
      requires Laid(pool, mem.Length) && Chain(mem[..], free, stack) && Partition(pool, stack, {})
      ensures Valid() && this.pool == pool && this.mem == mem && this.free == free
      ensures this.stack == stack && held == {}
    {
      this.pool, this.mem, this.free := pool, mem, free;
      this.stack, this.held := stack, {};
    }

    method Alloc() returns (ptr: nat)
      requires Valid() && free != NULL
      modifies this
      ensures Valid()
      ensures old(stack) == [ptr] + stack
      ensures held == old(held) + {ptr} && ptr !in old(held) && ptr in pool.blocks
    {
      ChainAcyclic(mem[..], free, stack);
      ptr := free;
      free := mem[free];
      assert stack == [ptr] + stack[1..];
      stack := stack[1..];
      held := held + {ptr};
    }

    method Free(ptr: nat)
      requires Valid() && ptr in held
      modifies this, mem
      ensures Valid()
      ensures stack == [ptr] + old(stack) && held == old(held) - {ptr}
      ensures free == ptr && mem[..] == old(mem[..])[ptr := old(free)]
    {
      Separation(pool, mem[..], ptr, 0, free);
      mem[ptr] := free;
      ChainFrame(old(mem[..]), mem[..], free, stack);
      free := ptr;
      stack := [ptr] + stack;
      held := held - {ptr};
    }

    /** A client writes word `k` of a block it holds, the link word included. */
    method Store(ptr: nat, k: nat, v: nat)
      requires Valid() && ptr in held && k < pool.size
      modifies mem
      ensures Valid()
      ensures mem[..] == old(mem[..])[ptr + k := v]
    {
      Separation(pool, mem[..], ptr, k, v);
      mem[ptr + k] := v;
      ChainFrame(old(mem[..]), mem[..], free, stack);
    }
  }
}

/** The initial state of the cedar double-array trie (src/lib.rs).
    A fresh trie owns one block of 256 nodes: node 0 is the root and
    nodes 1..255 are free.  Free nodes are chained into a circular doubly
    linked list stored in negated fields: -check is the next free node and
    -value is the previous one. */
module DoubleArray {

  /** Rust's i32 and u8. */
  newtype i32 = x: int | -0x8000_0000 <= x < 0x8000_0000
  newtype u8 = x: int | 0 <= x < 0x100

  /** Sibling and first-child labels of a node. */
  datatype NInfo = NInfo(sibling: u8, child: u8)

  /** A double-array slot: base (value) and owner (check). */
  datatype Node = Node(value: i32, check: i32)

  /** Bookkeeping for one block of 256 consecutive slots. */
  datatype Block = Block(prev: i32, next: i32, num: i32, reject: i32, trial: i32, eHead: i32)

  /** Number of slots in a block. */
  const BlockSize: int := 256

  /** Block::new: a block with all its slots counted as free. */
  function NewBlock(): Block
  {
    Block(0, 0, 256, 257, 0, 0)
  }

  predicate IsFree(i: int)
  {
    1 <= i < BlockSize
  }

  /** The next free slot after slot i, read from its negated check. */
  function Succ(nodes: seq<Node>, i: int): int
    requires 0 <= i < |nodes|
  {
    -(nodes[i].check as int)
  }

  /** The previous free slot before slot i, read from its negated value. */
  function Pred(nodes: seq<Node>, i: int): int
    requires 0 <= i < |nodes|
  {
    -(nodes[i].value as int)
  }

  /** The slots 1..255 are linked into a ring: both links stay inside it. */
  ghost predicate FreeRing(nodes: seq<Node>)
  {
    |nodes| == BlockSize &&
    forall i :: 1 <= i < BlockSize ==> 1 <= Succ(nodes, i) < BlockSize && 1 <= Pred(nodes, i) < BlockSize
  }

  /** The two links undo each other on every free slot. */
  ghost predicate Doubly(nodes: seq<Node>)
    requires FreeRing(nodes)
  {
    (forall i {:trigger Pred(nodes, Succ(nodes, i))} :: 1 <= i < BlockSize ==> Pred(nodes, Succ(nodes, i)) == i) &&
    (forall i {:trigger Succ(nodes, Pred(nodes, i))} :: 1 <= i < BlockSize ==> Succ(nodes, Pred(nodes, i)) == i)
  }

  /** The layout Cedar::new produces for the node array. */
  ghost predicate InitialNodes(nodes: seq<Node>)
  {
    |nodes| == BlockSize &&
    nodes[0] == Node(-2, 0) &&
    (forall i :: 1 <= i < BlockSize - 1 ==> Succ(nodes, i) == i + 1) &&
    Succ(nodes, BlockSize - 1) == 1 &&
    (forall i :: 2 <= i < BlockSize ==> Pred(nodes, i) == i - 1) &&
    Pred(nodes, 1) == BlockSize - 1
  }

  /** The slot reached from `from` after k steps along the next-free links. */
  function Walk(nodes: seq<Node>, from: int, k: nat): (r: int)
    requires FreeRing(nodes) && IsFree(from)
    ensures IsFree(r)
    decreases k
  {
    if k == 0 then from else Walk(nodes, Succ(nodes, from), k - 1)
  }

  /** The slot reached from `from` after k steps along the previous-free links. */
  function WalkBack(nodes: seq<Node>, from: int, k: nat): (r: int)
    requires FreeRing(nodes) && IsFree(from)
    ensures IsFree(r)
  {
    if k == 0 then from else Pred(nodes, WalkBack(nodes, from, k - 1))
  }

  /** The initial layout is a well-formed doubly linked ring. */
  lemma InitialIsDoublyLinkedRing(nodes: seq<Node>)
    requires InitialNodes(nodes)
    ensures FreeRing(nodes) && Doubly(nodes)
  {
    forall i | IsFree(i)
      ensures IsFree(Succ(nodes, i)) && IsFree(Pred(nodes, i))
    {
      if i < BlockSize - 1 { assert Succ(nodes, i) == i + 1; }
      if i > 1 { assert Pred(nodes, i) == i - 1; }
    }
    assert FreeRing(nodes);
    forall i | IsFree(i)
      ensures Pred(nodes, Succ(nodes, i)) == i && Succ(nodes, Pred(nodes, i)) == i
    {
      if i < BlockSize - 1 { assert Succ(nodes, i) == i + 1; assert Pred(nodes, i + 1) == i; }
      if i > 1 { assert Pred(nodes, i) == i - 1; assert Succ(nodes, i - 1) == i; }
    }
  }

  /** From slot 1, k steps along the free list land on slot k + 1, and after
      255 steps the walk is back at slot 1. */
  lemma {:induction false} InitialWalk(nodes: seq<Node>, k: nat)
    requires InitialNodes(nodes) && k < BlockSize
    ensures FreeRing(nodes)
    ensures Walk(nodes, 1, k) == if k == BlockSize - 1 then 1 else k + 1
  {
    InitialIsDoublyLinkedRing(nodes);
    if k > 0 {
      InitialWalk(nodes, k - 1);
      WalkLast(nodes, 1, k - 1);
    }
  }

  /** One more step appends one Succ at the end of the walk. */
  lemma {:induction false} WalkLast(nodes: seq<Node>, from: int, k: nat)
    requires FreeRing(nodes) && IsFree(from)
    ensures Walk(nodes, from, k + 1) == Succ(nodes, Walk(nodes, from, k))
    decreases k
  {
    if k > 0 {
      WalkLast(nodes, Succ(nodes, from), k - 1);
    }
  }

  /** Following the free list from slot 1 visits each free slot exactly once
      before it returns to slot 1. */
  lemma InitialWalkVisitsEachOnce(nodes: seq<Node>)
    requires InitialNodes(nodes)
    ensures FreeRing(nodes)
    ensures forall k :: 0 <= k < BlockSize - 1 ==> Walk(nodes, 1, k) == k + 1
    ensures forall j, k :: 0 <= j < k < BlockSize - 1 ==> Walk(nodes, 1, j) != Walk(nodes, 1, k)
    ensures Walk(nodes, 1, BlockSize - 1) == 1
  {
    InitialIsDoublyLinkedRing(nodes);
    forall k | 0 <= k < BlockSize
      ensures Walk(nodes, 1, k) == if k == BlockSize - 1 then 1 else k + 1
    {
      InitialWalk(nodes, k);
    }
  }

  /** On a doubly linked ring, walking back k steps undoes walking forward k
      steps: the previous-free links are the inverse of the next-free links. */
  lemma {:induction false} WalkBackUndoesWalk(nodes: seq<Node>, from: int, k: nat)
    requires FreeRing(nodes) && Doubly(nodes) && IsFree(from)
    ensures WalkBack(nodes, Walk(nodes, from, k), k) == from
    decreases k
  {
    if k > 0 {
      var next := Succ(nodes, from);
      WalkBackUndoesWalk(nodes, next, k - 1);
      WalkBackFirst(nodes, Walk(nodes, next, k - 1), k - 1);
    }
  }

  /** Walking back k + 1 steps takes its first step first. */
  lemma {:induction false} WalkBackFirst(nodes: seq<Node>, from: int, k: nat)
    requires FreeRing(nodes) && IsFree(from) && IsFree(Succ(nodes, from))
    ensures WalkBack(nodes, from, k + 1) == WalkBack(nodes, Pred(nodes, from), k)
  {
    if k > 0 {
      WalkBackFirst(nodes, from, k - 1);
    }
  }

  /** The trie: the node array, per-node labels, block list and the
      reject table, with the heads of the three block lists. */
  class Cedar {
    var nodes: seq<Node>
    var nInfos: seq<NInfo>
    var blocks: seq<Block>
    var reject: seq<i32>
    var blocksHeadFull: i32
    var blocksHeadClosed: i32
    var blocksHeadOpen: i32
    var capacity: i32
    var size: i32
    var ordered: bool
    var maxTrial: i32

    /** The invariant later operations rely on: the node array fills the
        capacity, every node has its labels, and the free slots of block 0
        form a doubly linked ring entered at the block's e_head. */
    ghost predicate Valid()
      reads this
    {
      |nodes| == capacity as int == size as int == |nInfos| &&
      FreeRing(nodes) && Doubly(nodes) &&
      |blocks| >= 1 && IsFree(blocks[0].eHead as int)
    }

    /** Cedar::new */
    constructor ()
      ensures Valid()
      ensures InitialNodes(nodes)
      ensures |nInfos| == BlockSize && forall i :: 0 <= i < BlockSize ==> nInfos[i] == NInfo(0, 0)
      ensures |reject| == BlockSize + 1 && forall i :: 0 <= i <= BlockSize ==> reject[i] as int == i + 1
      ensures blocks == [Block(0, 0, 256, 257, 0, 1)]
      ensures blocksHeadFull == blocksHeadClosed == blocksHeadOpen == 0
      ensures capacity == size == 256 && ordered && maxTrial == 1
    {
      var arr: seq<Node> := [];
      var infos: seq<NInfo> := seq(BlockSize, _ => NInfo(0, 0));
      var blockList := [NewBlock()];
      var rejectTable: seq<i32> := seq(BlockSize + 1, i requires 0 <= i <= BlockSize => (i + 1) as i32);

      arr := arr + [Node(-2, 0)];
      for i := 1 to BlockSize
        invariant |arr| == i && arr[0] == Node(-2, 0)
        invariant forall j :: 1 <= j < i ==> arr[j] == Node((-(j - 1)) as i32, (-(j + 1)) as i32)
      {
        arr := arr + [Node((-(i - 1)) as i32, (-(i + 1)) as i32)];
      }

      arr := arr[1 := arr[1].(value := -255)];
      arr := arr[255 := arr[255].(check := -1)];

      blockList := blockList[0 := blockList[0].(eHead := 1)];

      nodes := arr;
      nInfos := infos;
      blocks := blockList;
      reject := rejectTable;
      blocksHeadFull := 0;
      blocksHeadClosed := 0;
      blocksHeadOpen := 0;
      capacity := 256;
      size := 256;
      ordered := true;
      maxTrial := 1;
      new;
      InitialIsDoublyLinkedRing(nodes);
    }
  }
}

/** The free lists of allocator/src/linked_list.rs. A node occupies the first eight
    words of the free block it describes, so the list lives in the memory that the
    allocator manages. A null link is 0. */
module FreeList {
  import opened PhysicalMemory

  const MAGIC_1 := 211482366920938462397425787431768211125
  const MAGIC_2 := 192137983263256483582376453435164352209

  datatype Node = Node(magic1: nat, next: Word, prev: Word, size: Word, id: Word, magic2: nat)

  function DecodeNode(p: Page): Node {
    Node(p[0] + p[1] * WORD_LIMIT, p[2], p[3], p[4], p[5], p[6] + p[7] * WORD_LIMIT)
  }

  /** Writes a fresh node over the first words of a page. */
  function EncodeNode(p: Page, size: Word, id: Word): Page {
    [MAGIC_1 % WORD_LIMIT, MAGIC_1 / WORD_LIMIT, 0, 0, size, id,
     MAGIC_2 % WORD_LIMIT, MAGIC_2 / WORD_LIMIT] + p[8..]
  }

  function NodeAt(m: Ram, f: nat): Node {
    DecodeNode(PageAt(m, f))
  }

  predicate MagicIntact(d: Node) {
    d.magic1 == MAGIC_1 && d.magic2 == MAGIC_2
  }

  /** A node written by `Node::new(None, None, size)`. */
  predicate IsFreshNode(m: Ram, f: nat, n: nat) {
    var d := NodeAt(m, f);
    MagicIntact(d) && d.next == 0 && d.prev == 0 && d.size == n * PAGE_SIZE
  }

  lemma EncodeIsFresh(m: Ram, f: nat, n: nat, id: Word)
    requires n * PAGE_SIZE < WORD_LIMIT
    ensures var m' := m[f := EncodeNode(PageAt(m, f), n * PAGE_SIZE, id)];
            IsFreshNode(m', f, n) && NodeAt(m', f).id == id && PageAt(m', f)[8..] == PageAt(m, f)[8..]
  {}

  /** The link that stands for position `i` of a list of frames. */
  function Link(nodes: seq<nat>, i: int): nat {
    if 0 <= i < |nodes| then nodes[i] * PAGE_SIZE else 0
  }

  predicate Linked(m: Ram, nodes: seq<nat>, n: nat, i: int)
    requires 0 <= i < |nodes|
  {
    var d := NodeAt(m, nodes[i]);
    MagicIntact(d) && d.next == Link(nodes, i + 1) && d.prev == Link(nodes, i - 1) &&
    d.size == n * PAGE_SIZE
  }

  /** From `head`, memory holds exactly the list `nodes` of blocks of `n` pages. */
  ghost predicate Chain(m: Ram, head: nat, nodes: seq<nat>, n: nat) {
    && head == Link(nodes, 0)
    && (forall i :: 0 <= i < |nodes| ==> 0 < nodes[i] && nodes[i] * PAGE_SIZE < WORD_LIMIT)
    && (forall i :: 0 <= i < |nodes| ==> Linked(m, nodes, n, i))
  }

  /** No node is reached twice, so every walk along `next` ends. */
  lemma {:induction false} ChainIsAcyclic(m: Ram, head: nat, nodes: seq<nat>, n: nat, i: nat, j: nat)
    requires Chain(m, head, nodes, n) && i < j < |nodes|
    ensures nodes[i] != nodes[j]
    decreases |nodes| - j
  {
    if nodes[i] == nodes[j] {
      assert Linked(m, nodes, n, i) && Linked(m, nodes, n, j);
      assert Link(nodes, i + 1) == Link(nodes, j + 1);
      if j + 1 < |nodes| {
        ChainIsAcyclic(m, head, nodes, n, i + 1, j + 1);
      }
    }
  }

  /** Going to the next node and back again leads to the same node. */
  lemma LinksAreInverse(m: Ram, head: nat, nodes: seq<nat>, n: nat, i: nat)
    requires Chain(m, head, nodes, n) && i < |nodes|
    ensures var d := NodeAt(m, nodes[i]);
            (d.next != 0 ==> NodeAt(m, d.next / PAGE_SIZE).prev == nodes[i] * PAGE_SIZE) &&
            (d.prev != 0 ==> NodeAt(m, d.prev / PAGE_SIZE).next == nodes[i] * PAGE_SIZE) &&
            (d.prev == 0 <==> i == 0) && (d.next == 0 <==> i == |nodes| - 1)
  {
    assert Linked(m, nodes, n, i);
    if i > 0 { assert Linked(m, nodes, n, i - 1); }
    if i + 1 < |nodes| { assert Linked(m, nodes, n, i + 1); }
  }

  /** A list is determined by its head: two readings of the same memory agree. */
  lemma {:induction false} ChainIsUnique(m: Ram, head: nat, a: seq<nat>, b: seq<nat>, n: nat, i: nat)
    requires Chain(m, head, a, n) && Chain(m, head, b, n)
    requires i <= |a| && i <= |b| && a[..i] == b[..i] && Link(a, i) == Link(b, i)
    ensures a == b
    decreases |a| - i
  {
    if i < |a| {
      assert i < |b| && a[i] == b[i];
      assert a[..i + 1] == a[..i] + [a[i]] && b[..i + 1] == b[..i] + [b[i]];
      assert Linked(m, a, n, i) && Linked(m, b, n, i);
      ChainIsUnique(m, head, a, b, n, i + 1);
    } else {
      assert i == |b|;
      assert a == a[..i] && b == b[..i];
    }
  }

  /** A list depends on the pages of its own blocks only. */
  lemma ChainFrame(m: Ram, m': Ram, head: nat, nodes: seq<nat>, n: nat)
    requires Chain(m, head, nodes, n)
    requires forall f :: f in nodes ==> PageAt(m', f) == PageAt(m, f)
    ensures Chain(m', head, nodes, n)
  {
    forall i | 0 <= i < |nodes| ensures Linked(m', nodes, n, i) {
      assert Linked(m, nodes, n, i);
      assert nodes[i] in nodes;
    }
  }

  /** Despite its name in the source, the new node goes to the end of the list. The
      two magic checks cannot fail. */
  method PushFront(mem: Memory, head: nat, other: nat, ghost nodes: seq<nat>, ghost n: nat) returns (head': nat)
    requires Chain(mem.pages, head, nodes, n)
    requires 0 < other && other * PAGE_SIZE < WORD_LIMIT && other !in nodes
    requires IsFreshNode(mem.pages, other, n)
    modifies mem
    ensures Chain(mem.pages, head', nodes + [other], n)
    ensures forall f :: f !in nodes && f != other ==> PageAt(mem.pages, f) == PageAt(old(mem.pages), f)
  {
    var node, prev := head, 0;
    ghost var i := 0;
    while node != 0
      invariant 0 <= i <= |nodes| && node == Link(nodes, i) && prev == Link(nodes, i - 1)
      decreases |nodes| - i
    {
      assert Linked(mem.pages, nodes, n, i);
      assert MagicIntact(NodeAt(mem.pages, node / PAGE_SIZE));
      prev := node;
      node := NodeAt(mem.pages, node / PAGE_SIZE).next;
      i := i + 1;
    }
    assert i == |nodes|;
    ghost var m := mem.pages;
    if prev != 0 {
      assert Linked(m, nodes, n, i - 1);
      assert MagicIntact(NodeAt(mem.pages, prev / PAGE_SIZE));
      mem.WriteWord(prev / PAGE_SIZE, 2, other * PAGE_SIZE);
      mem.WriteWord(other, 3, prev);
      head' := head;
    } else {
      head' := other * PAGE_SIZE;
    }
    PushedChain(m, mem.pages, head, nodes, n, other);
  }

  lemma PushedChain(m: Ram, m': Ram, head: nat, nodes: seq<nat>, n: nat, other: nat)
    requires Chain(m, head, nodes, n)
    requires 0 < other && other * PAGE_SIZE < WORD_LIMIT && other !in nodes
    requires IsFreshNode(m, other, n)
    requires nodes == [] ==> m' == m
    requires nodes != [] ==>
               var last := nodes[|nodes| - 1];
               var m1 := m[last := PageAt(m, last)[2 := other * PAGE_SIZE]];
               m' == m1[other := PageAt(m1, other)[3 := last * PAGE_SIZE]]
    ensures Chain(m', Link(nodes + [other], 0), nodes + [other], n)
  {
    var all := nodes + [other];
    forall i | 0 <= i < |all| ensures Linked(m', all, n, i) {
      if i < |nodes| {
        assert Linked(m, nodes, n, i);
        if i < |nodes| - 1 {
          ChainIsAcyclic(m, head, nodes, n, i, |nodes| - 1);
        }
      }
    }
  }

  /** Detaches the oldest node; its page keeps its contents. */
  method PopFront(mem: Memory, head: nat, ghost nodes: seq<nat>, ghost n: nat) returns (popped: nat, head': nat)
    requires Chain(mem.pages, head, nodes, n)
    modifies mem
    ensures popped == Link(nodes, 0)
    ensures nodes != [] ==> Chain(mem.pages, head', nodes[1..], n)
    ensures nodes == [] ==> head' == 0 && mem.pages == old(mem.pages)
    ensures forall f :: f !in nodes ==> PageAt(mem.pages, f) == PageAt(old(mem.pages), f)
  {
    if head == 0 {
      return 0, 0;
    }
    popped := head;
    assert Linked(mem.pages, nodes, n, 0);
    assert MagicIntact(NodeAt(mem.pages, head / PAGE_SIZE));
    head' := NodeAt(mem.pages, head / PAGE_SIZE).next;
    ghost var m := mem.pages;
    if head' != 0 {
      assert Linked(mem.pages, nodes, n, 1);
      assert MagicIntact(NodeAt(mem.pages, head' / PAGE_SIZE));
      mem.WriteWord(head' / PAGE_SIZE, 3, 0);
    }
    PoppedChain(m, mem.pages, head, nodes, n);
  }

  lemma PoppedChain(m: Ram, m': Ram, head: nat, nodes: seq<nat>, n: nat)
    requires Chain(m, head, nodes, n) && nodes != []
    requires |nodes| == 1 ==> m' == m
    requires |nodes| > 1 ==> m' == m[nodes[1] := PageAt(m, nodes[1])[3 := 0]]
    ensures Chain(m', Link(nodes, 1), nodes[1..], n)
  {
    var rest := nodes[1..];
    forall i | 0 <= i < |rest| ensures Linked(m', rest, n, i) {
      assert Linked(m, nodes, n, i + 1);
      if i > 0 {
        ChainIsAcyclic(m, head, nodes, n, 1, i + 1);
      }
    }
  }
}

/** The target process's memory as the helper sees it during one call, the
    reads the helper issues against it, and the singly-linked bucket chains
    it walks. Memory is only ever read. */
module RemoteMemory {
  import opened MachineWords

  datatype Option<T> = None | Some(value: T)

  /** A UTF-16 code unit: a C# `char`. */
  type CodeUnit = x: int | 0 <= x < TwoTo16

  /** A C# string: a sequence of UTF-16 code units. */
  type Str = seq<CodeUnit>

  /** A snapshot of the target's memory: the pointer stored at an address,
      the 32-bit word stored at an address, and the text a bounded C-string
      read starting at an address decodes (up to, not including, the
      terminating null). An address absent from a map is one whose read
      fails. */
  datatype Memory = Memory(pointers: map<Addr, Addr>, words: map<Addr, UInt32>, strings: map<Addr, Str>)

  /** `ReadPointer`: a failed read yields the null pointer. */
  function ReadPointer(m: Memory, a: Addr): Addr
  {
    if a in m.pointers then m.pointers[a] else 0
  }

  /** `ReadValue<uint>`: a failed read yields 0. */
  function ReadUInt32(m: Memory, a: Addr): UInt32
  {
    if a in m.words then m.words[a] else 0
  }

  /** `ReadValue<int>`: the same four bytes read as a signed `int`. */
  function ReadInt32(m: Memory, a: Addr): (x: Int32)
    ensures ToUInt32(x) == ReadUInt32(m, a)
  {
    ToInt32(ReadUInt32(m, a))
  }

  /** `ReadNullTerminatedString` with a length bound: at most `maxLength`
      code units of the string stored at `a`; a failed read yields "". */
  function ReadCString(m: Memory, a: Addr, maxLength: nat): (s: Str)
    ensures |s| <= maxLength
    ensures a in m.strings ==> s <= m.strings[a]
    ensures a in m.strings && |m.strings[a]| <= maxLength ==> s == m.strings[a]
    ensures a !in m.strings ==> s == []
  {
    var stored := if a in m.strings then m.strings[a] else [];
    if |stored| <= maxLength then stored else stored[..maxLength]
  }

  /** The link of node `a`: the pointer stored `link` bytes into it. */
  function Next(m: Memory, link: Int32, a: Addr): Addr
  {
    ReadPointer(m, AddOffset(a, link))
  }

  /** `nodes` are the non-null addresses visited, in order, when a chain is
      followed from `head` through its `link` field until a null pointer. */
  ghost predicate IsChain(m: Memory, link: Int32, head: Addr, nodes: seq<Addr>)
    decreases |nodes|
  {
    if head == 0 then nodes == []
    else |nodes| > 0 && nodes[0] == head && IsChain(m, link, Next(m, link, head), nodes[1..])
  }

  /** The chain from `head` reaches a null pointer after finitely many nodes. */
  ghost predicate Ends(m: Memory, link: Int32, head: Addr)
  {
    exists nodes :: IsChain(m, link, head, nodes)
  }

  /** The nodes of a chain that ends: the only node list the chain from
      `head` has, so the choice below picks nothing arbitrary. */
  ghost function Chain(m: Memory, link: Int32, head: Addr): (nodes: seq<Addr>)
    requires Ends(m, link, head)
    ensures IsChain(m, link, head, nodes)
    ensures forall other :: IsChain(m, link, head, other) ==> other == nodes
  {
    var nodes :| IsChain(m, link, head, nodes);
    assert forall other :: IsChain(m, link, head, other) ==> other == nodes by {
      forall other | IsChain(m, link, head, other) ensures other == nodes {
        ChainUnique(m, link, head, other, nodes);
      }
    }
    nodes
  }

  /** The same chain written out node by node: every node is non-null, the
      first is `head`, each links to the next and the last links to null. */
  ghost predicate LinkedList(m: Memory, link: Int32, head: Addr, nodes: seq<Addr>)
  {
    && (nodes == [] <==> head == 0)
    && (nodes != [] ==> nodes[0] == head && Next(m, link, nodes[|nodes| - 1]) == 0)
    && (forall i :: 0 <= i < |nodes| ==> nodes[i] != 0)
    && (forall i :: 0 <= i < |nodes| - 1 ==> Next(m, link, nodes[i]) == nodes[i + 1])
  }

  /** The recursive definition of a chain and the node-by-node one agree. */
  lemma {:induction false} ChainIsLinkedList(m: Memory, link: Int32, head: Addr, nodes: seq<Addr>)
    ensures IsChain(m, link, head, nodes) <==> LinkedList(m, link, head, nodes)
    decreases |nodes|
  {
    if head != 0 && |nodes| > 0 && nodes[0] == head {
      var next, rest := Next(m, link, head), nodes[1..];
      ChainIsLinkedList(m, link, next, rest);
      if LinkedList(m, link, head, nodes) {
        assert LinkedList(m, link, next, rest) by {
          if rest == [] {
            assert Next(m, link, nodes[|nodes| - 1]) == 0;
          } else {
            assert Next(m, link, nodes[0]) == nodes[1];
            assert forall i :: 0 <= i < |rest| - 1 ==> Next(m, link, rest[i]) == rest[i + 1] by {
              forall i | 0 <= i < |rest| - 1 ensures Next(m, link, rest[i]) == rest[i + 1] {
                assert rest[i] == nodes[i + 1] && rest[i + 1] == nodes[i + 2];
              }
            }
          }
        }
      }
      if IsChain(m, link, head, nodes) {
        assert LinkedList(m, link, next, rest);
        forall i | 0 <= i < |nodes| - 1 ensures Next(m, link, nodes[i]) == nodes[i + 1] {
          if i > 0 {
            assert nodes[i] == rest[i - 1] && nodes[i + 1] == rest[i];
          }
        }
      }
    }
  }

  /** Memory determines the chain: two node lists for one head are equal. */
  lemma {:induction false} ChainUnique(m: Memory, link: Int32, head: Addr, a: seq<Addr>, b: seq<Addr>)
    requires IsChain(m, link, head, a) && IsChain(m, link, head, b)
    ensures a == b
    decreases |a|
  {
    if head != 0 {
      ChainUnique(m, link, Next(m, link, head), a[1..], b[1..]);
      assert a == [head] + a[1..] && b == [head] + b[1..];
    }
  }

  /** Every suffix of a chain is the chain from the node it starts at. */
  lemma {:induction false} ChainSuffix(m: Memory, link: Int32, head: Addr, nodes: seq<Addr>, k: nat)
    requires IsChain(m, link, head, nodes)
    requires k < |nodes|
    ensures IsChain(m, link, nodes[k], nodes[k..])
    decreases k
  {
    if k > 0 {
      ChainSuffix(m, link, Next(m, link, head), nodes[1..], k - 1);
      assert nodes[1..][k - 1..] == nodes[k..];
    }
  }

  /** A chain that ends never visits a node twice. */
  lemma ChainDistinct(m: Memory, link: Int32, head: Addr, nodes: seq<Addr>, i: nat, j: nat)
    requires IsChain(m, link, head, nodes)
    requires i < j < |nodes|
    ensures nodes[i] != nodes[j]
  {
    if nodes[i] == nodes[j] {
      ChainSuffix(m, link, head, nodes, i);
      ChainSuffix(m, link, head, nodes, j);
      ChainUnique(m, link, nodes[i], nodes[i..], nodes[j..]);
    }
  }

  /** The position of the first node satisfying `p`, if any. */
  function FindFirst(nodes: seq<Addr>, p: Addr -> bool): (r: Option<nat>)
    ensures r.Some? ==> r.value < |nodes| && p(nodes[r.value])
    ensures r.Some? ==> forall j :: 0 <= j < r.value ==> !p(nodes[j])
    ensures r.None? <==> forall j :: 0 <= j < |nodes| ==> !p(nodes[j])
    decreases |nodes|
  {
    if nodes == [] then None
    else if p(nodes[0]) then Some(0)
    else match FindFirst(nodes[1..], p)
      case None => None
      case Some(k) => Some(k + 1)
  }
}

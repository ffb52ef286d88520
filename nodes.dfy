/**
 * The nodes of the binary trie (one level per address bit, uncompressed), the
 * well-formedness of one family's tree under its root, and the in-place steps
 * of InsertIpNet on such a tree.
 */
module TrieNodes {
  import opened Wrappers
  import opened Addr
  import Lpm

  /** A terminal marker: the network as inserted (Go's cidr) and its payload (Go's data). */
  datatype Entry<T> = Entry(cidr: IPNet, data: T)

  /**
   * Proof only: one family's tree as the proof sees it. nodes maps each path
   * from the root to its node, marks maps each path to the marker of its node
   * (the abstraction), repr holds the nodes.
   */
  datatype TreeView<T> = TreeView(nodes: map<seq<bool>, TrieNode<T>>, marks: map<seq<bool>, Entry<T>>, repr: set<TrieNode<T>>)

  class TrieNode<T> {
    /** children[0] and children[1] */
    var zero: TrieNode?<T>
    var one: TrieNode?<T>
    /** cidr and data; the source always writes the two together, None is a nil cidr */
    var marker: Option<Entry<T>>
    /** Proof only: the family whose tree holds this node, and its path from that root. */
    ghost const family: Family
    ghost const path: seq<bool>

    /** &TrieNode{}: no children, no marker. */
    constructor (ghost family: Family, ghost path: seq<bool>)
      ensures zero == null && one == null && marker == None
      ensures this.family == family && this.path == path
    {
      this.family, this.path := family, path;
      zero, one, marker := null, null, None;
    }

    /** children[bit] */
    function Child(bit: bool): TrieNode?<T>
      reads this
    {
      if bit then one else zero
    }

    /** children[bit] = c */
    method SetChild(bit: bool, c: TrieNode?<T>)
      modifies this
      ensures Child(bit) == c && Child(!bit) == old(Child(!bit)) && marker == old(marker)
    {
      if bit {
        one := c;
      } else {
        zero := c;
      }
    }
  }

  function Parent(p: seq<bool>): seq<bool>
    requires p != []
  {
    p[..|p| - 1]
  }

  /** children[bit] as the tree's paths see it: the node at path q, or nil when the tree has none. */
  function Link<T>(nodes: map<seq<bool>, TrieNode<T>>, q: seq<bool>): TrieNode?<T> {
    if q in nodes then nodes[q] else null
  }

  /** The marker the abstraction records at path p. */
  function MarkerAt<T>(marks: map<seq<bool>, Entry<T>>, p: seq<bool>): Option<Entry<T>> {
    if p in marks then Some(marks[p]) else None
  }

  /**
   * The fields of node p are exactly what the abstraction says: its children
   * are the nodes at p + [false] and p + [true] (nil where there is none) and
   * its marker is the one marks records at p.
   */
  ghost predicate Wired<T>(nodes: map<seq<bool>, TrieNode<T>>, marks: map<seq<bool>, Entry<T>>, p: seq<bool>)
    requires p in nodes
    reads nodes[p]
  {
    var n := nodes[p];
    n.zero == Link(nodes, p + [false]) && n.one == Link(nodes, p + [true]) && n.marker == MarkerAt(marks, p)
  }

  /**
   * Node p of a family's tree is one of its objects, knows its family and
   * path, lies within the family's depth, and its parent is a node too.
   */
  ghost predicate Placed<T>(f: Family, nodes: map<seq<bool>, TrieNode<T>>, repr: set<TrieNode<T>>, p: seq<bool>)
    requires p in nodes
  {
    && nodes[p] in repr && nodes[p].family == f && nodes[p].path == p && |p| <= Width(f)
    && (p != [] ==> Parent(p) in nodes)
  }

  /**
   * The heap-free part of a family's tree: root at [], markers only on nodes,
   * every node placed, every object of the family's footprint of that family.
   */
  ghost predicate Shaped<T>(f: Family, root: TrieNode<T>, nodes: map<seq<bool>, TrieNode<T>>,
                            marks: map<seq<bool>, Entry<T>>, repr: set<TrieNode<T>>)
  {
    && [] in nodes && nodes[[]] == root && root in repr
    && marks.Keys <= nodes.Keys
    && (forall n :: n in repr ==> n.family == f)
    // triggered on Placed only: a trigger on membership would chase Parent(p) forever
    && (forall p {:trigger Placed(f, nodes, repr, p)} :: p in nodes ==> Placed(f, nodes, repr, p))
  }

  /**
   * nodes maps each path of a family's tree to its node, repr holds those
   * nodes, and marks is the abstraction of the tree.
   */
  ghost predicate Tree<T>(f: Family, root: TrieNode<T>, nodes: map<seq<bool>, TrieNode<T>>,
                          marks: map<seq<bool>, Entry<T>>, repr: set<TrieNode<T>>)
    reads repr
  {
    && Shaped(f, root, nodes, marks, repr)
    // triggered on Wired only: a trigger on membership would chase p + [b] forever
    && (forall p {:trigger Wired(nodes, marks, p)} :: p in nodes ==> Placed(f, nodes, repr, p) && Wired(nodes, marks, p))
  }

  /** Every prefix of a node's path is a node's path: the tree has no orphans. */
  lemma {:induction false} PrefixClosed<T>(f: Family, root: TrieNode<T>, nodes: map<seq<bool>, TrieNode<T>>,
                                          marks: map<seq<bool>, Entry<T>>, repr: set<TrieNode<T>>, q: seq<bool>, j: nat)
    requires Shaped(f, root, nodes, marks, repr)
    requires q in nodes && j <= |q|
    ensures q[..j] in nodes
    decreases |q| - j
  {
    if j < |q| {
      assert Placed(f, nodes, repr, q);
      PrefixClosed(f, root, nodes, marks, repr, Parent(q), j);
      assert Parent(q)[..j] == q[..j];
    } else {
      assert q[..j] == q;
    }
  }

  /** The parent of a node's path is a node's path. */
  lemma ParentIn<T>(f: Family, root: TrieNode<T>, nodes: map<seq<bool>, TrieNode<T>>,
                    marks: map<seq<bool>, Entry<T>>, repr: set<TrieNode<T>>, q: seq<bool>, x: bool)
    requires Shaped(f, root, nodes, marks, repr)
    ensures q + [x] in nodes ==> q in nodes
  {
    if q + [x] in nodes {
      assert Parent(q + [x]) == q;
      assert Placed(f, nodes, repr, q + [x]);
    }
  }

  /** Once a walk leaves the tree at depth k, no deeper node on that path carries a marker. */
  lemma NoMarkBeyond<T>(f: Family, root: TrieNode<T>, nodes: map<seq<bool>, TrieNode<T>>,
                        marks: map<seq<bool>, Entry<T>>, repr: set<TrieNode<T>>, bits: seq<bool>, k: nat)
    requires Shaped(f, root, nodes, marks, repr)
    requires k <= |bits| && bits[..k] !in nodes
    ensures forall m :: k <= m <= |bits| ==> bits[..m] !in nodes && bits[..m] !in marks
  {
    forall m | k <= m <= |bits| ensures bits[..m] !in nodes {
      if bits[..m] in nodes {
        assert bits[..m][..k] == bits[..k];
        PrefixClosed(f, root, nodes, marks, repr, bits[..m], k);
      }
    }
  }

  /** In a well-formed tree, node p's child on bit b is the node at p + [b], or nil when there is none. */
  lemma ChildStep<T>(f: Family, root: TrieNode<T>, nodes: map<seq<bool>, TrieNode<T>>,
                     marks: map<seq<bool>, Entry<T>>, repr: set<TrieNode<T>>, p: seq<bool>, b: bool)
    requires Tree(f, root, nodes, marks, repr) && p in nodes
    ensures nodes[p].Child(b) == Link(nodes, p + [b])
  {
    assert Wired(nodes, marks, p);
  }

  /** In a well-formed tree, the marker of node p is the one the abstraction records at p. */
  lemma MarkerStep<T>(f: Family, root: TrieNode<T>, nodes: map<seq<bool>, TrieNode<T>>,
                      marks: map<seq<bool>, Entry<T>>, repr: set<TrieNode<T>>, p: seq<bool>)
    requires Tree(f, root, nodes, marks, repr) && p in nodes
    ensures nodes[p].marker == MarkerAt(marks, p)
  {
    assert Wired(nodes, marks, p);
  }

  /** The root has no child exactly when it is the tree's only node. */
  lemma LoneRoot<T>(f: Family, root: TrieNode<T>, nodes: map<seq<bool>, TrieNode<T>>,
                    marks: map<seq<bool>, Entry<T>>, repr: set<TrieNode<T>>)
    requires Tree(f, root, nodes, marks, repr)
    ensures root.zero == null && root.one == null <==> nodes.Keys == {[]}
  {
    ChildStep(f, root, nodes, marks, repr, [], false);
    ChildStep(f, root, nodes, marks, repr, [], true);
    assert [] + [false] == [false] && [] + [true] == [true];
    assert root.zero == Link(nodes, [false]) && root.one == Link(nodes, [true]);
    if root.zero == null && root.one == null {
      forall q | q in nodes ensures q == [] {
        if q != [] {
          assert q[..1] == [q[0]];
          if q[0] {
            assert q[..1] == [true];
          } else {
            assert q[..1] == [false];
          }
          PrefixClosed(f, root, nodes, marks, repr, q, 1);
        }
      }
    }
  }

  /**
   * One step of InsertIpNet's walk from node p of a family's tree: the child on
   * bit, created (as &TrieNode{}) when the slot is empty. The tree then has
   * node p + [bit], and no node of it but p changed.
   */
  method Descend<T>(ghost f: Family, ghost root: TrieNode<T>, ghost nodes: map<seq<bool>, TrieNode<T>>,
                    ghost marks: map<seq<bool>, Entry<T>>, ghost repr: set<TrieNode<T>>,
                    node: TrieNode<T>, bit: bool, ghost p: seq<bool>)
    returns (next: TrieNode<T>, ghost repr': set<TrieNode<T>>)
    requires Tree(f, root, nodes, marks, repr)
    requires p in nodes && node == nodes[p] && |p| < Width(f)
    modifies node
    ensures Tree(f, root, nodes[p + [bit] := next], marks, repr')
    ensures p + [bit] in nodes ==> next == nodes[p + [bit]] && repr' == repr
    ensures p + [bit] !in nodes ==> fresh(next) && repr' == repr + {next}
  {
    ChildStep(f, root, nodes, marks, repr, p, bit);
    var child := node.Child(bit);
    if child == null {
      next := Grow(f, root, nodes, marks, repr, node, bit, p);
      repr' := repr + {next};
    } else {
      next, repr' := child, repr;
      assert nodes[p + [bit] := next] == nodes;
    }
  }

  /**
   * node.children[bit] = &TrieNode{} where the tree has no node p + [bit]:
   * the tree stays well formed with the fresh, empty node added at that path.
   */
  method Grow<T>(ghost f: Family, ghost root: TrieNode<T>, ghost nodes: map<seq<bool>, TrieNode<T>>,
                 ghost marks: map<seq<bool>, Entry<T>>, ghost repr: set<TrieNode<T>>,
                 node: TrieNode<T>, bit: bool, ghost p: seq<bool>)
    returns (next: TrieNode<T>)
    requires Tree(f, root, nodes, marks, repr)
    requires p in nodes && node == nodes[p] && |p| < Width(f) && p + [bit] !in nodes
    modifies node
    ensures Tree(f, root, nodes[p + [bit] := next], marks, repr + {next})
    ensures fresh(next)
  {
    var q := p + [bit];
    assert Parent(q) == p && q[..|p|] == p;
    assert Wired(nodes, marks, p);
    next := new TrieNode<T>(f, q);
    node.SetChild(bit, next);
    ghost var nodes', repr' := nodes[q := next], repr + {next};
    forall r | r in nodes' ensures Placed(f, nodes', repr', r) {
      if r != q {
        assert Placed(f, nodes, repr, r);
      }
    }
    forall r | r in nodes' ensures Wired(nodes', marks, r) {
      if r == q {
        ParentIn(f, root, nodes, marks, repr, q, false);
        ParentIn(f, root, nodes, marks, repr, q, true);
      } else {
        assert Placed(f, nodes, repr, r) && Placed(f, nodes, repr, p);
        assert old(Wired(nodes, marks, r));
        assert (r + [false])[..|r|] == r && (r + [true])[..|r|] == r;
      }
    }
  }

  lemma TakeStep<X>(s: seq<X>, i: nat)
    requires i < |s|
    ensures s[..i + 1] == s[..i] + [s[i]]
  {
  }

  /** The paths of the nodes a walk along path visits in its first i steps, root included. */
  ghost function PathPrefixes(path: seq<bool>, i: nat): set<seq<bool>>
    requires i <= |path|
  {
    set j | 0 <= j <= i :: path[..j]
  }

  lemma PathPrefixesStep(path: seq<bool>, i: nat)
    requires i < |path|
    ensures PathPrefixes(path, i + 1) == PathPrefixes(path, i) + {path[..i + 1]}
  {
  }

  /**
   * Walking a path the tree already has adds no node: re-inserting a prefix
   * only overwrites its marker.
   */
  lemma PresentPathAddsNothing<T>(f: Family, root: TrieNode<T>, nodes: map<seq<bool>, TrieNode<T>>,
                                  marks: map<seq<bool>, Entry<T>>, repr: set<TrieNode<T>>, path: seq<bool>)
    requires Shaped(f, root, nodes, marks, repr) && path in nodes
    ensures nodes.Keys + PathPrefixes(path, |path|) == nodes.Keys
  {
    forall q | q in PathPrefixes(path, |path|) ensures q in nodes {
      var j :| 0 <= j <= |path| && q == path[..j];
      PrefixClosed(f, root, nodes, marks, repr, path, j);
    }
  }

  /**
   * Walking a path of length at least one gives the root a child: the tree
   * then has a node besides the root.
   */
  lemma NonEmptyPathLeavesRoot(path: seq<bool>)
    requires |path| > 0
    ensures path[..1] in PathPrefixes(path, |path|) && path[..1] != []
  {
  }

  /**
   * The loop of InsertIpNet: from the root of a family's tree, follow path (the
   * first bits of ip) creating the missing nodes; the result is the node at the
   * path's end. The tree then holds exactly its old nodes and every prefix of
   * path, the old nodes in their old places, and the new ones are fresh.
   */
  method Walk<T>(ghost f: Family, root: TrieNode<T>, ghost nodes: map<seq<bool>, TrieNode<T>>,
                 ghost marks: map<seq<bool>, Entry<T>>, ghost repr: set<TrieNode<T>>,
                 ip: seq<Byte>, prefixLen: nat, ghost path: seq<bool>)
    returns (node: TrieNode<T>, ghost nodes': map<seq<bool>, TrieNode<T>>, ghost repr': set<TrieNode<T>>)
    requires Tree(f, root, nodes, marks, repr)
    requires prefixLen <= 8 * |ip| <= Width(f) && path == Bits(ip)[..prefixLen]
    modifies repr
    ensures Tree(f, root, nodes', marks, repr')
    ensures path in nodes' && node == nodes'[path] && node in repr'
    ensures nodes'.Keys == nodes.Keys + PathPrefixes(path, |path|)
    ensures forall q :: q in nodes ==> nodes'[q] == nodes[q]
    ensures repr <= repr' && fresh(repr' - repr)
  {
    nodes', repr' := nodes, repr;
    node := root;
    var i := 0;
    assert path[..0] == [] && Placed(f, nodes, repr, []);
    while i < prefixLen
      invariant 0 <= i <= prefixLen
      invariant Tree(f, root, nodes', marks, repr')
      invariant path[..i] in nodes' && node == nodes'[path[..i]] && node in repr' && node.family == f
      invariant nodes'.Keys == nodes.Keys + PathPrefixes(path, i)
      invariant forall q :: q in nodes ==> nodes'[q] == nodes[q]
      invariant repr <= repr' && fresh(repr' - repr)
    {
      var bit := Bit(ip, i);
      PathPrefixesStep(path, i);
      assert path[i] == Bits(ip)[i] == bit;
      TakeStep(path, i);
      node, repr' := Descend(f, root, nodes', marks, repr', node, bit, path[..i]);
      nodes' := nodes'[path[..i + 1] := node];
      assert Placed(f, nodes', repr', path[..i + 1]);
      i := i + 1;
    }
    assert path[..prefixLen] == path;
  }

  /**
   * The body of InsertIpNet once the family is known: walk path (the first
   * prefixLen bits of ip) from the root, creating missing nodes, and put e on
   * the node reached, replacing any marker there.
   */
  method InsertPath<T>(ghost f: Family, root: TrieNode<T>, ghost nodes: map<seq<bool>, TrieNode<T>>,
                       ghost marks: map<seq<bool>, Entry<T>>, ghost repr: set<TrieNode<T>>,
                       ip: seq<Byte>, prefixLen: nat, ghost path: seq<bool>, e: Entry<T>)
    returns (ghost nodes': map<seq<bool>, TrieNode<T>>, ghost repr': set<TrieNode<T>>)
    requires Tree(f, root, nodes, marks, repr)
    requires prefixLen <= 8 * |ip| <= Width(f) && path == Bits(ip)[..prefixLen]
    modifies repr
    ensures Tree(f, root, nodes', marks[path := e], repr')
    ensures nodes'.Keys == nodes.Keys + PathPrefixes(path, |path|)
    ensures forall q :: q in nodes ==> nodes'[q] == nodes[q]
    ensures repr <= repr' && fresh(repr' - repr)
  {
    var node;
    node, nodes', repr' := Walk(f, root, nodes, marks, repr, ip, prefixLen, path);
    assert Placed(f, nodes', repr', path);
    label Walked:
    node.marker := Some(e);
    forall r | r in nodes' ensures Placed(f, nodes', repr', r) && Wired(nodes', marks[path := e], r) {
      assert Placed(f, nodes', repr', r);
      assert old@Walked(Wired(nodes', marks, r));
    }
  }

  /**
   * The loop of SearchBest: walk the whole of ip from the root, stopping at the
   * first missing child, and keep the last marker met below the root, which is
   * the marker of the longest matching prefix.
   */
  method SearchBestFrom<T>(ghost f: Family, root: TrieNode<T>, ghost nodes: map<seq<bool>, TrieNode<T>>,
                           ghost marks: map<seq<bool>, Entry<T>>, ghost repr: set<TrieNode<T>>, ip: seq<Byte>)
    returns (r: Option<Entry<T>>)
    requires Tree(f, root, nodes, marks, repr)
    ensures r == Lpm.Longest(marks, Bits(ip))
  {
    ghost var bits := Bits(ip);
    var node: TrieNode?<T> := root;
    r := None;
    var maxBits := |ip| * 8;
    var i := 0;
    assert bits[..0] == [];
    while i < maxBits && node != null
      invariant 0 <= i <= maxBits == |bits|
      invariant node != null ==> bits[..i] in nodes && node == nodes[bits[..i]]
      invariant node == null ==> bits[..i] !in nodes
      invariant r == Lpm.MarkAt(marks, bits, Lpm.LongestDepth(marks, bits, i))
    {
      var bit := Bit(ip, i);
      ChildStep(f, root, nodes, marks, repr, bits[..i], bit);
      TakeStep(bits, i);
      node := node.Child(bit);
      if node != null {
        MarkerStep(f, root, nodes, marks, repr, bits[..i + 1]);
        if node.marker.Some? {
          r := node.marker;
        }
      }
      i := i + 1;
    }
    if node == null {
      NoMarkBeyond(f, root, nodes, marks, repr, bits, i);
      Lpm.LongestDepthUnmarked(marks, bits, i, |bits|);
    }
  }

  /**
   * The loop of SearchFast: the same walk, returning the first marker met below
   * the root, or nothing at the first missing child or at the end of ip.
   */
  method SearchFastFrom<T>(ghost f: Family, root: TrieNode<T>, ghost nodes: map<seq<bool>, TrieNode<T>>,
                           ghost marks: map<seq<bool>, Entry<T>>, ghost repr: set<TrieNode<T>>, ip: seq<Byte>)
    returns (r: Option<Entry<T>>)
    requires Tree(f, root, nodes, marks, repr)
    ensures r == Lpm.First(marks, Bits(ip))
  {
    ghost var bits := Bits(ip);
    var node := root;
    var maxBits := |ip| * 8;
    var i := 0;
    assert bits[..0] == [];
    while i < maxBits
      invariant 0 <= i <= maxBits == |bits|
      invariant bits[..i] in nodes && node == nodes[bits[..i]]
      invariant Lpm.FirstDepthFrom(marks, bits, 0, |bits|) == Lpm.FirstDepthFrom(marks, bits, i, |bits|)
    {
      var bit := Bit(ip, i);
      ChildStep(f, root, nodes, marks, repr, bits[..i], bit);
      TakeStep(bits, i);
      var next := node.Child(bit);
      if next == null {
        NoMarkBeyond(f, root, nodes, marks, repr, bits, i + 1);
        return None;
      }
      node := next;
      MarkerStep(f, root, nodes, marks, repr, bits[..i + 1]);
      if node.marker.Some? {
        return node.marker;
      }
      i := i + 1;
    }
    return None;
  }
}

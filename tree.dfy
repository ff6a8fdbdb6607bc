/**
 * The search-tree node: its state and parent never change after construction, while the
 * searches mark it visited and attach its children in place.
 */
module Tree {
  import opened Wrappers
  import opened Seqs
  import opened Grids

  class Node {
    const data: Grid
    const parent: Node?
    /** Absent until a search expands the node. */
    var children: Option<seq<Node>>
    var visited: bool
    /** The number of nodes above this one; it makes the parent chain well founded. */
    ghost const depth: nat

    /** The parent chain descends in depth and reaches a root. */
    ghost predicate Linked()
      decreases depth
    {
      if parent == null then depth == 0 else parent.depth + 1 == depth && parent.Linked()
    }

    /** A fresh node: unvisited, with no children yet, linked below its parent. */
    constructor (data: Grid, parent: Node?)
      requires parent != null ==> parent.Linked()
      ensures this.data == data && this.parent == parent
      ensures !visited && children == None
      ensures Linked() && depth == (if parent == null then 0 else parent.depth + 1)
    {
      this.data := data;
      this.parent := parent;
      this.depth := if parent == null then 0 else parent.depth + 1;
      visited := false;
      children := None;
    }

    /** The parent chain, nearest first, up to the root. */
    ghost function Ancestors(): (r: seq<Node>)
      requires Linked()
      ensures |r| == depth
      ensures forall k :: 0 <= k < |r| ==> r[k].Linked() && r[k].depth == depth - 1 - k
      decreases depth
    {
      if parent == null then [] else [parent] + parent.Ancestors()
    }

    /** The states on the parent chain, nearest first: what PossibleChildren filters out. */
    function AncestorStates(): (r: seq<Grid>)
      requires Linked()
      ensures |r| == depth
      ensures forall k :: 0 <= k < |r| ==> r[k] == Ancestors()[k].data
      decreases depth
    {
      if parent == null then [] else [parent.data] + parent.AncestorStates()
    }

    /** The source's ToString: the four cells of the top-left 2x2 block, each quoted. */
    function ToString(): (r: string)
      requires Height(data) >= 2 && Width(data) >= 2
      ensures |r| == 15
      ensures r[1] == data[0][0] && r[5] == data[0][1] && r[9] == data[1][0] && r[13] == data[1][1]
      ensures forall k :: 0 <= k < 15 && k % 4 == 3 ==> r[k] == ' '
      ensures forall k :: 0 <= k < 15 && k % 2 == 0 ==> r[k] == '\''
    {
      ['\'', data[0][0], '\'', ' ', '\'', data[0][1], '\'', ' ',
       '\'', data[1][0], '\'', ' ', '\'', data[1][1], '\'']
    }
  }

  /** No node is its own ancestor: the parent chain is acyclic and ends at a root. */
  lemma {:induction false} Acyclic(n: Node)
    requires n.Linked()
    ensures n !in n.Ancestors()
    ensures |n.Ancestors()| == 0 || n.Ancestors()[|n.Ancestors()| - 1].parent == null
    decreases n.depth
  {
    if n.parent != null {
      Acyclic(n.parent);
    }
  }

  /** Walking k steps up the chain leaves the chain of the node reached. */
  lemma {:induction false} AncestorsSuffix(n: Node, k: nat)
    requires n.Linked() && k < n.depth
    ensures n.Ancestors()[k].Linked()
    ensures n.Ancestors()[k + 1..] == n.Ancestors()[k].Ancestors()
    decreases k
  {
    if k > 0 {
      AncestorsSuffix(n.parent, k - 1);
      assert n.Ancestors()[k + 1..] == n.parent.Ancestors()[k..];
    }
  }

  /** The parent of the k-th ancestor is the next ancestor, or null past the last one. */
  lemma AncestorsParent(n: Node, k: nat)
    requires n.Linked() && k < n.depth
    ensures n.Ancestors()[k].parent == (if k + 1 < n.depth then n.Ancestors()[k + 1] else null)
  {
    AncestorsSuffix(n, k);
    var a := n.Ancestors()[k];
    if a.parent != null {
      assert a.Ancestors()[0] == a.parent;
    }
  }

  /** A child of n's k-th ancestor has the chain of n from that ancestor up. */
  lemma ChildOfAncestor(n: Node, k: nat, c: Node)
    requires n.Linked() && k < n.depth && c.Linked() && c.parent == n.Ancestors()[k]
    ensures c.Ancestors() == n.Ancestors()[k..]
  {
    AncestorsSuffix(n, k);
  }

  /** No state repeats on the chain from the root down to n. */
  ghost predicate Simple(n: Node)
    requires n.Linked()
    decreases n.depth
  {
    n.data !in n.AncestorStates() && (n.parent != null ==> Simple(n.parent))
  }

  /** On a simple chain the states of the node and of all its ancestors are pairwise different. */
  lemma {:induction false} SimpleDistinct(n: Node)
    requires n.Linked() && Simple(n)
    ensures Distinct([n.data] + n.AncestorStates())
    decreases n.depth
  {
    if n.parent != null {
      SimpleDistinct(n.parent);
      assert n.AncestorStates() == [n.parent.data] + n.parent.AncestorStates();
      var s := [n.data] + n.AncestorStates();
      forall i, j | 0 <= i < |s| && 0 <= j < |s| && i != j ensures s[i] != s[j] {
        if i == 0 {
          assert s[j] in n.AncestorStates();
        } else if j == 0 {
          assert s[i] in n.AncestorStates();
        } else {
          assert s[i] == n.AncestorStates()[i - 1] && s[j] == n.AncestorStates()[j - 1];
        }
      }
    }
  }

  /** Every ancestor of node is in T and has its children, all of them in T. */
  ghost predicate ChainExpanded(node: Node, T: set<Node>)
    reads T`children
    requires node.Linked()
  {
    forall k :: 0 <= k < node.depth ==>
      && node.Ancestors()[k] in T
      && node.Ancestors()[k].children.Some?
      && forall c :: c in node.Ancestors()[k].children.value ==> c in T
  }

  /** The chain of a node's parent is the node's chain past its first element. */
  lemma ParentChain(n: Node)
    requires n.Linked() && n.parent != null
    ensures n.Ancestors() == [n.parent] + n.parent.Ancestors() && n.Ancestors()[0] == n.parent
    ensures forall k :: 0 <= k < n.parent.depth ==> n.parent.Ancestors()[k] == n.Ancestors()[k + 1]
  {
  }

  /** Below an expanded chain the parent is expanded, in T, and has an expanded chain. */
  lemma ChainExpandedParent(n: Node, T: set<Node>)
    requires n.Linked() && n.parent != null && ChainExpanded(n, T)
    ensures n.parent in T && n.parent.children.Some? && ChainExpanded(n.parent, T)
    ensures forall c :: c in n.parent.children.value ==> c in T
  {
    ParentChain(n);
    assert n.Ancestors()[0] == n.parent;
  }

  /**
   * When the parent's children are all visited, the chain of the node adds nothing to the
   * parent's: it is expanded exactly when the parent's is, and all visited exactly when the
   * parent's is.
   */
  lemma ChainShift(n: Node)
    requires n.Linked() && n.parent != null && n.parent.children.Some?
    requires AllVisited(n.parent.children.value)
    requires forall k :: 0 <= k < n.parent.depth ==> n.parent.Ancestors()[k].children.Some?
    ensures forall k :: 0 <= k < n.depth ==> n.Ancestors()[k].children.Some?
    ensures (forall k :: 0 <= k < n.parent.depth ==> AllVisited(n.parent.Ancestors()[k].children.value))
            <==> (forall k :: 0 <= k < n.depth ==> AllVisited(n.Ancestors()[k].children.value))
  {
    ParentChain(n);
    var A, P := n.Ancestors(), n.parent.Ancestors();
    forall k | 0 < k < n.depth
      ensures A[k] == P[k - 1]
    {
    }
    if forall k :: 0 <= k < n.parent.depth ==> AllVisited(P[k].children.value) {
      forall k | 0 <= k < n.depth
        ensures AllVisited(A[k].children.value)
      {
        if k > 0 {
          assert A[k] == P[k - 1];
        }
      }
    }
    if forall k :: 0 <= k < n.depth ==> AllVisited(A[k].children.value) {
      forall k | 0 <= k < n.parent.depth
        ensures AllVisited(P[k].children.value)
      {
        assert A[k + 1] == P[k];
      }
    }
  }

  /** The k-th ancestor of the parent is the (k + 1)-th of the node, and the visits below it agree. */
  lemma ChainShiftAt(n: Node, k: nat)
    requires n.Linked() && n.parent != null && n.parent.children.Some?
    requires AllVisited(n.parent.children.value) && k < n.parent.depth
    requires forall j :: 0 <= j < k ==> n.parent.Ancestors()[j].children.Some?
    requires forall j :: 0 <= j < k ==> AllVisited(n.parent.Ancestors()[j].children.value)
    ensures k + 1 < n.depth && n.Ancestors()[k + 1] == n.parent.Ancestors()[k]
    ensures forall j :: 0 <= j < k + 1 ==> n.Ancestors()[j].children.Some? && AllVisited(n.Ancestors()[j].children.value)
  {
    ParentChain(n);
    var A, P := n.Ancestors(), n.parent.Ancestors();
    forall j | 0 <= j < k + 1
      ensures A[j].children.Some? && AllVisited(A[j].children.value)
    {
      if j > 0 {
        assert A[j] == P[j - 1];
      }
    }
  }

  /** A node whose chain is a suffix of an expanded chain has an expanded chain. */
  lemma ChainExpandedSuffix(n: Node, k: nat, c: Node, T: set<Node>)
    requires n.Linked() && ChainExpanded(n, T) && k < n.depth
    requires c.Linked() && c.Ancestors() == n.Ancestors()[k..]
    ensures ChainExpanded(c, T)
  {
    forall j | 0 <= j < c.depth
      ensures c.Ancestors()[j] == n.Ancestors()[k + j]
    {
    }
  }

  /** The states of a sequence of nodes, in order. */
  function States(cs: seq<Node>): (r: seq<Grid>)
    ensures |r| == |cs| && forall i :: 0 <= i < |cs| ==> r[i] == cs[i].data
  {
    seq(|cs|, i requires 0 <= i < |cs| => cs[i].data)
  }

  /** The states of a concatenation are the concatenated states. */
  lemma StatesConcat(a: seq<Node>, b: seq<Node>)
    ensures States(a + b) == States(a) + States(b)
  {
  }

  /** Every node of cs has been visited. */
  predicate AllVisited(cs: seq<Node>)
    reads cs`visited
  {
    forall i :: 0 <= i < |cs| ==> cs[i].visited
  }

  /** The first unvisited node of cs, or null when all are visited. */
  function FirstUnvisited(cs: seq<Node>): (r: Node?)
    reads cs`visited
    ensures r == null <==> AllVisited(cs)
    ensures r != null ==> exists i :: 0 <= i < |cs| && r == cs[i] && !r.visited
                                      && forall j :: 0 <= j < i ==> cs[j].visited
  {
    if |cs| == 0 then null
    else if !cs[0].visited then cs[0]
    else
      var r := FirstUnvisited(cs[1..]);
      assert r != null ==> exists i :: 0 <= i < |cs[1..]| && r == cs[1..][i] && !r.visited
                                      && forall j :: 0 <= j < i ==> cs[1..][j].visited;
      r
  }

  /** The Select of new Node(i, parent) over the children's states: fresh unvisited leaves. */
  method NewChildren(datas: seq<Grid>, parent: Node) returns (cs: seq<Node>)
    requires parent.Linked()
    ensures States(cs) == datas
    ensures forall i :: 0 <= i < |cs| ==> fresh(cs[i])
    ensures forall i :: 0 <= i < |cs| ==>
              cs[i].parent == parent && cs[i].Linked() && !cs[i].visited && cs[i].children == None
  {
    cs := [];
    for k := 0 to |datas|
      invariant |cs| == k && forall i :: 0 <= i < k ==> cs[i].data == datas[i]
      invariant forall i :: 0 <= i < k ==> fresh(cs[i])
      invariant forall i :: 0 <= i < k ==>
                  cs[i].parent == parent && cs[i].Linked() && !cs[i].visited && cs[i].children == None
    {
      var child := new Node(datas[k], parent);
      cs := cs + [child];
    }
    assert States(cs) == datas;
  }
}

/** The structural layer of elfi/graph.py: a directed acyclic graph of named
    nodes with ordered, mirrored parent and child lists, and the registry that
    maps node names to nodes.

    Python `Node` objects refer to each other directly. Here the nodes live in
    an arena: a node is its index (`NodeId`) into the per-node sequences
    `name`, `parents` and `children` of one `Graph` object, and the methods of
    Python's `Node` become methods of `Graph` that take the node (`self` in
    the source) as their first argument `v`. The ghost `level` ranks every
    node strictly above its parents; it is the proof that the structure has
    no cycle and the measure on which the recursive traversals terminate. */
module Graph {
  import opened Base

  type NodeId = nat

  /** The exceptions graph.py raises. */
  datatype GraphError =
    | CycleError        // ValueError "Cannot have cyclic graph structure."
    | IndexOutOfBounds  // ValueError "Index out of bounds."
    | ParentNotFound    // Exception "Could not find a parent"
    | ListIndexError    // IndexError from `self.parents[index]`
    | NodeNotFound      // IndexError "Node with name ... not found"

  /** The argument of `remove_parent`: a parent node or a list index. */
  datatype ParentRef = ByNode(node: NodeId) | ByIndex(index: int)

  /** Adjacency lists are duplicate-free, refer to existing nodes, and mirror
      each other: `p` is a parent of `v` exactly when `v` is a child of `p`. */
  ghost predicate WellFormed(pa: seq<seq<NodeId>>, ch: seq<seq<NodeId>>) {
    && |pa| == |ch|
    && (forall v :: 0 <= v < |pa| ==> NoDup(pa[v]) && NoDup(ch[v]))
    && (forall v, p {:trigger p in pa[v]} :: 0 <= v < |pa| && p in pa[v] ==> p < |ch| && v in ch[p])
    && (forall v, c {:trigger c in ch[v]} :: 0 <= v < |ch| && c in ch[v] ==> c < |pa| && v in pa[c])
  }

  /** Every child sits strictly above its parent, and every level is below `bound`. */
  ghost predicate Ranked(ch: seq<seq<NodeId>>, level: seq<nat>, bound: nat) {
    && |level| == |ch|
    && (forall v :: 0 <= v < |ch| ==> level[v] < bound)
    && (forall v, c {:trigger c in ch[v]} :: 0 <= v < |ch| && c in ch[v] ==> c < |ch| && level[v] < level[c])
  }

  /** Every parent sits strictly below its child. */
  ghost predicate RankedUp(pa: seq<seq<NodeId>>, level: seq<nat>) {
    && |level| == |pa|
    && (forall v, p {:trigger p in pa[v]} :: 0 <= v < |pa| && p in pa[v] ==> p < |pa| && level[p] < level[v])
  }

  /** The nodes reachable from `v` along child edges, `v` itself excluded:
      the contents of the `descendants` property. */
  ghost function Desc(ch: seq<seq<NodeId>>, level: seq<nat>, bound: nat, v: NodeId): set<NodeId>
    requires Ranked(ch, level, bound) && v < |ch|
    decreases bound - level[v], 1
  {
    DescUpTo(ch, level, bound, v, |ch[v]|)
  }

  /** The first `k` children of `v` and everything reachable below them. */
  ghost function DescUpTo(ch: seq<seq<NodeId>>, level: seq<nat>, bound: nat, v: NodeId, k: nat): set<NodeId>
    requires Ranked(ch, level, bound) && v < |ch| && k <= |ch[v]|
    decreases bound - level[v], 0, k
  {
    if k == 0 then {}
    else
      var c := ch[v][k - 1];
      assert c in ch[v];
      DescUpTo(ch, level, bound, v, k - 1) + {c} + Desc(ch, level, bound, c)
  }

  /** The number of child-edge paths from `v` to `u`, the empty path
      included: how often a propagating `reset` of `v` reaches `u`. */
  ghost function Paths(ch: seq<seq<NodeId>>, level: seq<nat>, bound: nat, v: NodeId, u: NodeId): nat
    requires Ranked(ch, level, bound) && v < |ch|
    decreases bound - level[v], 1
  {
    (if u == v then 1 else 0) + PathsUpTo(ch, level, bound, v, u, |ch[v]|)
  }

  /** The paths from `v` to `u` through the first `k` children of `v`. */
  ghost function PathsUpTo(ch: seq<seq<NodeId>>, level: seq<nat>, bound: nat, v: NodeId, u: NodeId, k: nat): nat
    requires Ranked(ch, level, bound) && v < |ch| && k <= |ch[v]|
    decreases bound - level[v], 0, k
  {
    if k == 0 then 0
    else
      var c := ch[v][k - 1];
      assert c in ch[v];
      PathsUpTo(ch, level, bound, v, u, k - 1) + Paths(ch, level, bound, c, u)
  }

  /** There is a path from `v` to `u` exactly when `u` is `v` or one of its
      descendants. */
  lemma {:induction false} PathsPositive(ch: seq<seq<NodeId>>, level: seq<nat>, bound: nat, v: NodeId, u: NodeId)
    requires Ranked(ch, level, bound) && v < |ch|
    ensures Paths(ch, level, bound, v, u) > 0 <==> u == v || u in Desc(ch, level, bound, v)
    decreases bound - level[v], 1
  {
    PathsUpToPositive(ch, level, bound, v, u, |ch[v]|);
  }

  lemma {:induction false} PathsUpToPositive(ch: seq<seq<NodeId>>, level: seq<nat>, bound: nat, v: NodeId, u: NodeId, k: nat)
    requires Ranked(ch, level, bound) && v < |ch| && k <= |ch[v]|
    ensures PathsUpTo(ch, level, bound, v, u, k) > 0 <==> u in DescUpTo(ch, level, bound, v, k)
    decreases bound - level[v], 0, k
  {
    if k > 0 {
      var c := ch[v][k - 1];
      assert c in ch[v];
      PathsUpToPositive(ch, level, bound, v, u, k - 1);
      PathsPositive(ch, level, bound, c, u);
    }
  }

  /** The nodes reachable from `v` along parent edges: the `ancestors` property. */
  ghost function Anc(pa: seq<seq<NodeId>>, level: seq<nat>, v: NodeId): set<NodeId>
    requires RankedUp(pa, level) && v < |pa|
    decreases level[v], 1
  {
    AncUpTo(pa, level, v, |pa[v]|)
  }

  /** The first `k` parents of `v` and everything reachable above them. */
  ghost function AncUpTo(pa: seq<seq<NodeId>>, level: seq<nat>, v: NodeId, k: nat): set<NodeId>
    requires RankedUp(pa, level) && v < |pa| && k <= |pa[v]|
    decreases level[v], 0, k
  {
    if k == 0 then {}
    else
      var p := pa[v][k - 1];
      assert p in pa[v];
      AncUpTo(pa, level, v, k - 1) + {p} + Anc(pa, level, p)
  }

  /** Everything below a child is below its parent. */
  lemma {:induction false} DescUpToIntro(ch: seq<seq<NodeId>>, level: seq<nat>, bound: nat, v: NodeId, k: nat, j: nat, u: NodeId)
    requires Ranked(ch, level, bound) && v < |ch| && j < k <= |ch[v]|
    requires ch[v][j] < |ch| && (u == ch[v][j] || u in Desc(ch, level, bound, ch[v][j]))
    ensures u in DescUpTo(ch, level, bound, v, k)
    decreases k
  {
    if j < k - 1 {
      DescUpToIntro(ch, level, bound, v, k - 1, j, u);
    }
  }

  /** Everything below `v` is a child of `v` or below one. */
  lemma {:induction false} DescUpToElim(ch: seq<seq<NodeId>>, level: seq<nat>, bound: nat, v: NodeId, k: nat, u: NodeId)
      returns (j: nat)
    requires Ranked(ch, level, bound) && v < |ch| && k <= |ch[v]|
    requires u in DescUpTo(ch, level, bound, v, k)
    ensures j < k && ch[v][j] in ch[v] && ch[v][j] < |ch|
    ensures u == ch[v][j] || u in Desc(ch, level, bound, ch[v][j])
    decreases k
  {
    assert ch[v][k - 1] in ch[v];
    if u in DescUpTo(ch, level, bound, v, k - 1) {
      j := DescUpToElim(ch, level, bound, v, k - 1, u);
    } else {
      j := k - 1;
    }
  }

  lemma {:induction false} AncUpToIntro(pa: seq<seq<NodeId>>, level: seq<nat>, v: NodeId, k: nat, j: nat, u: NodeId)
    requires RankedUp(pa, level) && v < |pa| && j < k <= |pa[v]|
    requires pa[v][j] < |pa| && (u == pa[v][j] || u in Anc(pa, level, pa[v][j]))
    ensures u in AncUpTo(pa, level, v, k)
    decreases k
  {
    if j < k - 1 {
      AncUpToIntro(pa, level, v, k - 1, j, u);
    }
  }

  lemma {:induction false} AncUpToElim(pa: seq<seq<NodeId>>, level: seq<nat>, v: NodeId, k: nat, u: NodeId)
      returns (j: nat)
    requires RankedUp(pa, level) && v < |pa| && k <= |pa[v]|
    requires u in AncUpTo(pa, level, v, k)
    ensures j < k && pa[v][j] in pa[v] && pa[v][j] < |pa|
    ensures u == pa[v][j] || u in Anc(pa, level, pa[v][j])
    decreases k
  {
    assert pa[v][k - 1] in pa[v];
    if u in AncUpTo(pa, level, v, k - 1) {
      j := AncUpToElim(pa, level, v, k - 1, u);
    } else {
      j := k - 1;
    }
  }

  lemma {:induction false} DescAbove(ch: seq<seq<NodeId>>, level: seq<nat>, bound: nat, v: NodeId, u: NodeId)
    requires Ranked(ch, level, bound) && v < |ch| && u in Desc(ch, level, bound, v)
    ensures u < |ch| && level[v] < level[u]
    decreases bound - level[v]
  {
    var j := DescUpToElim(ch, level, bound, v, |ch[v]|, u);
    var c := ch[v][j];
    if u != c {
      DescAbove(ch, level, bound, c, u);
    }
  }

  lemma {:induction false} AncBelow(pa: seq<seq<NodeId>>, level: seq<nat>, v: NodeId, u: NodeId)
    requires RankedUp(pa, level) && v < |pa| && u in Anc(pa, level, v)
    ensures u < |pa| && level[u] < level[v]
    decreases level[v]
  {
    var j := AncUpToElim(pa, level, v, |pa[v]|, u);
    var p := pa[v][j];
    if u != p {
      AncBelow(pa, level, p, u);
    }
  }

  lemma ChildIsDescendant(ch: seq<seq<NodeId>>, level: seq<nat>, bound: nat, v: NodeId, c: NodeId)
    requires Ranked(ch, level, bound) && v < |ch| && c in ch[v]
    ensures c < |ch| && c in Desc(ch, level, bound, v) && level[v] < level[c]
  {
    DescUpToIntro(ch, level, bound, v, |ch[v]|, IndexOf(ch[v], c), c);
  }

  lemma ParentIsAncestor(pa: seq<seq<NodeId>>, level: seq<nat>, v: NodeId, p: NodeId)
    requires RankedUp(pa, level) && v < |pa| && p in pa[v]
    ensures p < |pa| && p in Anc(pa, level, v) && level[p] < level[v]
  {
    AncUpToIntro(pa, level, v, |pa[v]|, IndexOf(pa[v], p), p);
  }

  /** A child of a node reachable from `v` (or of `v`) is reachable from `v`. */
  lemma {:induction false} DescClosed(ch: seq<seq<NodeId>>, level: seq<nat>, bound: nat, v: NodeId, x: NodeId, y: NodeId)
    requires Ranked(ch, level, bound) && v < |ch|
    requires x == v || x in Desc(ch, level, bound, v)
    requires x < |ch| && y in ch[x]
    ensures y in Desc(ch, level, bound, v)
    decreases bound - level[v]
  {
    if x == v {
      ChildIsDescendant(ch, level, bound, v, y);
    } else {
      var j := DescUpToElim(ch, level, bound, v, |ch[v]|, x);
      var c := ch[v][j];
      DescClosed(ch, level, bound, c, x, y);
      DescUpToIntro(ch, level, bound, v, |ch[v]|, j, y);
    }
  }

  /** Adding the edge p -> v keeps the graph acyclic exactly when `p` is neither
      `v` nor reachable from `v`: the descendants of `v` (and `v`) are lifted
      above `p`, which yields a ranking of the new adjacency. */
  lemma AddEdgeRanked(pa: seq<seq<NodeId>>, ch: seq<seq<NodeId>>, level: seq<nat>, bound: nat,
                      pa': seq<seq<NodeId>>, ch': seq<seq<NodeId>>, v: NodeId, p: NodeId)
      returns (level': seq<nat>, bound': nat)
    requires WellFormed(pa, ch) && Ranked(ch, level, bound)
    requires v < |ch| && p < |ch| && p != v && p !in Desc(ch, level, bound, v)
    requires |pa'| == |pa| && |ch'| == |ch|
    requires forall u, c :: 0 <= u < |ch| ==> (c in ch'[u] <==> c in ch[u] || (u == p && c == v))
    requires forall u, q :: 0 <= u < |pa| ==> (q in pa'[u] <==> q in pa[u] || (u == v && q == p))
    ensures Ranked(ch', level', bound') && RankedUp(pa', level')
  {
    var D := {v} + Desc(ch, level, bound, v);
    var K := if level[p] + 1 > level[v] then level[p] + 1 - level[v] else 0;
    level' := seq(|level|, u requires 0 <= u < |level| => if u in D then level[u] + K else level[u]);
    bound' := bound + K;
    forall u, c | 0 <= u < |ch| && c in ch'[u]
      ensures c < |ch| && level'[u] < level'[c]
    {
      if u == p && c == v {
        assert p !in D;
      } else {
        assert c in ch[u];
        if u in D {
          DescClosed(ch, level, bound, v, u, c);
        }
      }
    }
    forall u, q | 0 <= u < |pa| && q in pa'[u]
      ensures q < |pa| && level'[q] < level'[u]
    {
      if !(u == v && q == p) {
        assert u in ch'[q];
      } else {
        assert u in ch'[q];
      }
    }
  }

  /** Removing edges never breaks a ranking. */
  lemma DropEdgesRanked(pa: seq<seq<NodeId>>, ch: seq<seq<NodeId>>, level: seq<nat>, bound: nat,
                        pa': seq<seq<NodeId>>, ch': seq<seq<NodeId>>)
    requires Ranked(ch, level, bound) && RankedUp(pa, level)
    requires |pa'| == |pa| && |ch'| == |ch|
    requires forall u, c :: 0 <= u < |ch| && c in ch'[u] ==> c in ch[u]
    requires forall u, q :: 0 <= u < |pa| && q in pa'[u] ==> q in pa[u]
    ensures Ranked(ch', level, bound) && RankedUp(pa', level)
  {
  }

  /** `s` with every occurrence of `x` left out. */
  function Without(s: seq<NodeId>, x: NodeId): (r: seq<NodeId>)
    ensures forall y :: y in r <==> y in s && y != x
    ensures x !in s ==> r == s
  {
    if s == [] then [] else (if s[0] == x then [] else [s[0]]) + Without(s[1..], x)
  }

  /** Removing the first `x` from a list that does not start with it keeps
      the head. */
  lemma RemoveFirstCons(s: seq<NodeId>, x: NodeId)
    requires x in s && s[0] != x
    ensures x in s[1..] && RemoveFirst(s, x) == [s[0]] + RemoveFirst(s[1..], x)
  {
    var t := s[1..];
    assert x in t;
    var i := IndexOf(t, x);
    assert IndexOf(s, x) == i + 1;
    assert s[..i + 1] == [s[0]] + t[..i];
    assert s[i + 2..] == t[i + 1..];
  }

  lemma {:induction false} RemoveFirstIsWithout(s: seq<NodeId>, x: NodeId)
    requires x in s && NoDup(s)
    ensures RemoveFirst(s, x) == Without(s, x)
  {
    if s[0] == x {
      assert x !in s[1..];
      assert Without(s, x) == s[1..];
      assert RemoveFirst(s, x) == s[1..];
    } else {
      var t := s[1..];
      RemoveFirstCons(s, x);
      assert NoDup(t);
      RemoveFirstIsWithout(t, x);
      assert Without(s, x) == [s[0]] + Without(t, x);
    }
  }


  /** `k` copies of the suffix "_old". */
  function Olds(k: nat): string {
    if k == 0 then "" else Olds(k - 1) + "_old"
  }

  /** Appending "_old" to a key strictly shrinks the set of keys at least as
      long as the candidate: the termination argument of the `add_node` loop. */
  ghost predicate OldsShrink(keys: set<string>, s: string) {
    (set k | k in keys && |k| >= |s + "_old"|) < (set k | k in keys && |k| >= |s|)
  }

  lemma OldsShrinkHolds(keys: set<string>, s: string)
    requires s in keys
    ensures OldsShrink(keys, s)
  {
    var small := set k | k in keys && |k| >= |s + "_old"|;
    var large := set k | k in keys && |k| >= |s|;
    assert small <= large;
    assert s in large && s !in small;
  }

  /** The loop of `add_node`: append "_old" to `s` until it is not a key. */
  function FreshFrom(keys: set<string>, s: string): (r: string)
    ensures r !in keys
    ensures |r| >= |s| && r[..|s|] == s
    decreases set k | k in keys && |k| >= |s|
  {
    if s !in keys then s
    else
      OldsShrinkHolds(keys, s);
      FreshFrom(keys, s + "_old")
  }

  /** The name `add_node` gives a displaced node is not a key, and is `s`
      with one or more "_old" appended whenever `s` itself is a key. */
  lemma {:induction false} FreshFromFacts(keys: set<string>, s: string)
    ensures FreshFrom(keys, s) !in keys
    ensures exists k: nat :: FreshFrom(keys, s) == s + Olds(k) && (s in keys ==> k >= 1)
    decreases set k | k in keys && |k| >= |s|
  {
    if s !in keys {
      assert s == s + Olds(0);
    } else {
      OldsShrinkHolds(keys, s);
      FreshFromFacts(keys, s + "_old");
      var k: nat :| FreshFrom(keys, s + "_old") == s + "_old" + Olds(k);
      OldsShift(k);
      assert FreshFrom(keys, s) == s + Olds(k + 1);
    }
  }

  lemma {:induction false} OldsShift(k: nat)
    ensures "_old" + Olds(k) == Olds(k + 1)
  {
    if k > 0 {
      OldsShift(k - 1);
    }
  }

  /** add_parent as graph.py:102-124 writes it, on plain adjacency values.
      `isDescendant` is the outcome of `node in self.descendants`. The result
      is the new parents lists, the new children lists and the raised error. */
  function AddParentAsWritten(pa: seq<seq<NodeId>>, ch: seq<seq<NodeId>>, v: NodeId, p: NodeId,
                              index: Option<int>, indexChild: Option<int>, isDescendant: bool)
    : (r: (seq<seq<NodeId>>, seq<seq<NodeId>>, Option<GraphError>))
    requires |pa| == |ch| && v < |pa| && p < |ch|
    ensures |r.0| == |pa| && |r.1| == |ch|
    ensures isDescendant ==> r == (pa, ch, Some(CycleError))
  {
    if isDescendant then (pa, ch, Some(CycleError))
    else
      var step1: (seq<seq<NodeId>>, Option<GraphError>) :=
        if p in pa[v] then (pa, None)
        else
          var i := index.GetOr(|pa[v]|);
          if i < 0 || i > |pa[v]| then (pa, Some(IndexOutOfBounds))
          else (pa[v := InsertAt(pa[v], i, p)], None);
      if step1.1.Some? then (step1.0, ch, step1.1)
      else if v in ch[p] then (step1.0, ch, None)
      else
        var j := indexChild.GetOr(|ch[p]|);
        if j < 0 || j > |ch[p]| then (step1.0, ch, Some(IndexOutOfBounds))
        else (step1.0, ch[p := InsertAt(ch[p], j, v)], None)
  }

  /** Finding: a node may be added as its own parent. A single node has no
      descendants, so the cycle check passes and the edge 0 -> 0 is inserted;
      afterwards no ranking exists, i.e. the graph has a cycle. */
  lemma SelfParentAccepted()
    ensures Ranked([[]], [0], 1) && Desc([[]], [0], 1, 0) == {}
    ensures var r := AddParentAsWritten([[]], [[]], 0, 0, None, None, 0 in Desc([[]], [0], 1, 0));
            && r.2 == None && r.0 == [[0]] && r.1 == [[0]]
            && forall level: seq<nat>, bound: nat :: !Ranked(r.1, level, bound)
  {
    var ch: seq<seq<NodeId>> := [[]];
    assert Ranked(ch, [0], 1);
    assert Desc(ch, [0], 1, 0) == {};
    assert InsertAt([], 0, 0) == [0];
    forall level: seq<nat>, bound: nat ensures !Ranked([[0]], level, bound) {
      assert 0 in [[0]][0];
    }
  }

  /** Finding: an out-of-range `index_child` is only checked after `self`'s
      parents list has been changed, so the error leaves `p` among the parents
      of `v` while `v` is not among the children of `p`. */
  lemma BadChildIndexLeavesHalfEdge()
    ensures var r := AddParentAsWritten([[], []], [[], []], 0, 1, None, Some(5), false);
            && r.2 == Some(IndexOutOfBounds) && r.0 == [[1], []] && r.1 == [[], []]
            && !WellFormed(r.0, r.1)
  {
    var r := AddParentAsWritten([[], []], [[], []], 0, 1, None, Some(5), false);
    assert InsertAt([], 0, 1) == [1];
    assert 1 in r.0[0];
  }

  /** Reachability below `x` depends only on the child lists of `x` and of
      the nodes below it, not on the ranking used to define it. */
  lemma {:induction false} DescSame(ch: seq<seq<NodeId>>, l1: seq<nat>, b1: nat,
                                    ch': seq<seq<NodeId>>, l2: seq<nat>, b2: nat, x: NodeId)
    requires Ranked(ch, l1, b1) && Ranked(ch', l2, b2) && |ch'| == |ch| && x < |ch|
    requires ch'[x] == ch[x]
    requires forall y :: y in Desc(ch, l1, b1, x) && y < |ch| ==> ch'[y] == ch[y]
    ensures Desc(ch', l2, b2, x) == Desc(ch, l1, b1, x)
    decreases b1 - l1[x], 1
  {
    DescUpToSame(ch, l1, b1, ch', l2, b2, x, |ch[x]|);
  }

  lemma {:induction false} DescUpToSame(ch: seq<seq<NodeId>>, l1: seq<nat>, b1: nat,
                                        ch': seq<seq<NodeId>>, l2: seq<nat>, b2: nat, x: NodeId, k: nat)
    requires Ranked(ch, l1, b1) && Ranked(ch', l2, b2) && |ch'| == |ch| && x < |ch|
    requires ch'[x] == ch[x] && k <= |ch[x]|
    requires forall y :: y in Desc(ch, l1, b1, x) && y < |ch| ==> ch'[y] == ch[y]
    ensures DescUpTo(ch', l2, b2, x, k) == DescUpTo(ch, l1, b1, x, k)
    decreases b1 - l1[x], 0, k
  {
    if k > 0 {
      DescUpToSame(ch, l1, b1, ch', l2, b2, x, k - 1);
      var c := ch[x][k - 1];
      ChildIsDescendant(ch, l1, b1, x, c);
      forall y | y in Desc(ch, l1, b1, c) ensures y in Desc(ch, l1, b1, x) {
        DescUpToIntro(ch, l1, b1, x, |ch[x]|, k - 1, y);
      }
      DescSame(ch, l1, b1, ch', l2, b2, c);
    }
  }

  /** Likewise the paths from `x` to any node depend only on the child
      lists of `x` and of the nodes below it. */
  lemma {:induction false} PathsSame(ch: seq<seq<NodeId>>, l1: seq<nat>, b1: nat,
                                     ch': seq<seq<NodeId>>, l2: seq<nat>, b2: nat, x: NodeId, u: NodeId)
    requires Ranked(ch, l1, b1) && Ranked(ch', l2, b2) && |ch'| == |ch| && x < |ch|
    requires ch'[x] == ch[x]
    requires forall y :: y in Desc(ch, l1, b1, x) && y < |ch| ==> ch'[y] == ch[y]
    ensures Paths(ch', l2, b2, x, u) == Paths(ch, l1, b1, x, u)
    decreases b1 - l1[x], 1
  {
    PathsUpToSame(ch, l1, b1, ch', l2, b2, x, u, |ch[x]|);
  }

  lemma {:induction false} PathsUpToSame(ch: seq<seq<NodeId>>, l1: seq<nat>, b1: nat,
                                         ch': seq<seq<NodeId>>, l2: seq<nat>, b2: nat, x: NodeId, u: NodeId, k: nat)
    requires Ranked(ch, l1, b1) && Ranked(ch', l2, b2) && |ch'| == |ch| && x < |ch|
    requires ch'[x] == ch[x] && k <= |ch[x]|
    requires forall y :: y in Desc(ch, l1, b1, x) && y < |ch| ==> ch'[y] == ch[y]
    ensures PathsUpTo(ch', l2, b2, x, u, k) == PathsUpTo(ch, l1, b1, x, u, k)
    decreases b1 - l1[x], 0, k
  {
    if k > 0 {
      PathsUpToSame(ch, l1, b1, ch', l2, b2, x, u, k - 1);
      var c := ch[x][k - 1];
      ChildIsDescendant(ch, l1, b1, x, c);
      forall y | y in Desc(ch, l1, b1, c) ensures y in Desc(ch, l1, b1, x) {
        DescUpToIntro(ch, l1, b1, x, |ch[x]|, k - 1, y);
      }
      PathsSame(ch, l1, b1, ch', l2, b2, c, u);
    }
  }

  /** Neither `v` nor `x` is `c` or lies below `c`: what holds of every
      child that `change_to` has moved from `v` to `x`. */
  ghost predicate Apart(ch: seq<seq<NodeId>>, level: seq<nat>, bound: nat, v: NodeId, x: NodeId, c: NodeId) {
    && Ranked(ch, level, bound) && c < |ch| && c != v && c != x
    && v !in Desc(ch, level, bound, c) && x !in Desc(ch, level, bound, c)
  }

  /** Changing the child lists of `v` and `x` only leaves what lies below a
      node apart from both as it was, and every path from it. */
  lemma ApartKept(ch: seq<seq<NodeId>>, l1: seq<nat>, b1: nat, ch': seq<seq<NodeId>>, l2: seq<nat>, b2: nat,
                  v: NodeId, x: NodeId, c: NodeId)
    requires Apart(ch, l1, b1, v, x, c) && Ranked(ch', l2, b2) && |ch'| == |ch|
    requires forall w :: 0 <= w < |ch| && w != v && w != x ==> ch'[w] == ch[w]
    ensures Desc(ch', l2, b2, c) == Desc(ch, l1, b1, c) && Apart(ch', l2, b2, v, x, c)
    ensures forall u :: Paths(ch', l2, b2, c, u) == Paths(ch, l1, b1, c, u)
  {
    DescSame(ch, l1, b1, ch', l2, b2, c);
    forall u ensures Paths(ch', l2, b2, c, u) == Paths(ch, l1, b1, c, u) {
      PathsSame(ch, l1, b1, ch', l2, b2, c, u);
    }
  }

  /** Dropping the edge p -> c leaves what lies below `c` as it was; `p`
      itself never lies below its child. */
  lemma DropEdgeKeepsDesc(ch: seq<seq<NodeId>>, ch': seq<seq<NodeId>>, level: seq<nat>, bound: nat, p: NodeId, c: NodeId)
    requires Ranked(ch, level, bound) && Ranked(ch', level, bound) && |ch'| == |ch| && p < |ch| && c in ch[p]
    requires forall w :: 0 <= w < |ch| && w != p ==> ch'[w] == ch[w]
    ensures c < |ch| && c != p && p !in Desc(ch, level, bound, c)
    ensures Desc(ch', level, bound, c) == Desc(ch, level, bound, c)
  {
    ChildIsDescendant(ch, level, bound, p, c);
    forall y | y in Desc(ch, level, bound, c) ensures y != p {
      DescAbove(ch, level, bound, c, y);
    }
    DescSame(ch, level, bound, ch', level, bound, c);
  }

  /** Inserting the mirrored edge p -> v into well-formed lists keeps them
      well formed. */
  lemma AddEdgeWellFormed(pa: seq<seq<NodeId>>, ch: seq<seq<NodeId>>, v: NodeId, p: NodeId, i: nat, j: nat)
    requires WellFormed(pa, ch) && v < |pa| && p < |ch| && p !in pa[v]
    requires i <= |pa[v]| && j <= |ch[p]|
    ensures WellFormed(pa[v := InsertAt(pa[v], i, p)], ch[p := InsertAt(ch[p], j, v)])
  {
    assert v !in ch[p];
    InsertAtNoDup(pa[v], i, p);
    InsertAtNoDup(ch[p], j, v);
  }

  /** add_parent with the two defects of graph.py corrected: a node is never
      its own parent, and both positions are checked before anything changes.
      `cyclic` is the outcome of `node in self.descendants`; the result is the
      new parents lists, the new children lists and the raised error. */
  function AddParentFixed(pa: seq<seq<NodeId>>, ch: seq<seq<NodeId>>, v: NodeId, p: NodeId,
                          index: Option<int>, indexChild: Option<int>, cyclic: bool)
    : (r: (seq<seq<NodeId>>, seq<seq<NodeId>>, Option<GraphError>))
    requires WellFormed(pa, ch) && v < |pa| && p < |ch|
    ensures |r.0| == |pa| && |r.1| == |ch|
    ensures r.2 == Some(CycleError) <==> cyclic || p == v
    ensures r.2.Some? ==> r.0 == pa && r.1 == ch
    ensures r.2.None? ==> WellFormed(r.0, r.1) && p in r.0[v] && v in r.1[p]
    ensures var i := index.GetOr(|pa[v]|); var j := indexChild.GetOr(|ch[p]|);
      r.2 == Some(IndexOutOfBounds) <==>
        !cyclic && p != v && p !in pa[v] && (i < 0 || i > |pa[v]| || j < 0 || j > |ch[p]|)
    ensures !cyclic && p != v && p in pa[v] ==> r == (pa, ch, None)
    ensures var i := index.GetOr(|pa[v]|); var j := indexChild.GetOr(|ch[p]|);
      r.2.None? && p !in pa[v] ==>
        && 0 <= i <= |pa[v]| && 0 <= j <= |ch[p]|
        && r.0 == pa[v := InsertAt(pa[v], i, p)] && r.1 == ch[p := InsertAt(ch[p], j, v)]
  {
    if cyclic || p == v then (pa, ch, Some(CycleError))
    else if p in pa[v] then (pa, ch, None)
    else
      var i := index.GetOr(|pa[v]|);
      var j := indexChild.GetOr(|ch[p]|);
      if i < 0 || i > |pa[v]| || j < 0 || j > |ch[p]| then (pa, ch, Some(IndexOutOfBounds))
      else
        AddEdgeWellFormed(pa, ch, v, p, i, j);
        (pa[v := InsertAt(pa[v], i, p)], ch[p := InsertAt(ch[p], j, v)], None)
  }

  /** On success exactly the edge p -> v is new: no other parent or child
      relation appears or disappears. */
  lemma AddParentFixedEdges(pa: seq<seq<NodeId>>, ch: seq<seq<NodeId>>, v: NodeId, p: NodeId,
                            index: Option<int>, indexChild: Option<int>, cyclic: bool)
    requires WellFormed(pa, ch) && v < |pa| && p < |ch|
    requires AddParentFixed(pa, ch, v, p, index, indexChild, cyclic).2.None?
    ensures var r := AddParentFixed(pa, ch, v, p, index, indexChild, cyclic);
      && (forall u, q :: 0 <= u < |pa| ==> (q in r.0[u] <==> q in pa[u] || (u == v && q == p)))
      && (forall u, c :: 0 <= u < |ch| ==> (c in r.1[u] <==> c in ch[u] || (u == p && c == v)))
  {
    if p in pa[v] {
      assert v in ch[p];
    }
  }

  /** Away from the two defects the corrected add_parent does exactly what
      graph.py does: whenever `p` is not `v` and the child position is valid
      (or unused), both give the same lists and the same error. */
  lemma AddParentAgrees(pa: seq<seq<NodeId>>, ch: seq<seq<NodeId>>, v: NodeId, p: NodeId,
                        index: Option<int>, indexChild: Option<int>, cyclic: bool)
    requires WellFormed(pa, ch) && v < |pa| && p < |ch| && p != v
    requires v !in ch[p] ==> 0 <= indexChild.GetOr(|ch[p]|) <= |ch[p]|
    ensures AddParentAsWritten(pa, ch, v, p, index, indexChild, cyclic)
         == AddParentFixed(pa, ch, v, p, index, indexChild, cyclic)
  {
  }

  /** The position of the first node in `ps` that `add_parents` rejects as
      closing a cycle below `v` (`ps` itself when there is none). */
  function FirstCyclic(ps: seq<NodeId>, v: NodeId, below: set<NodeId>): (k: nat)
    ensures k <= |ps|
    ensures forall j :: 0 <= j < k ==> ps[j] != v && ps[j] !in below
    ensures k < |ps| ==> ps[k] == v || ps[k] in below
  {
    if ps == [] then 0
    else if ps[0] == v || ps[0] in below then 0
    else 1 + FirstCyclic(ps[1..], v, below)
  }

  /** The child lists after `v` has been given each node of `qs` as a parent:
      `v` is appended to the children of every node of `qs` that lacked it. */
  function LinkChildren(ch: seq<seq<NodeId>>, qs: seq<NodeId>, v: NodeId): (r: seq<seq<NodeId>>)
    ensures |r| == |ch|
    ensures forall u :: 0 <= u < |ch| && u !in qs ==> r[u] == ch[u]
  {
    seq(|ch|, u requires 0 <= u < |ch| => if u in qs && v !in ch[u] then ch[u] + [v] else ch[u])
  }

  /** One step of `add_parents` that adds the parent `p`. */
  lemma LinkStep(opa: seq<seq<NodeId>>, och: seq<seq<NodeId>>, pa: seq<seq<NodeId>>, ch: seq<seq<NodeId>>,
                 v: NodeId, qs: seq<NodeId>, p: NodeId)
    requires WellFormed(pa, ch) && v < |pa| && p < |ch| && p != v && |opa| == |pa|
    requires pa == opa[v := Merge(opa[v], qs)] && ch == LinkChildren(och, qs, v)
    ensures var r := AddParentFixed(pa, ch, v, p, None, None, false);
      && r.0 == opa[v := Merge(opa[v], qs + [p])]
      && r.1 == LinkChildren(och, qs + [p], v)
  {
    MergeStep(opa[v], qs, p);
    var r := AddParentFixed(pa, ch, v, p, None, None, false);
    if p in pa[v] {
      assert v in ch[p];
    } else {
      assert InsertAt(pa[v], |pa[v]|, p) == pa[v] + [p];
      assert InsertAt(ch[p], |ch[p]|, v) == ch[p] + [v];
      if p in qs {
        MergeFacts2(opa[v], qs, p);
      }
    }
  }

  /** The element Python's `a[i]` selects in a list of length `n`: negative
      positions count from the end; anything else raises IndexError. */
  function PyIndex(n: nat, i: int): (r: Option<nat>)
    ensures r.Some? <==> -(n as int) <= i < n
    ensures r.Some? ==> r.value < n && r.value as int == (if i < 0 then i + n else i)
  {
    if 0 <= i < n then Some(i as nat)
    else if -(n as int) <= i < 0 then Some((i + n) as nat)
    else None
  }

  /** Adjacency lists after detaching `v`: its own list emptied when
      `clearOwn`, and `v` left out of every list when `dropV`. */
  function Detached(s: seq<seq<NodeId>>, v: NodeId, clearOwn: bool, dropV: bool): (r: seq<seq<NodeId>>)
    ensures |r| == |s|
  {
    seq(|s|, u requires 0 <= u < |s| => if u == v && clearOwn then [] else if dropV then Without(s[u], v) else s[u])
  }

  /** Mid-way through a loop of `remove`: the lists in `cur` of the nodes
      in `done` (neighbours of `v` on the other side `own`) have lost `v`,
      and every other list is as in `orig`. */
  ghost predicate DetachedFrom(own: seq<seq<NodeId>>, orig: seq<seq<NodeId>>, cur: seq<seq<NodeId>>,
                               done: seq<NodeId>, v: NodeId)
  {
    && WellFormed(own, orig) && v < |own| && |cur| == |orig|
    && forall u :: 0 <= u < |orig| ==> cur[u] == if u in done then Without(orig[u], v) else orig[u]
  }

  /** The next neighbour `xs[j]` of `v` drops `v` from its list. */
  lemma DetachNext(own: seq<seq<NodeId>>, orig: seq<seq<NodeId>>, cur: seq<seq<NodeId>>, next: seq<seq<NodeId>>,
                   xs: seq<NodeId>, j: nat, v: NodeId)
    requires j < |xs| && DetachedFrom(own, orig, cur, xs[..j], v) && xs == own[v]
    requires xs[j] < |cur| && v in cur[xs[j]] && next == cur[xs[j] := RemoveFirst(cur[xs[j]], v)]
    ensures DetachedFrom(own, orig, next, xs[..j + 1], v)
  {
    assert xs[j] in own[v];
    WithoutStep(orig, cur, xs, j, v);
  }

  /** At the end of a loop of `remove` every list has lost `v`. */
  lemma DetachedAll(own: seq<seq<NodeId>>, orig: seq<seq<NodeId>>, cur: seq<seq<NodeId>>, xs: seq<NodeId>, j: nat, v: NodeId)
    requires j == |xs| && DetachedFrom(own, orig, cur, xs[..j], v) && xs == own[v]
    ensures forall u :: 0 <= u < |cur| ==> cur[u] == Without(orig[u], v)
  {
    assert xs[..j] == xs;
    forall u | 0 <= u < |orig| && u !in xs ensures v !in orig[u] {
    }
  }

  /** One step of the loops of `remove`: the lists of the first `j` nodes of
      `xs` have lost `v`, and now the list of `xs[j]` loses it too. */
  lemma WithoutStep(orig: seq<seq<NodeId>>, cur: seq<seq<NodeId>>, xs: seq<NodeId>, j: nat, v: NodeId)
    requires j < |xs| && NoDup(xs) && |cur| == |orig| && xs[j] < |orig|
    requires forall u :: 0 <= u < |orig| ==> cur[u] == if u in xs[..j] then Without(orig[u], v) else orig[u]
    requires NoDup(orig[xs[j]]) && v in orig[xs[j]]
    ensures var q := xs[j];
      forall u :: 0 <= u < |orig| ==>
        cur[q := RemoveFirst(cur[q], v)][u] == if u in xs[..j + 1] then Without(orig[u], v) else orig[u]
  {
    var q := xs[j];
    assert forall t :: 0 <= t < j ==> xs[..j][t] != q;
    assert xs[..j + 1] == xs[..j] + [q];
    RemoveFirstIsWithout(orig[q], v);
  }

  /** The parents list of a child that `change_to` moves from `v` to `x`:
      the first `v` gives way to `x` at the same position, or is dropped
      when `x` is a parent already. */
  function ReplaceOrDrop(s: seq<NodeId>, v: NodeId, x: NodeId): (r: seq<NodeId>)
    requires v in s
  {
    var i := IndexOf(s, v);
    var t := DeleteAt(s, i);
    if x in t then t else InsertAt(t, i, x)
  }

  /** In a duplicate-free list, `ReplaceOrDrop` swaps `v` for `x` and keeps
      everything else; when `x` is new it lands exactly where `v` was. */
  lemma ReplaceOrDropFacts(s: seq<NodeId>, v: NodeId, x: NodeId)
    requires v in s && NoDup(s) && x != v
    ensures NoDup(ReplaceOrDrop(s, v, x))
    ensures forall y :: y in ReplaceOrDrop(s, v, x) <==> (y in s && y != v) || y == x
    ensures x !in s ==> |ReplaceOrDrop(s, v, x)| == |s| && ReplaceOrDrop(s, v, x) == s[IndexOf(s, v) := x]
  {
    var i := IndexOf(s, v);
    DeleteAtFacts(s, i);
    var t := DeleteAt(s, i);
    if x !in t {
      InsertAtNoDup(t, i, x);
      var r := InsertAt(t, i, x);
      assert |r| == |s|;
      forall k | 0 <= k < |s| ensures r[k] == s[i := x][k] {
        if k < i {
          assert r[k] == r[..i][k] == t[..i][k] == s[..i][k];
        } else if k > i {
          assert r[k] == r[i + 1..][k - i - 1] == t[i..][k - i - 1] == s[i + 1..][k - i - 1];
        }
      }
    }
  }

  /** What `change_to` has done after moving the first `i` children `cs` of
      `v` to `x`, starting from the lists `opa` and `och`. */
  ghost predicate Transferred(opa: seq<seq<NodeId>>, och: seq<seq<NodeId>>, pa: seq<seq<NodeId>>, ch: seq<seq<NodeId>>,
                              v: NodeId, x: NodeId, cs: seq<NodeId>, i: nat)
  {
    && v < |och| && x < |och| && |opa| == |och| && cs == och[v] && i <= |cs| && NoDup(cs)
    && (forall j :: 0 <= j < |cs| ==> cs[j] < |opa| && v in opa[cs[j]])
    && |pa| == |opa| && |ch| == |och|
    && ch[v] == cs[i..]
    && ch[x] == Merge(och[x], cs[..i])
    && (forall j :: 0 <= j < i ==> pa[cs[j]] == ReplaceOrDrop(opa[cs[j]], v, x))
    && (forall u :: 0 <= u < |opa| && u !in cs[..i] ==> pa[u] == opa[u])
    && (forall u :: 0 <= u < |och| && u != v && u != x ==> ch[u] == och[u])
  }

  /** Before any child has moved. */
  lemma TransferredStart(pa: seq<seq<NodeId>>, ch: seq<seq<NodeId>>, v: NodeId, x: NodeId)
    requires WellFormed(pa, ch) && v < |ch| && x < |ch|
    ensures Transferred(pa, ch, pa, ch, v, x, ch[v], 0)
  {
    assert ch[v][..0] == [];
    assert forall j :: 0 <= j < |ch[v]| ==> ch[v][j] in ch[v];
  }

  /** After every child has moved: `v` has no children left, keeps its own
      parents, and every moved child has `x` instead of `v`. */
  lemma TransferredDone(opa: seq<seq<NodeId>>, och: seq<seq<NodeId>>, pa: seq<seq<NodeId>>, ch: seq<seq<NodeId>>,
                        v: NodeId, x: NodeId, cs: seq<NodeId>)
    requires Transferred(opa, och, pa, ch, v, x, cs, |cs|) && WellFormed(opa, och) && x != v && v !in cs
    ensures ch[v] == [] && pa[v] == opa[v]
    ensures forall c :: c in cs ==> x in pa[c] && v !in pa[c]
  {
    assert cs[..|cs|] == cs;
    forall c | c in cs ensures x in pa[c] && v !in pa[c] {
      var j := IndexOf(cs, c);
      ReplaceOrDropFacts(opa[c], v, x);
    }
  }

  /** The state in which `change_to` stops when moving child `cs[m]` would
      close a cycle: the first `m` children have moved, and `cs[m]` has lost
      `v` (from both sides) without gaining `x`. */
  ghost predicate TransferFailed(opa: seq<seq<NodeId>>, och: seq<seq<NodeId>>, pa: seq<seq<NodeId>>, ch: seq<seq<NodeId>>,
                                 v: NodeId, x: NodeId, cs: seq<NodeId>, m: nat)
  {
    && m < |cs| && |pa| == |opa| && |ch| == |och| && v < |ch| && cs[m] < |opa| && v in opa[cs[m]]
    && pa[cs[m]] == RemoveFirst(opa[cs[m]], v)
    && ch[v] == cs[m + 1..]
    && Transferred(opa, och, pa[cs[m] := opa[cs[m]]], ch[v := cs[m..]], v, x, cs, m)
  }

  /** The failing step of `change_to`: after `remove_parent(self)` on `cs[i]`
      the `add_parent` raises and changes nothing more. */
  lemma FailedStep(opa: seq<seq<NodeId>>, och: seq<seq<NodeId>>, pa: seq<seq<NodeId>>, ch: seq<seq<NodeId>>,
                   pa1: seq<seq<NodeId>>, ch1: seq<seq<NodeId>>, v: NodeId, x: NodeId, cs: seq<NodeId>, i: nat, c: NodeId)
    requires Transferred(opa, och, pa, ch, v, x, cs, i) && i < |cs| && c == cs[i]
    requires c < |pa| && v < |ch| && v in pa[c] && c in ch[v]
    requires pa1 == pa[c := RemoveFirst(pa[c], v)] && ch1 == ch[v := RemoveFirst(ch[v], c)]
    ensures TransferFailed(opa, och, pa1, ch1, v, x, cs, i)
  {
    TransferredAt(opa, och, pa, ch, v, x, cs, i);
    assert IndexOf(cs[i..], c) == 0;
    SplitAt(cs, i);
    UpdateUndone(pa, c, RemoveFirst(pa[c], v));
    UpdateUndone(ch, v, RemoveFirst(ch[v], c));
  }

  /** Writing back the old entry undoes an update. */
  lemma UpdateUndone(s: seq<seq<NodeId>>, k: nat, y: seq<NodeId>)
    requires k < |s|
    ensures s[k := y][k := s[k]] == s
  {
  }

  /** The shape of a successful corrected `add_parent` without a child
      position: either nothing changes because the edge exists, or `p` is
      inserted at `index` and `v` is appended to the children of `p`. */
  lemma AddParentFixedShape(pa: seq<seq<NodeId>>, ch: seq<seq<NodeId>>, v: NodeId, p: NodeId,
                            index: nat, cyclic: bool)
    requires WellFormed(pa, ch) && v < |pa| && p < |ch| && index <= |pa[v]|
    requires AddParentFixed(pa, ch, v, p, Some(index), None, cyclic).2.None?
    ensures (p in pa[v] <==> v in ch[p]) && p != v
    ensures var r := AddParentFixed(pa, ch, v, p, Some(index), None, cyclic);
      && r.0 == (if p in pa[v] then pa else pa[v := InsertAt(pa[v], index, p)])
      && r.1 == (if p in pa[v] then ch else ch[p := ch[p] + [v]])
  {
    assert InsertAt(ch[p], |ch[p]|, v) == ch[p] + [v];
  }

  /** One child moved by `change_to`: `remove_parent(self)` and then
      `add_parent(node, index)` on the child `cs[i]`, when the latter succeeds. */
  lemma TransferStep(opa: seq<seq<NodeId>>, och: seq<seq<NodeId>>, pa: seq<seq<NodeId>>, ch: seq<seq<NodeId>>,
                     pa1: seq<seq<NodeId>>, ch1: seq<seq<NodeId>>, P: seq<seq<NodeId>>, C: seq<seq<NodeId>>,
                     v: NodeId, x: NodeId, cs: seq<NodeId>, i: nat, c: NodeId, index: nat)
    requires Transferred(opa, och, pa, ch, v, x, cs, i) && i < |cs| && c == cs[i] && x != v && c != x
    requires c < |pa| && v < |ch| && x < |ch| && v in pa[c] && c in ch[v] && index == IndexOf(pa[c], v)
    requires pa1 == pa[c := RemoveFirst(pa[c], v)] && ch1 == ch[v := RemoveFirst(ch[v], c)]
    requires x in pa1[c] <==> c in ch1[x]
    requires index <= |pa1[c]|
    requires P == (if x in pa1[c] then pa1 else pa1[c := InsertAt(pa1[c], index, x)])
    requires C == (if x in pa1[c] then ch1 else ch1[x := ch1[x] + [c]])
    ensures Transferred(opa, och, P, C, v, x, cs, i + 1)
  {
    TransferredAt(opa, och, pa, ch, v, x, cs, i);
    StepParents(pa, pa1, P, v, x, c);
    SplitAt(cs, i);
    StepChildren(ch, ch1, C, v, x, c, cs[i..], och[x], cs[..i], x in pa1[c]);
    TransferredNext(opa, och, pa, ch, P, C, v, x, cs, i);
  }

  /** Moving the split point of `cs` one step to the right. */
  lemma SplitAt(cs: seq<NodeId>, i: nat)
    requires i < |cs|
    ensures cs[i..][1..] == cs[i + 1..] && cs[..i + 1] == cs[..i] + [cs[i]]
  {
  }

  /** What `Transferred` says about the next child to move. */
  lemma TransferredAt(opa: seq<seq<NodeId>>, och: seq<seq<NodeId>>, pa: seq<seq<NodeId>>, ch: seq<seq<NodeId>>,
                      v: NodeId, x: NodeId, cs: seq<NodeId>, i: nat)
    requires Transferred(opa, och, pa, ch, v, x, cs, i) && i < |cs|
    ensures cs[i] < |pa| && cs[i] !in cs[..i] && v in opa[cs[i]] && pa[cs[i]] == opa[cs[i]]
    ensures ch[v] == cs[i..] && ch[x] == Merge(och[x], cs[..i])
  {
    assert forall t :: 0 <= t < i ==> cs[..i][t] != cs[i];
  }

  /** The parents lists after moving child `c` from `v` to `x`, as
      `remove_parent(self)` and then `add_parent(node, index)` leave them. */
  lemma StepParents(pa: seq<seq<NodeId>>, pa1: seq<seq<NodeId>>, P: seq<seq<NodeId>>, v: NodeId, x: NodeId, c: NodeId)
    requires c < |pa| && v in pa[c] && pa1 == pa[c := RemoveFirst(pa[c], v)]
    requires P == (if x in pa1[c] then pa1 else pa1[c := InsertAt(pa1[c], IndexOf(pa[c], v), x)])
    ensures P == pa[c := ReplaceOrDrop(pa[c], v, x)]
  {
  }

  /** The children lists after the same move: `c` leaves the front of the
      children of `v` and joins those of `x` unless it is there already. */
  lemma StepChildren(ch: seq<seq<NodeId>>, ch1: seq<seq<NodeId>>, C: seq<seq<NodeId>>, v: NodeId, x: NodeId, c: NodeId,
                     rest: seq<NodeId>, acc: seq<NodeId>, done: seq<NodeId>, linked: bool)
    requires v < |ch| && x < |ch| && x != v
    requires ch[v] == rest && |rest| > 0 && rest[0] == c && ch[x] == Merge(acc, done)
    requires ch1 == ch[v := RemoveFirst(ch[v], c)] && (linked <==> c in ch1[x])
    requires C == (if linked then ch1 else ch1[x := ch1[x] + [c]])
    ensures |C| == |ch| && C[v] == rest[1..] && C[x] == Merge(acc, done + [c])
    ensures forall u :: 0 <= u < |ch| && u != v && u != x ==> C[u] == ch[u]
  {
    assert IndexOf(rest, c) == 0;
    MergeStep(acc, done, c);
  }

  lemma TransferredNext(opa: seq<seq<NodeId>>, och: seq<seq<NodeId>>, pa: seq<seq<NodeId>>, ch: seq<seq<NodeId>>,
                        P: seq<seq<NodeId>>, C: seq<seq<NodeId>>, v: NodeId, x: NodeId, cs: seq<NodeId>, i: nat)
    requires Transferred(opa, och, pa, ch, v, x, cs, i) && i < |cs| && x != v
    requires cs[i] < |pa| && cs[i] !in cs[..i] && v in opa[cs[i]]
    requires P == pa[cs[i] := ReplaceOrDrop(opa[cs[i]], v, x)]
    requires |C| == |ch| && C[v] == cs[i + 1..] && C[x] == Merge(och[x], cs[..i + 1])
    requires forall u :: 0 <= u < |ch| && u != v && u != x ==> C[u] == ch[u]
    ensures Transferred(opa, och, P, C, v, x, cs, i + 1)
  {
    var c := cs[i];
    SplitAt(cs, i);
    forall j | 0 <= j < i + 1 ensures P[cs[j]] == ReplaceOrDrop(opa[cs[j]], v, x) {
      if j < i {
        assert cs[j] != c;
      }
    }
    forall u | 0 <= u < |opa| && u !in cs[..i + 1] ensures P[u] == opa[u] {
      assert u !in cs[..i];
    }
  }

  /** Outside `v` and `x` the child lists are those `change_to` started
      from, whether the move of child `cs[i]` succeeded (`ok`) or raised. */
  lemma MoveFrame(opa: seq<seq<NodeId>>, och: seq<seq<NodeId>>, pa0: seq<seq<NodeId>>, ch0: seq<seq<NodeId>>,
                  pa1: seq<seq<NodeId>>, ch1: seq<seq<NodeId>>, v: NodeId, x: NodeId, cs: seq<NodeId>, i: nat, ok: bool)
    requires Transferred(opa, och, pa0, ch0, v, x, cs, i)
    requires ok ==> Transferred(opa, och, pa1, ch1, v, x, cs, i + 1)
    requires !ok ==> TransferFailed(opa, och, pa1, ch1, v, x, cs, i)
    ensures |ch1| == |ch0| && forall w :: 0 <= w < |ch0| && w != v && w != x ==> ch1[w] == ch0[w]
  {
    if !ok {
      forall w | 0 <= w < |ch0| && w != v && w != x ensures ch1[w] == ch0[w] {
        assert ch1[v := cs[i..]][w] == och[w];
      }
    }
  }

  /** Removing `v` from every child list keeps a ranking. */
  lemma DetachedRanked(ch: seq<seq<NodeId>>, level: seq<nat>, bound: nat, v: NodeId)
    requires Ranked(ch, level, bound)
    ensures Ranked(Detached(ch, v, false, true), level, bound)
  {
    var d := Detached(ch, v, false, true);
    forall u, c | 0 <= u < |d| && c in d[u] ensures c < |d| && level[u] < level[c] {
      assert c in ch[u];
    }
  }

  /** The descendants of `x` once every edge into `v` is gone: what the
      cycle check of `add_parents` sees when `change_to` hands the parents
      of `v` over to `x`. */
  ghost function DescReleased(ch: seq<seq<NodeId>>, level: seq<nat>, bound: nat, v: NodeId, x: NodeId): set<NodeId>
    requires Ranked(ch, level, bound) && x < |ch|
  {
    DetachedRanked(ch, level, bound, v);
    Desc(Detached(ch, v, false, true), level, bound, x)
  }

  /** The parents half of `change_to`, from the lists `opa`, `och` to `pa`,
      `ch`: `v` loses all its parents, and `x` takes them in order up to the
      first one that would close a cycle (`below` are the nodes under `x`
      at that point), which raises. */
  ghost predicate ParentsMoved(opa: seq<seq<NodeId>>, och: seq<seq<NodeId>>, pa: seq<seq<NodeId>>, ch: seq<seq<NodeId>>,
                               v: NodeId, x: NodeId, below: set<NodeId>, err: Option<GraphError>)
    requires v < |opa| && x < |opa|
  {
    var ps := opa[v];
    var k := FirstCyclic(ps, x, below);
    && err == (if k < |ps| then Some(CycleError) else None)
    && pa == opa[v := []][x := Merge(opa[x], ps[..k])]
    && ch == LinkChildren(Detached(och, v, false, true), ps[..k], x)
  }

  /** The children half of `change_to`, from the lists `opa`, `och` to `pa`,
      `ch`: the children `moved` are a prefix of those of `v`; either all
      moved, or the next one raised as closing a cycle. */
  ghost predicate ChildrenMoved(opa: seq<seq<NodeId>>, och: seq<seq<NodeId>>, pa: seq<seq<NodeId>>, ch: seq<seq<NodeId>>,
                                v: NodeId, x: NodeId, moved: seq<NodeId>, err: Option<GraphError>)
  {
    && v < |och| && moved <= och[v]
    && (err.None? ==> |moved| == |och[v]| && Transferred(opa, och, pa, ch, v, x, och[v], |moved|))
    && (err.Some? ==> err == Some(CycleError) && TransferFailed(opa, och, pa, ch, v, x, och[v], |moved|))
  }

  /** The whole of `change_to(x, transferParents, transferChildren)` on `v`,
      from the lists `opa`, `och` (ranked by `level`, `bound`) to `pa`, `ch`:
      the parents half when asked for; when it raised, nothing more; else
      the children half when asked for, starting from what the parents half
      left. */
  ghost predicate ChangedTo(opa: seq<seq<NodeId>>, och: seq<seq<NodeId>>, level: seq<nat>, bound: nat,
                            pa: seq<seq<NodeId>>, ch: seq<seq<NodeId>>, v: NodeId, x: NodeId,
                            transferParents: bool, transferChildren: bool, moved: seq<NodeId>, err: Option<GraphError>)
  {
    && Ranked(och, level, bound) && v < |och| && x < |och| && |opa| == |och|
    && var D := DescReleased(och, level, bound, v, x);
       var ps := opa[v];
       if transferParents && FirstCyclic(ps, x, D) < |ps| then
         moved == [] && ParentsMoved(opa, och, pa, ch, v, x, D, err)
       else
         var mpa := if transferParents then opa[v := []][x := Merge(opa[x], ps)] else opa;
         var mch := if transferParents then LinkChildren(Detached(och, v, false, true), ps, x) else och;
         if transferChildren then ChildrenMoved(mpa, mch, pa, ch, v, x, moved, err)
         else err.None? && moved == [] && pa == mpa && ch == mch
  }

  /** The inner loop of `ancestors` and `descendants`: append each element
      of `xs` that `acc` does not hold yet. */
  method AppendMissing(acc: seq<NodeId>, xs: seq<NodeId>) returns (r: seq<NodeId>)
    ensures r == Merge(acc, xs)
  {
    r := acc;
    var k := 0;
    while k < |xs|
      invariant 0 <= k <= |xs|
      invariant r == Merge(acc, xs[..k])
    {
      MergeStep(acc, xs[..k], xs[k]);
      assert xs[..k + 1] == xs[..k] + [xs[k]];
      if xs[k] !in r {
        r := r + [xs[k]];
      }
      k := k + 1;
    }
    assert xs[..k] == xs;
  }

  /** A new node with no edges, ranked at the bottom, keeps the lists well
      formed and ranked. */
  lemma ExtendRanked(pa: seq<seq<NodeId>>, ch: seq<seq<NodeId>>, level: seq<nat>, bound: nat)
    requires WellFormed(pa, ch) && Ranked(ch, level, bound) && RankedUp(pa, level)
    ensures WellFormed(pa + [[]], ch + [[]])
    ensures Ranked(ch + [[]], level + [0], bound + 1)
    ensures RankedUp(pa + [[]], level + [0])
  {
    var pa', ch', l' := pa + [[]], ch + [[]], level + [0];
    assert forall v :: 0 <= v < |pa| ==> pa'[v] == pa[v] && ch'[v] == ch[v] && l'[v] == level[v];
  }

  class Graph {
    /** `Graph.name`: the inference task's name, part of every operation id. */
    const graphName: string
    /** `Graph.nodes`: registered node names and the nodes under them. */
    var nodes: map<string, NodeId>
    /** `Node.name`, `Node.parents`, `Node.children` of every node. */
    var name: seq<string>
    var parents: seq<seq<NodeId>>
    var children: seq<seq<NodeId>>
    ghost var level: seq<nat>
    ghost var bound: nat

    ghost predicate Valid()
      reads this
    {
      && |name| == |parents|
      && WellFormed(parents, children)
      && Ranked(children, level, bound)
      && RankedUp(parents, level)
      && (forall k :: k in nodes ==> nodes[k] < |name| && name[nodes[k]] == k)
    }

    ghost function DescSet(v: NodeId): set<NodeId>
      reads this
      requires Valid() && v < |name|
    {
      Desc(children, level, bound, v)
    }

    ghost function AncSet(v: NodeId): set<NodeId>
      reads this
      requires Valid() && v < |name|
    {
      Anc(parents, level, v)
    }

    constructor (graphName: string)
      ensures Valid() && this.graphName == graphName
      ensures nodes == map[] && name == [] && parents == [] && children == []
    {
      this.graphName := graphName;
      nodes := map[];
      name := [];
      parents := [];
      children := [];
      level := [];
      bound := 0;
    }

    /** `is_root`: a node is a root exactly when it has no ancestors. */
    predicate IsRoot(v: NodeId)
      reads this
      requires Valid() && v < |name|
      ensures IsRoot(v) <==> AncSet(v) == {}
    {
      if parents[v] == [] then assert AncSet(v) == AncUpTo(parents, level, v, 0); true
      else ParentIsAncestor(parents, level, v, parents[v][0]); false
    }

    /** `is_leaf`: a node is a leaf exactly when it has no descendants. */
    predicate IsLeaf(v: NodeId)
      reads this
      requires Valid() && v < |name|
      ensures IsLeaf(v) <==> DescSet(v) == {}
    {
      if children[v] == [] then assert DescSet(v) == DescUpTo(children, level, bound, v, 0); true
      else ChildIsDescendant(children, level, bound, v, children[v][0]); false
    }

    /** `descendants`: the children of `v` first, then everything reachable
        below them, each node once. */
    method Descendants(v: NodeId) returns (r: seq<NodeId>)
      requires Valid() && v < |name|
      ensures NoDup(r)
      ensures forall u :: u in r <==> u in DescSet(v)
      ensures children[v] <= r
      decreases bound - level[v]
    {
      var cs := children[v];
      r := cs;
      var i := 0;
      while i < |cs|
        invariant 0 <= i <= |cs|
        invariant NoDup(r) && cs <= r
        invariant forall u :: u in r <==> u in cs || u in DescUpTo(children, level, bound, v, i)
      {
        var n := cs[i];
        ChildIsDescendant(children, level, bound, v, n);
        var dn := Descendants(n);
        ghost var before := r;
        r := AppendMissing(r, dn);
        MergeFacts(before, dn);
        i := i + 1;
      }
      forall u | u in cs ensures u in DescSet(v) {
        ChildIsDescendant(children, level, bound, v, u);
      }
    }

    /** `ancestors`: the parents of `v` first, then everything reachable
        above them, each node once. */
    method Ancestors(v: NodeId) returns (r: seq<NodeId>)
      requires Valid() && v < |name|
      ensures NoDup(r)
      ensures forall u :: u in r <==> u in AncSet(v)
      ensures parents[v] <= r
      decreases level[v]
    {
      var ps := parents[v];
      r := ps;
      var i := 0;
      while i < |ps|
        invariant 0 <= i <= |ps|
        invariant NoDup(r) && ps <= r
        invariant forall u :: u in r <==> u in ps || u in AncUpTo(parents, level, v, i)
      {
        var n := ps[i];
        ParentIsAncestor(parents, level, v, n);
        var an := Ancestors(n);
        ghost var before := r;
        r := AppendMissing(r, an);
        MergeFacts(before, an);
        i := i + 1;
      }
      forall u | u in ps ensures u in AncSet(v) {
        ParentIsAncestor(parents, level, v, u);
      }
    }

    /** `component`: `v`, then its ancestors, then its descendants. In an
        acyclic graph these three parts are disjoint, so no node occurs twice. */
    method Component(v: NodeId) returns (r: seq<NodeId>)
      requires Valid() && v < |name|
      ensures |r| > 0 && r[0] == v && NoDup(r)
      ensures forall u :: u in r <==> u == v || u in AncSet(v) || u in DescSet(v)
    {
      var a := Ancestors(v);
      var d := Descendants(v);
      r := [v] + a + d;
      forall i, j | 0 <= i < j < |r| ensures r[i] != r[j] {
        if i == 0 && j <= |a| {
          assert r[j] == a[j - 1] && r[j] in a;
          AncBelow(parents, level, v, r[j]);
        } else if i == 0 {
          assert r[j] == d[j - 1 - |a|] && r[j] in d;
          DescAbove(children, level, bound, v, r[j]);
        } else if j > |a| && i <= |a| {
          assert r[i] == a[i - 1] && r[j] == d[j - 1 - |a|] && r[i] in a && r[j] in d;
          AncBelow(parents, level, v, r[i]);
          DescAbove(children, level, bound, v, r[j]);
        } else if j <= |a| {
          assert r[i] == a[i - 1] && r[j] == a[j - 1];
        } else {
          assert r[i] == d[i - 1 - |a|] && r[j] == d[j - 1 - |a|];
        }
      }
    }

    /** `add_parent`, corrected (see `AddParentFixed`): make `node` a parent
        of `v` and `v` a child of `node`, at the given positions, unless the
        edge exists already. Adding a parent never changes what lies below `v`. */
    method AddParent(v: NodeId, node: Option<NodeId>, index: Option<int>, indexChild: Option<int>)
        returns (err: Option<GraphError>)
      requires Valid() && v < |name| && (node.Some? ==> node.value < |name|)
      modifies this
      ensures Valid() && nodes == old(nodes) && name == old(name)
      ensures node.None? ==> err == None && parents == old(parents) && children == old(children)
      ensures node.Some? ==>
        (parents, children, err)
          == AddParentFixed(old(parents), old(children), v, node.value, index, indexChild,
                            node.value in old(DescSet(v)))
      ensures DescSet(v) == old(DescSet(v))
    {
      if node.None? {
        return None;
      }
      var p := node.value;
      var ds := Descendants(v);
      if p in ds || p == v {
        return Some(CycleError);
      }
      if p in parents[v] {
        return None;
      }
      var i := index.GetOr(|parents[v]|);
      var j := indexChild.GetOr(|children[p]|);
      if i < 0 || i > |parents[v]| || j < 0 || j > |children[p]| {
        return Some(IndexOutOfBounds);
      }
      InsertEdge(v, p, i, j);
      err := None;
    }

    /** The successful end of `add_parent`: `p` enters the parents of `v` at
        position `i` and `v` the children of `p` at position `j`. The new
        edge leaves the descendants of `v` as they were. */
    method InsertEdge(v: NodeId, p: NodeId, i: nat, j: nat)
      requires Valid() && v < |name| && p < |name| && p != v && p !in DescSet(v) && p !in parents[v]
      requires i <= |parents[v]| && j <= |children[p]|
      modifies this
      ensures Valid() && nodes == old(nodes) && name == old(name)
      ensures parents == old(parents)[v := InsertAt(old(parents)[v], i, p)]
      ensures children == old(children)[p := InsertAt(old(children)[p], j, v)]
      ensures DescSet(v) == old(DescSet(v))
    {
      var pa' := parents[v := InsertAt(parents[v], i, p)];
      var ch' := children[p := InsertAt(children[p], j, v)];
      AddEdgeWellFormed(parents, children, v, p, i, j);
      ghost var l0, b0 := level, bound;
      ghost var l', b' := AddEdgeRanked(parents, children, level, bound, pa', ch', v, p);
      parents, children, level, bound := pa', ch', l', b';
      forall y | y in Desc(old(children), l0, b0, v) && y < |ch'| ensures ch'[y] == old(children)[y] {
        assert y != p;
      }
      DescSame(old(children), l0, b0, ch', l', b', v);
    }

    /** One turn of the loop of `add_parents`: `add_parent(ps[i])`, which
        raises exactly when `ps[i]` would close a cycle. */
    method AddListedParent(v: NodeId, ps: seq<NodeId>, i: nat, ghost opa: seq<seq<NodeId>>, ghost och: seq<seq<NodeId>>,
                           ghost D: set<NodeId>) returns (err: Option<GraphError>)
      requires Valid() && v < |name| && i < |ps| && ps[i] < |name| && |opa| == |parents|
      requires DescSet(v) == D && i <= FirstCyclic(ps, v, D)
      requires parents == opa[v := Merge(opa[v], ps[..i])] && children == LinkChildren(och, ps[..i], v)
      modifies this
      ensures Valid() && nodes == old(nodes) && name == old(name) && DescSet(v) == D
      ensures err.None? ==>
        && i < FirstCyclic(ps, v, D)
        && parents == opa[v := Merge(opa[v], ps[..i + 1])] && children == LinkChildren(och, ps[..i + 1], v)
      ensures err.Some? ==>
        i == FirstCyclic(ps, v, D) && err == Some(CycleError) && parents == old(parents) && children == old(children)
    {
      var p := ps[i];
      if p != v {
        LinkStep(opa, och, parents, children, v, ps[..i], p);
      }
      SplitAt(ps, i);
      err := AddParent(v, Some(p), None, None);
    }

    /** `add_parents`: `add_parent` for each node of `ps` in turn, appending;
        the first node that would close a cycle raises, and the nodes before
        it stay added. */
    method AddParents(v: NodeId, ps: seq<NodeId>) returns (err: Option<GraphError>)
      requires Valid() && v < |name| && forall j :: 0 <= j < |ps| ==> ps[j] < |name|
      modifies this
      ensures Valid() && nodes == old(nodes) && name == old(name)
      ensures DescSet(v) == old(DescSet(v))
      ensures var k := FirstCyclic(ps, v, old(DescSet(v)));
        && err == (if k < |ps| then Some(CycleError) else None)
        && parents == old(parents)[v := Merge(old(parents[v]), ps[..k])]
        && children == LinkChildren(old(children), ps[..k], v)
    {
      ghost var D := DescSet(v);
      ghost var k := FirstCyclic(ps, v, D);
      ghost var opa, och := parents, children;
      err := None;
      var i := 0;
      while i < |ps| && err.None?
        invariant 0 <= i <= k <= |ps|
        invariant Valid() && nodes == old(nodes) && name == old(name)
        invariant DescSet(v) == D
        invariant parents == opa[v := Merge(opa[v], ps[..i])]
        invariant children == LinkChildren(och, ps[..i], v)
        invariant err.Some? ==> i == k < |ps| && err == Some(CycleError)
        invariant err.None? ==> i <= k
        decreases |ps| - i, if err.None? then 1 else 0
      {
        err := AddListedParent(v, ps, i, opa, och, D);
        if err.None? {
          i := i + 1;
        }
      }
      if err.None? {
        assert ps[..i] == ps[..k];
      }
    }

    /** `remove_parent`: detach one parent of `v`, chosen by node (its first
        occurrence) or by list position; the parent also loses `v` as a child.
        The position is returned as the caller gave it. */
    method RemoveParent(v: NodeId, which: ParentRef) returns (index: int, err: Option<GraphError>)
      requires Valid() && v < |name|
      modifies this
      ensures Valid() && nodes == old(nodes) && name == old(name)
      ensures level == old(level) && bound == old(bound)
      ensures var s := old(parents[v]);
        match which
        case ByNode(q) =>
          if q in s then
            && err == None && index == IndexOf(s, q)
            && parents == old(parents)[v := RemoveFirst(s, q)]
            && children == old(children)[q := RemoveFirst(old(children[q]), v)]
          else err == Some(ParentNotFound) && parents == old(parents) && children == old(children)
        case ByIndex(i) =>
          if PyIndex(|s|, i).Some? then
            var a := PyIndex(|s|, i).value;
            && s[a] in s && err == None && index == i
            && parents == old(parents)[v := DeleteAt(s, a)]
            && children == old(children)[s[a] := RemoveFirst(old(children)[s[a]], v)]
          else err == Some(ListIndexError) && parents == old(parents) && children == old(children)
    {
      var s := parents[v];
      var a: nat;
      match which {
        case ByNode(q) =>
          var i := 0;
          while i < |s| && s[i] != q
            invariant 0 <= i <= |s|
            invariant forall j :: 0 <= j < i ==> s[j] != q
          {
            i := i + 1;
          }
          if i == |s| {
            return 0, Some(ParentNotFound);
          }
          a, index := i, i;
        case ByIndex(i) =>
          var r := PyIndex(|s|, i);
          if r.None? {
            return i, Some(ListIndexError);
          }
          a, index := r.value, i;
      }
      DropEdge(v, a);
      err := None;
    }

    /** The removal that `remove_parent` performs: the parent at position
        `a` of `v` leaves the list, and `v` leaves its children. */
    method DropEdge(v: NodeId, a: nat)
      requires Valid() && v < |name| && a < |parents[v]|
      modifies this
      ensures Valid() && nodes == old(nodes) && name == old(name)
      ensures level == old(level) && bound == old(bound)
      ensures var q := old(parents)[v][a];
        && q < |old(children)| && v in old(children)[q]
        && parents == old(parents)[v := DeleteAt(old(parents)[v], a)]
        && children == old(children)[q := RemoveFirst(old(children)[q], v)]
    {
      var s := parents[v];
      var q := s[a];
      assert q in parents[v];
      assert v in children[q];
      ghost var pa', ch' := parents[v := DeleteAt(s, a)], children[q := RemoveFirst(children[q], v)];
      DeleteAtFacts(s, a);
      RemoveFirstFacts(children[q], v);
      assert s == s[..a] + [q] + s[a + 1..];
      forall u, c | 0 <= u < |children| && c in ch'[u] ensures c in children[u] { }
      forall u, p | 0 <= u < |parents| && p in pa'[u] ensures p in parents[u] { }
      DropEdgesRanked(parents, children, level, bound, pa', ch');
      parents := parents[v := DeleteAt(s, a)];
      children := children[q := RemoveFirst(children[q], v)];
    }

    /** One turn of the loops that strip `v` of its parents: `v` loses its
        first remaining parent, named by position 0 or by node. */
    method DropFirstParent(v: NodeId, ghost opa: seq<seq<NodeId>>, ghost och: seq<seq<NodeId>>, ghost i: nat, which: ParentRef)
      requires Valid() && v < |name| && v < |opa| && i < |opa[v]|
      requires parents == opa[v := opa[v][i..]] && DetachedFrom(opa, och, children, opa[v][..i], v)
      requires which == ByIndex(0) || which == ByNode(opa[v][i])
      modifies this
      ensures Valid() && nodes == old(nodes) && name == old(name) && level == old(level)
      ensures parents == opa[v := opa[v][i + 1..]] && DetachedFrom(opa, och, children, opa[v][..i + 1], v)
    {
      ghost var ch0 := children;
      ghost var q := opa[v][i];
      assert parents[v][0] == q && IndexOf(parents[v], q) == 0 && PyIndex(|parents[v]|, 0) == Some(0);
      SplitAt(opa[v], i);
      if which.ByIndex? {
        var _, _ := RemoveParent(v, ByIndex(0));
      } else {
        var _, _ := RemoveParent(v, ByNode(parents[v][0]));
      }
      assert parents == opa[v := opa[v][i + 1..]] && children == ch0[q := RemoveFirst(ch0[q], v)];
      DetachNext(opa, och, ch0, children, opa[v], i, v);
    }

    /** The first loop of `remove`: `remove_parent(0)` until `v` has no parent. */
    method DetachParents(v: NodeId)
      requires Valid() && v < |name|
      modifies this
      ensures Valid() && nodes == old(nodes) && name == old(name) && level == old(level)
      ensures parents == old(parents)[v := []]
      ensures |children| == |old(children)|
      ensures forall u :: 0 <= u < |children| ==> children[u] == Without(old(children)[u], v)
    {
      ghost var opa, och := parents, children;
      ghost var j := 0;
      assert opa[v][..0] == [];
      while |parents[v]| > 0
        invariant 0 <= j <= |opa[v]|
        invariant Valid() && nodes == old(nodes) && name == old(name) && level == old(level)
        invariant parents == opa[v := opa[v][j..]]
        invariant DetachedFrom(opa, och, children, opa[v][..j], v)
        decreases |parents[v]|
      {
        DropFirstParent(v, opa, och, j, ByIndex(0));
        j := j + 1;
      }
      DetachedAll(opa, och, children, opa[v], j, v);
    }

    /** A child of `v` removes `v` as a parent, one turn of the second loop of `remove`. */
    method DropChild(v: NodeId, ghost opa: seq<seq<NodeId>>, ghost och: seq<seq<NodeId>>, cs: seq<NodeId>, i: nat)
      requires Valid() && v < |name| && v < |och| && cs == och[v] && i < |cs|
      requires children == och[v := cs[i..]] && DetachedFrom(och, opa, parents, cs[..i], v)
      modifies this
      ensures Valid() && nodes == old(nodes) && name == old(name) && level == old(level)
      ensures children == och[v := cs[i + 1..]] && DetachedFrom(och, opa, parents, cs[..i + 1], v)
    {
      var c := cs[i];
      ghost var pa0 := parents;
      assert c in children[v] && v in parents[c] && IndexOf(cs[i..], c) == 0;
      SplitAt(cs, i);
      var _, _ := RemoveParent(c, ByNode(v));
      assert children == och[v := cs[i + 1..]] && parents == pa0[c := RemoveFirst(pa0[c], v)];
      DetachNext(och, opa, pa0, parents, cs, i, v);
    }

    /** The second loop of `remove`: every child of `v` removes `v` as a parent. */
    method DetachChildren(v: NodeId)
      requires Valid() && v < |name|
      modifies this
      ensures Valid() && nodes == old(nodes) && name == old(name) && level == old(level)
      ensures children == old(children)[v := []]
      ensures |parents| == |old(parents)|
      ensures forall u :: 0 <= u < |parents| ==> parents[u] == Without(old(parents)[u], v)
    {
      ghost var opa, och := parents, children;
      var cs := children[v];
      var i := 0;
      assert cs[..0] == [];
      while i < |cs|
        invariant 0 <= i <= |cs|
        invariant Valid() && nodes == old(nodes) && name == old(name) && level == old(level)
        invariant children == och[v := cs[i..]]
        invariant DetachedFrom(och, opa, parents, cs[..i], v)
      {
        DropChild(v, opa, och, cs, i);
        i := i + 1;
      }
      DetachedAll(och, opa, parents, cs, i, v);
    }

    /** `remove`: unless kept, detach `v` from all its parents and then from
        all its children; no other relation changes. */
    method Remove(v: NodeId, keepParents: bool, keepChildren: bool)
      requires Valid() && v < |name|
      modifies this
      ensures Valid() && nodes == old(nodes) && name == old(name)
      ensures parents == Detached(old(parents), v, !keepParents, !keepChildren)
      ensures children == Detached(old(children), v, !keepChildren, !keepParents)
    {
      assert v !in parents[v];
      assert v !in children[v];
      if !keepParents {
        DetachParents(v);
      }
      if !keepChildren {
        DetachChildren(v);
      }
    }

    /** `Graph.add_node`: register `x` under its name. A node already
        registered under that name is renamed with "_old" suffixes until its
        name is free, and stays registered under the new name. Registering a
        node twice changes nothing. */
    method AddNode(x: NodeId)
      requires Valid() && x < |name|
      modifies this
      ensures Valid() && parents == old(parents) && children == old(children)
      ensures nodes.Values == old(nodes).Values + {x}
      ensures x !in old(nodes).Values ==> nodes[name[x]] == x
      ensures x in old(nodes).Values ==> nodes == old(nodes) && name == old(name)
      ensures x !in old(nodes).Values && old(name)[x] in old(nodes) ==>
        var y := old(nodes)[old(name)[x]];
        var n := FreshFrom(old(nodes).Keys, old(name)[x]);
        && name == old(name)[y := n]
        && nodes == old(nodes)[n := y][old(name)[x] := x]
      ensures x !in old(nodes).Values && old(name)[x] !in old(nodes) ==>
        name == old(name) && nodes == old(nodes)[name[x] := x]
    {
      if x in nodes.Values {
        return;
      }
      var nm := name[x];
      if nm in nodes {
        var nameOld := nm;
        while nameOld in nodes
          modifies {}
          invariant FreshFrom(nodes.Keys, nameOld) == FreshFrom(nodes.Keys, nm)
          decreases set k | k in nodes.Keys && |k| >= |nameOld|
        {
          OldsShrinkHolds(nodes.Keys, nameOld);
          nameOld := nameOld + "_old";
        }
        assert nameOld == FreshFrom(nodes.Keys, nm);
        var y := nodes[nm];
        FreshFromFacts(nodes.Keys, nm);
        assert nameOld != nm;
        assert y != x;
        name := name[y := nameOld];
        nodes := nodes[nameOld := y];
        forall k | k in nodes && k != nm && k != nameOld ensures nodes[k] != y {
        }
        nodes := nodes[nm := x];
        forall z | z in old(nodes).Values ensures z in nodes.Values {
          var k :| k in old(nodes) && old(nodes)[k] == z;
          if k == nm {
            assert nodes[nameOld] == z;
          } else {
            assert nodes[k] == z;
          }
        }
        forall z | z in nodes.Values ensures z in old(nodes).Values || z == x {
          var k :| k in nodes && nodes[k] == z;
          if k == nameOld {
            assert old(nodes)[nm] == z;
          } else if k != nm {
            assert old(nodes)[k] == z;
          }
        }
        assert nodes[nm] == x;
        assert nodes.Values == old(nodes).Values + {x};
      } else {
        nodes := nodes[nm := x];
        forall z | z in old(nodes).Values ensures z in nodes.Values {
          var k :| k in old(nodes) && old(nodes)[k] == z;
          assert nodes[k] == z;
        }
        forall z | z in nodes.Values ensures z in old(nodes).Values || z == x {
          var k :| k in nodes && nodes[k] == z;
          if k != nm {
            assert old(nodes)[k] == z;
          }
        }
        assert nodes[nm] == x;
        assert nodes.Values == old(nodes).Values + {x};
      }
    }

    /** `Graph.remove_node`: drop the registry entry under the name of `x`,
        whatever node it holds; a missing name raises. The node keeps its
        edges. */
    method RemoveNode(x: NodeId) returns (err: Option<GraphError>)
      requires Valid() && x < |name|
      modifies this
      ensures Valid() && name == old(name) && parents == old(parents) && children == old(children)
      ensures name[x] !in nodes && nodes == old(nodes) - {name[x]}
      ensures err == if name[x] in old(nodes) then None else Some(NodeNotFound)
    {
      if name[x] in nodes {
        nodes := nodes - {name[x]};
        err := None;
      } else {
        err := Some(NodeNotFound);
      }
    }

    /** The unregistered part of `Node.__init__`: a new node named `nm`
        given the parents `ps` in order. A new node has no descendants, so no
        parent can close a cycle. */
    method AttachNode(nm: string, ps: seq<NodeId>) returns (x: NodeId)
      requires Valid() && forall j :: 0 <= j < |ps| ==> ps[j] < |name|
      modifies this
      ensures Valid() && x == old(|name|) && name == old(name) + [nm] && nodes == old(nodes)
      ensures parents == old(parents) + [Merge([], ps)]
      ensures children == LinkChildren(old(children) + [[]], ps, x)
    {
      x := |name|;
      ExtendRanked(parents, children, level, bound);
      name := name + [nm];
      parents := parents + [[]];
      children := children + [[]];
      level := level + [0];
      bound := bound + 1;
      assert DescSet(x) == DescUpTo(children, level, bound, x, 0);
      assert FirstCyclic(ps, x, {}) == |ps|;
      assert ps[..|ps|] == ps;
      var _ := AddParents(x, ps);
      assert parents[x] == Merge([], ps);
      assert parents == old(parents) + [Merge([], ps)];
    }

    /** `Node.__init__`: a new node named `nm`, given the parents `ps` in
        order, and registered in the graph when `register` holds (a node
        created with a graph). */
    method NewNode(nm: string, ps: seq<NodeId>, register: bool) returns (x: NodeId)
      requires Valid() && forall j :: 0 <= j < |ps| ==> ps[j] < |name|
      modifies this
      ensures Valid() && x == old(|name|) && |name| == x + 1
      ensures parents == old(parents) + [Merge([], ps)]
      ensures children == LinkChildren(old(children) + [[]], ps, x)
      ensures !register ==> nodes == old(nodes) && name == old(name) + [nm]
      ensures register ==> nm in nodes && nodes[nm] == x && nodes.Values == old(nodes).Values + {x}
      ensures register && nm in old(nodes) ==>
        var n := FreshFrom(old(nodes).Keys, nm);
        && name == (old(name) + [nm])[old(nodes)[nm] := n]
        && nodes == old(nodes)[n := old(nodes)[nm]][nm := x]
      ensures register && nm !in old(nodes) ==> name == old(name) + [nm] && nodes == old(nodes)[nm := x]
    {
      x := AttachNode(nm, ps);
      if register {
        assert x !in nodes.Values;
        AddNode(x);
      }
    }

    /** The first step of `change_to`: every parent of `v` in turn is removed
        by node; `v` ends without parents and the old list is returned. */
    method ReleaseParents(v: NodeId) returns (ps: seq<NodeId>)
      requires Valid() && v < |name|
      modifies this
      ensures Valid() && nodes == old(nodes) && name == old(name) && level == old(level)
      ensures ps == old(parents[v])
      ensures parents == old(parents)[v := []]
      ensures |children| == |old(children)|
      ensures forall u :: 0 <= u < |children| ==> children[u] == Without(old(children)[u], v)
    {
      ghost var opa, och := parents, children;
      ps := parents[v];
      var i := 0;
      assert ps[..0] == [];
      while i < |ps|
        invariant 0 <= i <= |ps|
        invariant Valid() && nodes == old(nodes) && name == old(name) && level == old(level)
        invariant parents == opa[v := ps[i..]]
        invariant DetachedFrom(opa, och, children, ps[..i], v)
      {
        DropFirstParent(v, opa, och, i, ByNode(ps[i]));
        i := i + 1;
      }
      DetachedAll(opa, och, children, ps, i, v);
    }

    /** One child moved by `change_to`: child `cs[i]` of `v` drops `v` as a
        parent (`remove_parent(self)`) and takes `x` at the position `v` had
        (`add_parent(node, index=index)`). When that would close a cycle it
        raises, and the child has lost `v` without gaining `x`. */
    method MoveChild(v: NodeId, x: NodeId, ghost opa: seq<seq<NodeId>>, ghost och: seq<seq<NodeId>>, cs: seq<NodeId>, i: nat)
        returns (err: Option<GraphError>)
      requires Valid() && v < |name| && x < |name| && x != v && i < |cs|
      requires Transferred(opa, och, parents, children, v, x, cs, i)
      modifies this
      ensures Valid() && nodes == old(nodes) && name == old(name)
      ensures err.Some? ==> err == Some(CycleError) && TransferFailed(opa, och, parents, children, v, x, cs, i)
      ensures err.None? ==> Transferred(opa, och, parents, children, v, x, cs, i + 1)
      ensures err.None? ==> cs[i] < |name| && DescSet(cs[i]) == old(DescSet(cs[i]))
      ensures err.None? ==> Apart(children, level, bound, v, x, cs[i])
    {
      var c := cs[i];
      ghost var pa0, ch0, l0, b0 := parents, children, level, bound;
      TransferredAt(opa, och, parents, children, v, x, cs, i);
      assert c in children[v] && v in parents[c];
      var index, _ := RemoveParent(c, ByNode(v));
      ghost var pa1, ch1 := parents, children;
      DropEdgeKeepsDesc(ch0, ch1, l0, b0, v, c);
      ghost var cyclic := x in DescSet(c);
      err := AddParent(c, Some(x), Some(index), None);
      if err.Some? {
        FailedStep(opa, och, pa0, ch0, pa1, ch1, v, x, cs, i, c);
        return;
      }
      AddParentFixedShape(pa1, ch1, c, x, index, cyclic);
      TransferStep(opa, och, pa0, ch0, pa1, ch1, parents, children, v, x, cs, i, c, index);
    }

    /** The second step of `change_to`: each child `c` of `v` in turn drops
        `v` and takes `x` at the position `v` had. The first child
        that would close a cycle raises; it has then lost `v` without gaining
        `x`. `moved` lists the children that were moved. */
    method TransferChildren(v: NodeId, x: NodeId) returns (moved: seq<NodeId>, err: Option<GraphError>)
      requires Valid() && v < |name| && x < |name| && x != v
      modifies this
      ensures Valid() && nodes == old(nodes) && name == old(name)
      ensures ChildrenMoved(old(parents), old(children), parents, children, v, x, moved, err)
    {
      ghost var opa, och := parents, children;
      var cs := children[v];
      moved := [];
      err := None;
      var i := 0;
      TransferredStart(parents, children, v, x);
      while i < |cs|
        invariant 0 <= i <= |cs| && moved == cs[..i]
        invariant Valid() && nodes == old(nodes) && name == old(name)
        invariant Transferred(opa, och, parents, children, v, x, cs, i)
        invariant err.None?
      {
        err := MoveChild(v, x, opa, och, cs, i);
        if err.Some? {
          return;
        }
        SplitAt(cs, i);
        moved := moved + [cs[i]];
        i := i + 1;
      }
    }

    /** The first half of `change_to`: release the parents of `v` and give
        them to `x`. */
    method MoveParents(v: NodeId, x: NodeId) returns (err: Option<GraphError>)
      requires Valid() && v < |name| && x < |name| && x != v
      modifies this
      ensures Valid() && nodes == old(nodes) && name == old(name)
      ensures err.Some? ==> err == Some(CycleError)
      ensures parents[v] == [] && children[v] == old(children[v])
      ensures err.None? ==> forall p :: p in old(parents[v]) ==> p in parents[x]
      ensures ParentsMoved(old(parents), old(children), parents, children, v, x,
                           DescReleased(old(children), old(level), old(bound), v, x), err)
    {
      ghost var opv, ocv := parents[v], children[v];
      ghost var och, l0, b0 := children, level, bound;
      assert v !in ocv;
      var ps := ReleaseParents(v);
      assert children == Detached(och, v, false, true);
      DetachedRanked(och, l0, b0, v);
      DescSame(children, level, bound, Detached(och, v, false, true), l0, b0, x);
      assert forall j :: 0 <= j < |ps| ==> ps[j] in opv;
      ghost var px := parents[x];
      err := AddParents(x, ps);
      if err.None? {
        assert ps[..|ps|] == ps;
        forall p | p in opv ensures p in parents[x] {
          MergeFacts2(px, ps, p);
        }
      }
    }

    /** `change_to`: `x` takes over the edges of `v`. With `transferParents`
        the parents of `v` are released and given to `x`; with
        `transferChildren` every child of `v` takes `x` where it had `v`.
        The first edge that would close a cycle raises and stops the
        transfer where it is. */
    method ChangeTo(v: NodeId, x: NodeId, transferParents: bool, transferChildren: bool)
        returns (moved: seq<NodeId>, err: Option<GraphError>)
      requires Valid() && v < |name| && x < |name| && x != v
      modifies this
      ensures Valid() && nodes == old(nodes) && name == old(name)
      ensures err.Some? ==> err == Some(CycleError)
      ensures !transferParents && !transferChildren ==>
        err.None? && moved == [] && parents == old(parents) && children == old(children)
      ensures err.None? && transferParents ==>
        parents[v] == [] && forall p :: p in old(parents[v]) ==> p in parents[x]
      ensures err.None? && transferChildren ==>
        && moved == old(children[v]) && children[v] == []
        && forall c :: c in moved ==> x in parents[c] && v !in parents[c] && c in children[x]
      ensures ChangedTo(old(parents), old(children), old(level), old(bound), parents, children,
                        v, x, transferParents, transferChildren, moved, err)
    {
      moved := [];
      err := None;
      ghost var ps := parents[v];
      if transferParents {
        err := MoveParents(v, x);
        if err.Some? {
          return;
        }
        assert ps[..|ps|] == ps;
      }
      if transferChildren {
        ghost var pa0, ch0 := parents, children;
        assert v !in ch0[v];
        moved, err := TransferChildren(v, x);
        if err.None? {
          TransferredDone(pa0, ch0, parents, children, v, x, moved);
        }
      }
    }
  }
}

/**
 The flame graph builder (debug_profiles.go:258-314): a trie of heap nodes grown in place,
 one walk from the root per sample.

 A ghost map from paths to nodes describes the trie. That no node sits at two paths makes it
 a tree; that each node's children are exactly the nodes one step further makes it complete.
 */
module FlameGraph {
  import opened FlameGraphSpec

  class Node {
    const functionName: string
    const fileName: string
    const line: int
    var nanoseconds: int64
    var selfNanoseconds: int64
    var children: seq<Node>

    constructor (functionName: string, fileName: string, line: int)
      ensures this.functionName == functionName && this.fileName == fileName && this.line == line
      ensures nanoseconds == 0 && selfNanoseconds == 0 && children == []
    {
      this.functionName := functionName;
      this.fileName := fileName;
      this.line := line;
      nanoseconds, selfNanoseconds, children := 0, 0, [];
    }

    method FindChild(name: string) returns (child: Node?)
      ensures child != null ==> child in children && child.functionName == name
      ensures child == null ==> forall i :: 0 <= i < |children| ==> children[i].functionName != name
    {
      for i := 0 to |children|
        invariant forall j :: 0 <= j < i ==> children[j].functionName != name
      {
        if children[i].functionName == name {
          return children[i];
        }
      }
      return null;
    }
  }

  /** Which node stands for which path, and the child lists at one moment. */
  type Nodes = map<Path, Node>
  type Kids = map<Path, seq<Node>>

  ghost predicate IsTree(nodes: Nodes, kids: Kids) {
    && kids.Keys == nodes.Keys
    && [] in nodes
    && (forall p, q {:trigger ApartAt(nodes, p, q)} :: ApartAt(nodes, p, q))
    && (forall p {:trigger ChildrenAt(nodes, kids, p)} :: p in nodes ==> ChildrenAt(nodes, kids, p))
    && (forall p {:trigger ParentAt(nodes, kids, p)} :: p in nodes ==> ParentAt(nodes, kids, p))
  }

  /** No node sits at two paths. */
  ghost predicate ApartAt(nodes: Nodes, p: Path, q: Path) {
    p in nodes && q in nodes && nodes[p] == nodes[q] ==> p == q
  }

  /** The children of the node at `p` are nodes one step further, under different names. */
  ghost predicate ChildrenAt(nodes: Nodes, kids: Kids, p: Path) {
    p in kids &&
    var cs := kids[p];
    && (forall i :: 0 <= i < |cs| ==> p + [cs[i].functionName] in nodes && nodes[p + [cs[i].functionName]] == cs[i])
    && (forall i, j :: 0 <= i < j < |cs| ==> cs[i].functionName != cs[j].functionName)
  }

  /** Every node but the root is a child of the node one step up, under the last name of its path. */
  ghost predicate ParentAt(nodes: Nodes, kids: Kids, p: Path)
    requires p in nodes
  {
    p != [] ==>
      var up := p[..|p| - 1];
      up in nodes && up in kids && nodes[p].functionName == p[|p| - 1] && nodes[p] in kids[up]
  }

  lemma ChildListed(nodes: Nodes, kids: Kids, p: Path, name: string)
    requires IsTree(nodes, kids) && p in nodes
    ensures p + [name] in nodes ==> exists i :: 0 <= i < |kids[p]| && kids[p][i].functionName == name
  {
    var q := p + [name];
    assert q[..|q| - 1] == p;
    if q in nodes {
      assert ParentAt(nodes, kids, q);
    }
  }

  lemma OnlyThere(nodes: Nodes, kids: Kids, q: Path)
    requires IsTree(nodes, kids) && q in nodes
    ensures forall r :: r in nodes && r != q ==> nodes[r] != nodes[q]
  {
    forall r | r in nodes && r != q ensures nodes[r] != nodes[q] {
      assert ApartAt(nodes, r, q);
    }
  }

  /** Appending a new childless node below the node at `p` keeps the tree. */
  lemma GrowKeepsTree(nodes: Nodes, kids: Kids, p: Path, child: Node)
    requires IsTree(nodes, kids) && p in nodes
    requires p + [child.functionName] !in nodes && child !in nodes.Values
    ensures var q := p + [child.functionName];
            IsTree(nodes[q := child], kids[p := kids[p] + [child]][q := []])
  {
    var q := p + [child.functionName];
    var nodes', kids' := nodes[q := child], kids[p := kids[p] + [child]][q := []];
    assert q[..|q| - 1] == p && q != p;
    forall r, t {:trigger ApartAt(nodes', r, t)} ensures ApartAt(nodes', r, t) {
      assert ApartAt(nodes, r, t);
    }
    forall r {:trigger ChildrenAt(nodes', kids', r)} | r in nodes' ensures ChildrenAt(nodes', kids', r) {
      if r != q { assert ChildrenAt(nodes, kids, r); }
    }
    forall r {:trigger ParentAt(nodes', kids', r)} | r in nodes' ensures ParentAt(nodes', kids', r) {
      if r != q { assert ParentAt(nodes, kids, r); }
    }
  }

  /** The nanoseconds and own nanoseconds of all nodes at one moment. */
  datatype Times = Times(all: map<Path, int64>, own: map<Path, int64>)

  /** The ghost description of a graph: its nodes by path, their child lists and times. */
  datatype View = View(nodes: Nodes, kids: Kids, times: Times)

  /** A description that is true right now. */
  ghost predicate Shows(w: View)
    reads w.nodes.Values
  {
    && w.kids.Keys == w.nodes.Keys && w.times.all.Keys == w.nodes.Keys && w.times.own.Keys == w.nodes.Keys
    && forall p {:trigger ShowsAt(w, p)} :: p in w.nodes ==> ShowsAt(w, p)
  }

  ghost predicate ShowsAt(w: View, p: Path)
    reads w.nodes.Values
  {
    && p in w.nodes && p in w.kids && p in w.times.all && p in w.times.own
    && w.nodes[p].children == w.kids[p]
    && w.nodes[p].nanoseconds == w.times.all[p]
    && w.nodes[p].selfNanoseconds == w.times.own[p]
  }

  /** The part of a sample's stack already walked when `i` locations are left. */
  ghost predicate OnWay(s: Sample, i: nat, p: Path)
    requires i <= |s.locations|
  {
    p <= Outer(s.locations, i)
  }

  /** The times for `samples` with sample `s` entered down to location `i`. */
  ghost predicate Partial(t: Times, samples: seq<Sample>, v: nat, s: Sample, i: nat)
    requires i <= |s.locations|
  {
    && t.own.Keys == t.all.Keys
    && (forall p {:trigger PartialAt(t, samples, v, s, i, p)} :: PartialAt(t, samples, v, s, i, p))
  }

  ghost predicate PartialAt(t: Times, samples: seq<Sample>, v: nat, s: Sample, i: nat, p: Path)
    requires i <= |s.locations| && t.own.Keys == t.all.Keys
  {
    && (p in t.all <==> Reached(samples, p) || OnWay(s, i, p))
    && (p in t.all ==>
          && t.all[p] == Wrap64(Total(samples, v, p) + if OnWay(s, i, p) then Value(s, v) else 0)
          && t.own[p] == Wrap64(Self(samples, v, p) + if i == 0 && HasLeaf(s) && p == Stack(s) then Value(s, v) else 0))
  }

  /** The times of a finished graph. */
  ghost predicate Finished(t: Times, samples: seq<Sample>, v: nat) {
    && t.own.Keys == t.all.Keys
    && (forall p {:trigger FinishedAt(t, samples, v, p)} :: FinishedAt(t, samples, v, p))
  }

  ghost predicate FinishedAt(t: Times, samples: seq<Sample>, v: nat, p: Path)
    requires t.own.Keys == t.all.Keys
  {
    && (p in t.all <==> Reached(samples, p))
    && (p in t.all ==> t.all[p] == Wrap64(Total(samples, v, p)) && t.own[p] == Wrap64(Self(samples, v, p)))
  }

  /** The flame graph of `samples`: a tree, with exactly the paths and times of the samples. */
  ghost predicate Graph(w: View, samples: seq<Sample>, v: nat)
    reads w.nodes.Values
  {
    Shows(w) && IsTree(w.nodes, w.kids) && Finished(w.times, samples, v)
  }

  // ----- the steps of entering one sample, on times

  lemma OuterStep(s: Sample, i: nat, p: Path)
    requires i < |s.locations|
    ensures s.locations[i].lines == [] ==> Outer(s.locations, i) == Outer(s.locations, i + 1)
    ensures s.locations[i].lines != [] ==>
              var q := Outer(s.locations, i + 1) + [s.locations[i].lines[0].functionName];
              Outer(s.locations, i) == q && (OnWay(s, i, p) <==> OnWay(s, i + 1, p) || p == q)
  {
    if s.locations[i].lines != [] {
      var out := Outer(s.locations, i + 1);
      var q := out + [s.locations[i].lines[0].functionName];
      assert p <= q <==> p <= out || p == q by {
        if p <= q && |p| < |q| { assert q[..|p|] == out[..|p|]; }
        if p <= out { assert q[..|p|] == out[..|p|]; }
      }
    }
  }

  lemma EnterRoot(t: Times, samples: seq<Sample>, v: nat, s: Sample)
    requires Finished(t, samples, v)
    ensures Partial(Visited(t, [], Value(s, v), false), samples, v, s, |s.locations|)
  {
    var t' := Visited(t, [], Value(s, v), false);
    assert FinishedAt(t, samples, v, []);
    assert t'.all.Keys == t.all.Keys && t'.own == t.own;
    WrapAdd(Total(samples, v, []), Value(s, v));
    forall p ensures PartialAt(t', samples, v, s, |s.locations|, p) {
      assert FinishedAt(t, samples, v, p);
    }
  }

  lemma EnterNothing(t: Times, samples: seq<Sample>, v: nat, s: Sample, i: nat)
    requires i < |s.locations| && s.locations[i].lines == []
    requires Partial(t, samples, v, s, i + 1)
    ensures Partial(t, samples, v, s, i)
  {
    forall p ensures PartialAt(t, samples, v, s, i, p) {
      assert PartialAt(t, samples, v, s, i + 1, p);
      OuterStep(s, i, p);
    }
  }

  /** Time already at `q`, which is nothing if there is no such node yet. */
  ghost function Before(times: map<Path, int64>, q: Path): int64 {
    if q in times then times[q] else 0
  }

  /** The times once there is a node at `q`. */
  ghost function Opened(t: Times, q: Path): Times {
    Times(t.all[q := Before(t.all, q)], t.own[q := Before(t.own, q)])
  }

  /** The times after the walk reaches the node at `q`. */
  ghost function Visited(t: Times, q: Path, value: int, leaf: bool): Times {
    Times(t.all[q := Wrap64(Before(t.all, q) + value)],
          t.own[q := if leaf then Wrap64(Before(t.own, q) + value) else Before(t.own, q)])
  }

  lemma EnterHere(t: Times, samples: seq<Sample>, v: nat, s: Sample, i: nat)
    requires i < |s.locations| && s.locations[i].lines != []
    requires Partial(t, samples, v, s, i + 1)
    ensures var q := Outer(s.locations, i);
            && Before(t.all, q) == Wrap64(Total(samples, v, q)) && Before(t.own, q) == Wrap64(Self(samples, v, q))
            && OnWay(s, i, q) && (i == 0 ==> HasLeaf(s) && Stack(s) == q)
  {
    var q := Outer(s.locations, i);
    OuterStep(s, i, q);
    assert !OnWay(s, i + 1, q);
    assert PartialAt(t, samples, v, s, i + 1, q);
    if q !in t.all { NotReachedIsZero(samples, v, q); }
  }

  lemma EnterNode(t: Times, samples: seq<Sample>, v: nat, s: Sample, i: nat)
    requires i < |s.locations| && s.locations[i].lines != []
    requires Partial(t, samples, v, s, i + 1)
    ensures Partial(Visited(t, Outer(s.locations, i), Value(s, v), i == 0), samples, v, s, i)
  {
    var q, value := Outer(s.locations, i), Value(s, v);
    var t' := Visited(t, q, value, i == 0);
    assert t'.all.Keys == t.all.Keys + {q} && t'.own.Keys == t.own.Keys + {q};
    EnterHere(t, samples, v, s, i);
    WrapAdd(Total(samples, v, q), value);
    WrapAdd(Self(samples, v, q), value);
    assert PartialAt(t', samples, v, s, i, q);
    forall p ensures PartialAt(t', samples, v, s, i, p) {
      assert PartialAt(t, samples, v, s, i + 1, p);
      OuterStep(s, i, p);
    }
  }

  lemma Entered(t: Times, samples: seq<Sample>, v: nat, s: Sample)
    requires Partial(t, samples, v, s, 0)
    ensures Finished(t, samples + [s], v)
  {
    var all := samples + [s];
    assert all[..|samples|] == samples;
    forall p ensures FinishedAt(t, all, v, p) {
      assert PartialAt(t, samples, v, s, 0, p);
      ReachedSnoc(samples, s, p);
    }
  }

  // ----- the steps of entering one sample, on the heap

  /** The node got its labels from this line. */
  predicate Bears(node: Node, line: Line) {
    node.functionName == line.functionName && node.fileName == line.fileName && node.line == line.line
  }

  /** The child to go on with: the one with this name, or a new one at the end of the list. */
  method Descend(node: Node, line: Line, ghost w: View, ghost p: Path) returns (child: Node, ghost w': View)
    requires Shows(w) && IsTree(w.nodes, w.kids) && p in w.nodes && w.nodes[p] == node
    modifies node`children
    ensures Shows(w') && IsTree(w'.nodes, w'.kids)
    ensures w'.nodes == w.nodes[p + [line.functionName] := child] && fresh(w'.nodes.Values - w.nodes.Values)
    ensures w'.times == Opened(w.times, p + [line.functionName])
    ensures p + [line.functionName] in w.nodes ==> w.nodes[p + [line.functionName]] == child
    ensures p + [line.functionName] !in w.nodes ==> Bears(child, line)
  {
    ghost var q := p + [line.functionName];
    assert ChildrenAt(w.nodes, w.kids, p) && ShowsAt(w, p);
    ChildListed(w.nodes, w.kids, p, line.functionName);
    var found := node.FindChild(line.functionName);
    if found != null {
      child, w' := found, w;
      assert w'.nodes == w.nodes[q := child];
      assert w'.times == Opened(w.times, q);
    } else {
      child := new Node(line.functionName, line.fileName, line.line);
      node.children := node.children + [child];
      w' := View(w.nodes[q := child], w.kids[p := w.kids[p] + [child]][q := []], Opened(w.times, q));
      GrowKeepsTree(w.nodes, w.kids, p, child);
      OnlyThere(w.nodes, w.kids, p);
      forall r {:trigger ShowsAt(w', r)} | r in w'.nodes ensures ShowsAt(w', r) {
        assert r != q ==> old(ShowsAt(w, r));
      }
    }
  }

  /** Adds a value to one node of a tree. */
  method Charge(child: Node, value: int64, leaf: bool, ghost w: View, ghost q: Path) returns (ghost w': View)
    requires Shows(w) && q in w.nodes && w.nodes[q] == child
    requires forall r :: r in w.nodes && r != q ==> w.nodes[r] != child
    modifies child`nanoseconds, child`selfNanoseconds
    ensures Shows(w') && w' == w.(times := Visited(w.times, q, value, leaf))
  {
    assert ShowsAt(w, q);
    child.nanoseconds := Wrap64(child.nanoseconds + value);
    if leaf {
      child.selfNanoseconds := Wrap64(child.selfNanoseconds + value);
    }
    w' := w.(times := Visited(w.times, q, value, leaf));
    forall r {:trigger ShowsAt(w', r)} | r in w'.nodes ensures ShowsAt(w', r) {
      assert old(ShowsAt(w, r));
    }
  }

  /** One step of the walk: to the child of this name, which gets the value. */
  method Visit(node: Node, line: Line, value: int64, leaf: bool, ghost w: View, ghost p: Path)
    returns (child: Node, ghost w': View)
    requires Shows(w) && IsTree(w.nodes, w.kids) && p in w.nodes && w.nodes[p] == node
    modifies w.nodes.Values
    ensures Shows(w') && IsTree(w'.nodes, w'.kids)
    ensures w'.nodes == w.nodes[p + [line.functionName] := child] && fresh(w'.nodes.Values - w.nodes.Values)
    ensures w'.times == Visited(w.times, p + [line.functionName], value, leaf)
    ensures p + [line.functionName] in w.nodes ==> w.nodes[p + [line.functionName]] == child
    ensures p + [line.functionName] !in w.nodes ==> Bears(child, line)
  {
    ghost var q := p + [line.functionName];
    child, w' := Descend(node, line, w, p);
    OnlyThere(w'.nodes, w'.kids, q);
    w' := Charge(child, value, leaf, w', q);
    VisitedAfterOpening(w.times, q, value, leaf);
  }

  lemma VisitedAfterOpening(t: Times, q: Path, value: int, leaf: bool)
    ensures Visited(Opened(t, q), q, value, leaf) == Visited(t, q, value, leaf)
  {
  }

  /** The labels of the node at `p` are those of the location of `s` that its stack reaches `p` with. */
  ghost predicate LabelledBy(node: Node, s: Sample, p: Path) {
    exists i :: 0 <= i < |s.locations| && LabelledAt(node, s, p, i)
  }

  predicate LabelledAt(node: Node, s: Sample, p: Path, i: nat)
    requires i < |s.locations|
  {
    s.locations[i].lines != [] && Outer(s.locations, i) == p && Bears(node, s.locations[i].lines[0])
  }

  ghost predicate NewLabelled(w: View, w': View, s: Sample) {
    forall p {:trigger NewLabelledAt(w, w', s, p)} :: NewLabelledAt(w, w', s, p)
  }

  ghost predicate NewLabelledAt(w: View, w': View, s: Sample, p: Path) {
    p in w'.nodes && p !in w.nodes ==> LabelledBy(w'.nodes[p], s, p)
  }

  lemma Compose(w0: View, w1: View, w2: View, s: Sample)
    requires KeepsNodes(w0, w1) && KeepsNodes(w1, w2) && NewLabelled(w0, w1, s) && NewLabelled(w1, w2, s)
    ensures KeepsNodes(w0, w2) && NewLabelled(w0, w2, s)
  {
    forall p {:trigger NewLabelledAt(w0, w2, s, p)} ensures NewLabelledAt(w0, w2, s, p) {
      assert NewLabelledAt(w0, w1, s, p) && NewLabelledAt(w1, w2, s, p);
    }
  }

  /** One location of the walk. One that was not symbolised is passed over. */
  method Pass(node: Node, s: Sample, v: nat, i: nat, ghost samples: seq<Sample>, ghost w0: View, ghost w: View)
    returns (child: Node, ghost w': View)
    requires i < |s.locations| && v < |s.values| && Shows(w) && IsTree(w.nodes, w.kids)
    requires Partial(w.times, samples, v, s, i + 1)
    requires Outer(s.locations, i + 1) in w.nodes && w.nodes[Outer(s.locations, i + 1)] == node
    requires KeepsNodes(w0, w) && NewLabelled(w0, w, s)
    modifies w.nodes.Values
    ensures Shows(w') && IsTree(w'.nodes, w'.kids) && Partial(w'.times, samples, v, s, i)
    ensures Outer(s.locations, i) in w'.nodes && w'.nodes[Outer(s.locations, i)] == child
    ensures KeepsNodes(w0, w') && NewLabelled(w0, w', s) && fresh(w'.nodes.Values - w.nodes.Values)
  {
    OuterStep(s, i, []);
    if s.locations[i].lines == [] {
      EnterNothing(w.times, samples, v, s, i);
      child, w' := node, w;
    } else {
      EnterNode(w.times, samples, v, s, i);
      child, w' := Visit(node, s.locations[i].lines[0], s.values[v], i == 0, w, Outer(s.locations, i + 1));
      assert Bears(child, s.locations[i].lines[0]) ==> LabelledAt(child, s, Outer(s.locations, i), i);
      Compose(w0, w, w', s);
    }
  }

  /** The walk from the root along one sample's stack: it adds the value to every node it passes. */
  method Walk(root: Node, s: Sample, v: nat, ghost samples: seq<Sample>, ghost w: View) returns (ghost w': View)
    requires Shows(w) && IsTree(w.nodes, w.kids) && w.nodes[[]] == root && v < |s.values|
    requires Partial(w.times, samples, v, s, |s.locations|)
    modifies w.nodes.Values
    ensures Shows(w') && IsTree(w'.nodes, w'.kids) && Partial(w'.times, samples, v, s, 0)
    ensures KeepsNodes(w, w') && NewLabelled(w, w', s) && fresh(w'.nodes.Values - w.nodes.Values)
  {
    var node := root;
    var i := |s.locations|;
    w' := w;
    while i > 0
      invariant 0 <= i <= |s.locations|
      invariant Shows(w') && IsTree(w'.nodes, w'.kids) && Partial(w'.times, samples, v, s, i)
      invariant Outer(s.locations, i) in w'.nodes && w'.nodes[Outer(s.locations, i)] == node
      invariant KeepsNodes(w, w') && NewLabelled(w, w', s) && fresh(w'.nodes.Values - w.nodes.Values)
    {
      i := i - 1;
      node, w' := Pass(node, s, v, i, samples, w, w');
    }
  }

  /** Enters one sample, from the root on. */
  method AddSample(root: Node, s: Sample, v: nat, ghost samples: seq<Sample>, ghost w: View) returns (ghost w': View)
    requires Graph(w, samples, v) && w.nodes[[]] == root && v < |s.values|
    modifies w.nodes.Values
    ensures Graph(w', samples + [s], v) && [] in w'.nodes && w'.nodes[[]] == root
    ensures fresh(w'.nodes.Values - w.nodes.Values)
    ensures KeepsNodes(w, w') && NewLabelled(w, w', s) && AddsSample(w.times, w'.times, s, v)
  {
    OnlyThere(w.nodes, w.kids, []);
    ghost var w1 := Charge(root, s.values[v], false, w, []);
    EnterRoot(w.times, samples, v, s);
    w' := Walk(root, s, v, samples, w1);
    Compose(w, w1, w', s);
    Entered(w'.times, samples, v, s);
    SampleAdded(w.times, w'.times, samples, v, s);
  }

  /** Nodes stay where they are. */
  ghost predicate KeepsNodes(w: View, w': View) {
    forall p :: p in w.nodes ==> p in w'.nodes && w'.nodes[p] == w.nodes[p]
  }

  /** The sample's value at `v` is added, as an int64, on its stack and nowhere else; a new node
      starts from nothing. */
  ghost predicate AddsSample(t: Times, t': Times, s: Sample, v: nat)
    requires v < |s.values|
  {
    && t.own.Keys == t.all.Keys && t'.own.Keys == t'.all.Keys
    && (forall p :: p in t'.all <==> p in t.all || p <= Stack(s))
    && (forall p {:trigger AddsAt(t, t', s, v, p)} :: p in t'.all ==> AddsAt(t, t', s, v, p))
  }

  ghost predicate AddsAt(t: Times, t': Times, s: Sample, v: nat, p: Path)
    requires v < |s.values| && p in t'.all && t'.own.Keys == t'.all.Keys
  {
    && t'.all[p] == Wrap64(Before(t.all, p) + if p <= Stack(s) then s.values[v] else 0)
    && t'.own[p] == Wrap64(Before(t.own, p) + if p == Stack(s) && s.locations != [] && s.locations[0].lines != []
                                              then s.values[v] else 0)
  }

  lemma SampleAdded(t: Times, t': Times, samples: seq<Sample>, v: nat, s: Sample)
    requires v < |s.values| && Finished(t, samples, v) && Finished(t', samples + [s], v)
    ensures AddsSample(t, t', s, v)
  {
    forall p ensures p in t'.all <==> p in t.all || p <= Stack(s) {
      assert FinishedAt(t, samples, v, p) && FinishedAt(t', samples + [s], v, p);
      ReachedSnoc(samples, s, p);
    }
    forall p {:trigger AddsAt(t, t', s, v, p)} | p in t'.all ensures AddsAt(t, t', s, v, p) {
      AddedAt(t, t', samples, v, s, p);
    }
  }

  lemma AddedAt(t: Times, t': Times, samples: seq<Sample>, v: nat, s: Sample, p: Path)
    requires v < |s.values| && Finished(t, samples, v) && Finished(t', samples + [s], v) && p in t'.all
    ensures AddsAt(t, t', s, v, p)
  {
    OneMoreSample(samples, s, v, p);
    BeforeIs(t, samples, v, p);
    assert FinishedAt(t', samples + [s], v, p);
    var onStack := if p <= Stack(s) then s.values[v] else 0;
    var atLeaf := if p == Stack(s) && s.locations != [] && s.locations[0].lines != [] then s.values[v] else 0;
    WrapOnce(Before(t.all, p), Total(samples, v, p), onStack, t'.all[p]);
    WrapOnce(Before(t.own, p), Self(samples, v, p), atLeaf, t'.own[p]);
  }

  lemma WrapOnce(before: int64, exact: int, more: int, after: int64)
    requires before == Wrap64(exact) && after == Wrap64(exact + more)
    ensures after == Wrap64(before + more)
  {
    WrapAdd(exact, more);
  }

  lemma BeforeIs(t: Times, samples: seq<Sample>, v: nat, p: Path)
    requires Finished(t, samples, v)
    ensures Before(t.all, p) == Wrap64(Total(samples, v, p)) && Before(t.own, p) == Wrap64(Self(samples, v, p))
  {
    assert FinishedAt(t, samples, v, p);
    if p !in t.all { NotReachedIsZero(samples, v, p); }
  }

  /** Every node but the root has its labels from the first sample that reached it. */
  ghost predicate AllLabelled(w: View, samples: seq<Sample>) {
    forall p :: p in w.nodes && p != [] ==> FirstLabelled(w.nodes[p], samples, p)
  }

  ghost predicate FirstLabelled(node: Node, samples: seq<Sample>, p: Path) {
    exists k :: 0 <= k < |samples| && LabelledFirst(node, samples, p, k)
  }

  ghost predicate LabelledFirst(node: Node, samples: seq<Sample>, p: Path, k: nat)
    requires k < |samples|
  {
    !Reached(samples[..k], p) && LabelledBy(node, samples[k], p)
  }

  lemma LabelledSnoc(w: View, w': View, samples: seq<Sample>, s: Sample, v: nat)
    requires Finished(w.times, samples, v) && w.times.all.Keys == w.nodes.Keys
    requires AllLabelled(w, samples) && KeepsNodes(w, w') && NewLabelled(w, w', s)
    ensures AllLabelled(w', samples + [s])
  {
    var all := samples + [s];
    forall p | p in w'.nodes && p != [] ensures FirstLabelled(w'.nodes[p], all, p) {
      if p in w.nodes {
        var k :| 0 <= k < |samples| && LabelledFirst(w.nodes[p], samples, p, k);
        assert all[..k] == samples[..k];
        assert LabelledFirst(w'.nodes[p], all, p, k);
      } else {
        assert FinishedAt(w.times, samples, v, p) && NewLabelledAt(w, w', s, p);
        assert all[..|samples|] == samples;
        assert LabelledFirst(w'.nodes[p], all, p, |samples|);
      }
    }
  }

  predicate IsCpuTime(t: SampleType) {
    t.kind == "cpu" && t.unit == "nanoseconds"
  }

  /** The graph of a profile, or nothing if it holds no CPU times. Every sample has one value
      per sample type, which is what makes a profile valid. */
  method CreateFlameGraph(profile: Profile) returns (root: Node?, ghost v: nat, ghost w: View)
    requires forall i :: 0 <= i < |profile.samples| ==> |profile.samples[i].values| == |profile.sampleTypes|
    ensures root == null <==>
            forall i :: 0 <= i < |profile.sampleTypes| ==> profile.sampleTypes[i] != SampleType("cpu", "nanoseconds")
    ensures root != null ==>
              && v < |profile.sampleTypes| && profile.sampleTypes[v] == SampleType("cpu", "nanoseconds")
              && (forall i :: 0 <= i < v ==> profile.sampleTypes[i] != SampleType("cpu", "nanoseconds"))
              && Graph(w, profile.samples, v) && [] in w.nodes && w.nodes[[]] == root
              && AllMeasured(profile.samples, v)
              && AllLabelled(w, profile.samples)
              && root.nanoseconds == Wrap64(SumOfValues(profile.samples, v)) && root.functionName == "root"
  {
    var cpuTimeIdx := -1;
    for idx := 0 to |profile.sampleTypes|
      invariant cpuTimeIdx == -1
      invariant forall i :: 0 <= i < idx ==> !IsCpuTime(profile.sampleTypes[i])
    {
      if IsCpuTime(profile.sampleTypes[idx]) {
        cpuTimeIdx := idx;
        break;
      }
    }
    if cpuTimeIdx < 0 {
      return null, 0, View(map[], map[], Times(map[], map[]));
    }
    var node := new Node("root", "", 0);
    v := cpuTimeIdx;
    w := View(map[[] := node], map[[] := []], Times(map[[] := 0], map[[] := 0]));
    EmptyGraph(w, v);
    for k := 0 to |profile.samples|
      invariant Graph(w, profile.samples[..k], v) && [] in w.nodes && w.nodes[[]] == node
      invariant AllLabelled(w, profile.samples[..k])
      invariant fresh(w.nodes.Values)
    {
      assert profile.samples[..k + 1] == profile.samples[..k] + [profile.samples[k]];
      ghost var w0 := w;
      w := AddSample(node, profile.samples[k], cpuTimeIdx, profile.samples[..k], w);
      LabelledSnoc(w0, w, profile.samples[..k], profile.samples[k], v);
    }
    assert profile.samples[..|profile.samples|] == profile.samples;
    root := node;
    RootTotal(profile.samples, v);
    GraphSays(w, profile.samples, v, []);
  }

  lemma EmptyGraph(w: View, v: nat)
    requires w.nodes.Keys == {[]} && Shows(w)
    requires w.kids == map[[] := []] && w.times == Times(map[[] := 0], map[[] := 0])
    ensures Graph(w, [], v)
  {
    forall p ensures FinishedAt(w.times, [], v, p) {
      assert p in w.times.all <==> p == [];
    }
  }

  // ----- what a finished graph says

  /** There is a node for a path if and only if some sample's stack begins with it, and it
      holds the time below the path and the time in the path itself. */
  lemma GraphSays(w: View, samples: seq<Sample>, v: nat, p: Path)
    requires Graph(w, samples, v)
    ensures p in w.nodes <==> Reached(samples, p)
    ensures p in w.nodes ==>
              && w.nodes[p].nanoseconds == Wrap64(Total(samples, v, p))
              && w.nodes[p].selfNanoseconds == Wrap64(Self(samples, v, p))
  {
    assert FinishedAt(w.times, samples, v, p);
    if p in w.nodes { assert ShowsAt(w, p); }
  }

  /** Every child has one place: it is in no other child list and not twice in its own, no sibling
      has its name, and it is none of the nodes above it, so neither the root nor an ancestor. */
  lemma GraphIsTree(w: View, samples: seq<Sample>, v: nat, p: Path, i: nat)
    requires Graph(w, samples, v) && p in w.nodes && i < |w.nodes[p].children|
    ensures var children := w.nodes[p].children;
            && (forall q, j ::
                  q in w.nodes && 0 <= j < |w.nodes[q].children| && w.nodes[q].children[j] == children[i] ==>
                    q == p && j == i)
            && (forall j :: 0 <= j < |children| && j != i ==> children[j].functionName != children[i].functionName)
            && (forall r :: r in w.nodes && r <= p ==> w.nodes[r] != children[i])
  {
    var name := w.nodes[p].children[i].functionName;
    assert ShowsAt(w, p) && ChildrenAt(w.nodes, w.kids, p);
    forall q, j | q in w.nodes && 0 <= j < |w.nodes[q].children| && w.nodes[q].children[j] == w.nodes[p].children[i]
      ensures q == p && j == i
    {
      assert ShowsAt(w, q) && ChildrenAt(w.nodes, w.kids, q);
      assert w.nodes[p + [name]] == w.nodes[q + [name]];
      assert ApartAt(w.nodes, p + [name], q + [name]);
      assert p == (p + [name])[..|p|] && q == (q + [name])[..|q|];
    }
    forall r | r in w.nodes && r <= p ensures w.nodes[r] != w.nodes[p].children[i] {
      assert w.nodes[p + [name]] == w.nodes[p].children[i];
      assert ApartAt(w.nodes, r, p + [name]);
      assert |r| < |p + [name]|;
    }
  }

  /** And every path is followed by links: a node one step further is the child of that name. */
  lemma PathsAreLinks(w: View, samples: seq<Sample>, v: nat, p: Path, name: string)
    requires Graph(w, samples, v) && p in w.nodes
    ensures p + [name] in w.nodes <==>
            exists i :: 0 <= i < |w.nodes[p].children| && w.nodes[p].children[i].functionName == name
    ensures forall i :: 0 <= i < |w.nodes[p].children| && w.nodes[p].children[i].functionName == name ==>
                          p + [name] in w.nodes && w.nodes[p + [name]] == w.nodes[p].children[i]
  {
    assert ShowsAt(w, p) && ChildrenAt(w.nodes, w.kids, p);
    ChildListed(w.nodes, w.kids, p, name);
  }

  function Names(children: seq<Node>): (names: seq<string>)
    ensures |names| == |children|
    ensures forall i :: 0 <= i < |children| ==> names[i] == children[i].functionName
  {
    if children == [] then [] else [children[0].functionName] + Names(children[1..])
  }

  function SumNanoseconds(children: seq<Node>): int
    reads children
  {
    if children == [] then 0 else SumNanoseconds(children[1..]) + children[0].nanoseconds
  }

  lemma {:induction false} SumIsTotal(children: seq<Node>, samples: seq<Sample>, v: nat, p: Path)
    requires forall i :: 0 <= i < |children| ==>
               children[i].nanoseconds == Wrap64(Total(samples, v, p + [children[i].functionName]))
    ensures Wrap64(SumNanoseconds(children)) == Wrap64(SumOver(Names(children), samples, v, p))
  {
    if children == [] {
    } else {
      SumIsTotal(children[1..], samples, v, p);
      var rest := SumOver(Names(children[1..]), samples, v, p);
      var total := Total(samples, v, p + [children[0].functionName]);
      assert Names(children)[1..] == Names(children[1..]);
      WrapAdd(SumNanoseconds(children[1..]), children[0].nanoseconds);
      WrapAdd(rest, Wrap64(total));
      WrapAdd(total, rest);
    }
  }

  lemma ChildrenAreCallees(w: View, samples: seq<Sample>, v: nat, p: Path)
    requires Graph(w, samples, v) && p in w.nodes
    ensures Distinct(Names(w.nodes[p].children)) && Callees(Names(w.nodes[p].children), samples, p)
  {
    var names := Names(w.nodes[p].children);
    assert ShowsAt(w, p) && ChildrenAt(w.nodes, w.kids, p);
    forall k | 0 <= k < |samples| ensures CalleeIn(names, samples[k], p) {
      if p < Stack(samples[k]) {
        var name := Stack(samples[k])[|p|];
        assert p + [name] <= Stack(samples[k]);
        assert FinishedAt(w.times, samples, v, p + [name]);
        ChildListed(w.nodes, w.kids, p, name);
      }
    }
  }

  lemma ChildrenSum(w: View, samples: seq<Sample>, v: nat, p: Path)
    requires Graph(w, samples, v) && p in w.nodes
    ensures var children := w.nodes[p].children;
            Wrap64(SumNanoseconds(children)) == Wrap64(SumOver(Names(children), samples, v, p))
  {
    var n := w.nodes[p];
    assert ShowsAt(w, p) && ChildrenAt(w.nodes, w.kids, p);
    forall i | 0 <= i < |n.children|
      ensures n.children[i].nanoseconds == Wrap64(Total(samples, v, p + [n.children[i].functionName]))
    {
      GraphSays(w, samples, v, p + [n.children[i].functionName]);
    }
    SumIsTotal(n.children, samples, v, p);
  }

  /** At every node: its time is its own time, its children's times and what was cut off there. */
  lemma NodeBalanced(w: View, samples: seq<Sample>, v: nat, p: Path)
    requires Graph(w, samples, v) && p in w.nodes
    ensures var n := w.nodes[p];
            n.nanoseconds == Wrap64(n.selfNanoseconds + SumNanoseconds(n.children) + Cut(samples, v, p))
  {
    var n := w.nodes[p];
    GraphSays(w, samples, v, p);
    ChildrenAreCallees(w, samples, v, p);
    TimeConserved(Names(n.children), samples, v, p);
    ChildrenSum(w, samples, v, p);
    WrapBalance(Self(samples, v, p), SumNanoseconds(n.children),
                SumOver(Names(n.children), samples, v, p), Cut(samples, v, p));
  }

  lemma WrapBalance(self: int, sum: int, total: int, cut: int)
    requires Wrap64(sum) == Wrap64(total)
    ensures Wrap64(self + total + cut) == Wrap64(Wrap64(self) + sum + cut)
  {
    WrapAdd(self, sum + cut);
    WrapAdd(sum, self + cut);
    WrapAdd(total, self + cut);
  }

  ghost function SumOwn(paths: set<Path>, own: map<Path, int64>): int
    requires paths <= own.Keys
  {
    if paths == {} then 0
    else
      var p :| p in paths;
      SumOwn(paths - {p}, own) + own[p]
  }

  lemma {:induction false} SumOwnIsSelf(paths: set<Path>, t: Times, samples: seq<Sample>, v: nat)
    requires Finished(t, samples, v) && paths <= t.own.Keys
    ensures Wrap64(SumOwn(paths, t.own)) == Wrap64(SelfSum(paths, samples, v))
    decreases |paths|
  {
    if paths != {} {
      var p :| p in paths && SumOwn(paths, t.own) == SumOwn(paths - {p}, t.own) + t.own[p];
      SumOwnIsSelf(paths - {p}, t, samples, v);
      SelfSumPick(paths, p, samples, v);
      assert FinishedAt(t, samples, v, p);
      WrapBalance(Self(samples, v, p), SumOwn(paths - {p}, t.own), SelfSum(paths - {p}, samples, v), 0);
      WrapAdd(Self(samples, v, p), SumOwn(paths - {p}, t.own));
    } else {
      assert SelfSum(paths, samples, v) == 0;
    }
  }

  /** If every sample has a symbolised leaf, the own times in the whole tree add up to the root's time. */
  lemma TreeBalanced(w: View, samples: seq<Sample>, v: nat)
    requires Graph(w, samples, v) && forall s <- samples :: HasLeaf(s)
    ensures [] in w.nodes && w.nodes[[]].nanoseconds == Wrap64(SumOwn(w.times.own.Keys, w.times.own))
  {
    forall s | s in samples ensures Stack(s) in w.times.own.Keys {
      assert FinishedAt(w.times, samples, v, Stack(s));
      var k :| 0 <= k < |samples| && samples[k] == s;
      assert Stack(s) <= Stack(samples[k]);
    }
    SelfTimesAddUp(w.times.own.Keys, samples, v);
    SumOwnIsSelf(w.times.own.Keys, w.times, samples, v);
    GraphSays(w, samples, v, []);
  }
}

/** The import graph and its reachability relation: what "import cycle" means. */
module ImportGraph {
  import opened Names

  type Graph = map<Name, set<Name>>

  // `_module_imports` records only targets among the known modules.
  ghost predicate ClosedGraph(g: Graph) {
    forall x :: x in g ==> g[x] <= g.Keys
  }

  // `_module_imports` never records a module as its own target.
  ghost predicate NoSelfImport(g: Graph) {
    forall x :: x in g ==> x !in g[x]
  }

  ghost predicate Walk(g: Graph, p: seq<Name>) {
    forall i :: 0 <= i < |p| - 1 ==> p[i] in g && p[i + 1] in g[p[i]]
  }

  ghost predicate WalkFromTo(g: Graph, p: seq<Name>, x: Name, y: Name) {
    |p| > 0 && p[0] == x && p[|p| - 1] == y && Walk(g, p)
  }

  ghost predicate Reach(g: Graph, x: Name, y: Name) {
    exists p :: WalkFromTo(g, p, x, y)
  }

  // The strongly connected component of x.
  ghost function Component(g: Graph, x: Name): set<Name> {
    set y | y in g.Keys && Reach(g, x, y) && Reach(g, y, x)
  }

  ghost predicate Acyclic(g: Graph) {
    forall p :: |p| > 1 && Walk(g, p) ==> p[0] != p[|p| - 1]
  }

  ghost predicate ClosedUnder(g: Graph, s: set<Name>) {
    forall x, y :: x in s && x in g && y in g[x] ==> y in s
  }

  lemma ReachRefl(g: Graph, x: Name)
    ensures Reach(g, x, x)
  {
    assert WalkFromTo(g, [x], x, x);
  }

  lemma ReachEdge(g: Graph, x: Name, y: Name)
    requires x in g && y in g[x]
    ensures Reach(g, x, y)
  {
    assert WalkFromTo(g, [x, y], x, y);
  }

  lemma ReachTrans(g: Graph, x: Name, y: Name, z: Name)
    requires Reach(g, x, y) && Reach(g, y, z)
    ensures Reach(g, x, z)
  {
    var p :| WalkFromTo(g, p, x, y);
    var q :| WalkFromTo(g, q, y, z);
    var r := p + q[1..];
    assert forall i :: 0 <= i < |q| ==> r[|p| - 1 + i] == q[i];
    forall i | 0 <= i < |r| - 1 ensures r[i] in g && r[i + 1] in g[r[i]] {
      if i >= |p| - 1 {
        var j := i - (|p| - 1);
        assert r[i] == q[j] && r[i + 1] == q[j + 1];
      }
    }
    assert WalkFromTo(g, r, x, z);
  }

  // A set closed under edges keeps everything it reaches.
  lemma ReachStaysInside(g: Graph, s: set<Name>, x: Name, y: Name)
    requires ClosedUnder(g, s) && x in s && Reach(g, x, y)
    ensures y in s
  {
    var p :| WalkFromTo(g, p, x, y);
    var i := 0;
    while i < |p| - 1
      invariant 0 <= i < |p| && p[i] in s
    {
      assert p[i + 1] in g[p[i]];
      i := i + 1;
    }
  }

  lemma ComponentShared(g: Graph, x: Name, y: Name)
    requires y in Component(g, x)
    ensures Component(g, x) == Component(g, y)
  {
    forall z | z in g.Keys
      ensures z in Component(g, x) <==> z in Component(g, y)
    {
      if z in Component(g, x) {
        ReachTrans(g, y, x, z);
        ReachTrans(g, z, x, y);
      }
      if z in Component(g, y) {
        ReachTrans(g, x, y, z);
        ReachTrans(g, z, y, x);
      }
    }
  }
}

/**
 Tarjan's strongly connected components as `_import_cycles` runs it: a recursive
 visit over explicit `index`, `low`, `stack`, `on_stack` and `components`.
 */
module ImportCycles {
  import opened Names
  import opened ImportGraph

  // The values of the visit's variables at one moment, the low-links aside.
  datatype State = State(
    index: map<Name, nat>,
    stack: seq<Name>,
    onStack: set<Name>,
    counter: nat,
    components: seq<seq<Name>>)
  {
    // Visited and already popped.
    ghost function Done(): set<Name> {
      index.Keys - onStack
    }

    // The stack entries from index n upward.
    ghost function From(n: nat): set<Name> {
      set x | x in onStack && x in index && n <= index[x]
    }
  }

  ghost function Elements(s: seq<Name>): set<Name> {
    set x | x in s
  }

  // The bookkeeping: stack and `on_stack` agree, indexes grow up the stack.
  ghost predicate Shape(g: Graph, s: State) {
    && s.index.Keys <= g.Keys
    && s.onStack == Elements(s.stack)
    && s.onStack <= s.index.Keys
    && (forall x :: x in s.index ==> s.index[x] < s.counter)
    && (forall i, j :: 0 <= i < j < |s.stack| ==> s.index[s.stack[i]] < s.index[s.stack[j]])
  }

  // Some module still being visited lies at or below y and is reachable from it.
  ghost predicate Anchored(g: Graph, s: State, gray: set<Name>, y: Name)
    requires gray <= s.index.Keys && y in s.index
  {
    exists x :: x in gray && s.index[x] <= s.index[y] && Reach(g, y, x)
  }

  // Lower stack entries reach higher ones, and every entry reaches a gray one below it.
  ghost predicate Linked(g: Graph, s: State, gray: set<Name>)
    requires s.onStack <= s.index.Keys
  {
    && gray <= s.onStack
    && (forall x, y {:trigger Reach(g, x, y)} ::
          x in s.onStack && y in s.onStack && s.index[x] <= s.index[y] ==> Reach(g, x, y))
    && (forall y {:trigger Anchored(g, s, gray, y)} :: y in s.onStack ==> Anchored(g, s, gray, y))
  }

  // Finished modules have only visited successors; popped ones only popped successors.
  ghost predicate Explored(g: Graph, s: State, gray: set<Name>)
    requires s.index.Keys <= g.Keys
  {
    && (forall x :: x in s.index && x !in gray ==> g[x] <= s.index.Keys)
    && ClosedUnder(g, s.Done())
  }

  ghost predicate ReportsComponentOf(g: Graph, s: State, x: Name) {
    exists c :: c in s.components && Elements(c) == Component(g, x)
  }

  ghost predicate CameFromComponent(g: Graph, s: State, c: seq<Name>) {
    exists x :: x in s.Done() && Elements(c) == Component(g, x)
  }

  // The components found so far are exactly the large ones among the popped modules.
  ghost predicate Reported(g: Graph, s: State) {
    && (forall c :: c in s.components ==> Increasing(c) && |c| > 1 && CameFromComponent(g, s, c))
    && (forall x :: x in s.Done() && |Component(g, x)| > 1 ==> ReportsComponentOf(g, s, x))
    && (forall i, j :: 0 <= i < j < |s.components| ==> Elements(s.components[i]) !! Elements(s.components[j]))
  }

  ghost predicate Sound(g: Graph, s: State, gray: set<Name>) {
    && Shape(g, s)
    && Linked(g, s, gray)
    && Explored(g, s, gray)
    && Reported(g, s)
  }

  // What a visit leaves untouched.
  ghost predicate Extends(s: State, t: State) {
    && s.index.Keys <= t.index.Keys
    && (forall x :: x in s.index ==> t.index[x] == s.index[x])
    && (forall x :: x in s.index ==> (x in t.onStack <==> x in s.onStack))
    && (forall x :: x in t.index && x !in s.index ==> s.counter <= t.index[x])
    && s.counter <= t.counter
    && s.stack <= t.stack
  }

  // `bound` undercuts the index of every entry of `base` that is one edge away from
  // a stack entry at index `from` or higher, those in `except` aside.
  ghost predicate Covers(g: Graph, base: set<Name>, t: State, from: nat, except: set<Name>, bound: nat) {
    forall x, y :: x in t.From(from) - except && x in g && y in g[x] && y in base && y in t.index
      ==> bound <= t.index[y]
  }

  // b, a low-link of v, is the index of a stack entry that v reaches.
  ghost predicate LowWitness(g: Graph, t: State, v: Name, b: nat) {
    exists y :: y in t.onStack && y in t.index && t.index[y] == b && Reach(g, v, y)
  }

  // What a visit of v, ending with low-link b, promises its caller.
  ghost predicate VisitedLow(g: Graph, s: State, t: State, v: Name, b: nat) {
    && v in t.index && s.counter <= t.index[v] && b <= t.index[v]
    && (v in t.onStack ==> LowWitness(g, t, v, b))
    && (v !in t.onStack ==> b == t.index[v])
    && Covers(g, s.onStack, t, s.counter, {}, b)
  }

  function Pushed(s: State, v: Name): State {
    s.(index := s.index[v := s.counter], stack := s.stack + [v], onStack := s.onStack + {v}, counter := s.counter + 1)
  }

  lemma ReportedFrame(g: Graph, s: State, t: State)
    requires Reported(g, s) && t.Done() == s.Done() && t.components == s.components
    ensures Reported(g, t)
  {
    forall c | c in t.components ensures CameFromComponent(g, t, c) {
      assert CameFromComponent(g, s, c);
    }
    forall x | x in t.Done() && |Component(g, x)| > 1 ensures ReportsComponentOf(g, t, x) {
      assert ReportsComponentOf(g, s, x);
    }
  }

  lemma PushKeepsLinked(g: Graph, s: State, gray: set<Name>, v: Name)
    requires Shape(g, s) && Linked(g, s, gray) && v !in s.index
    requires forall x :: x in gray ==> Reach(g, x, v)
    ensures Linked(g, Pushed(s, v), gray + {v})
  {
    var t := Pushed(s, v);
    ReachRefl(g, v);
    forall x, y | x in t.onStack && y in t.onStack && t.index[x] <= t.index[y]
      ensures Reach(g, x, y)
    {
      if x != v && y == v {
        assert Anchored(g, s, gray, x);
        var a :| a in gray && s.index[a] <= s.index[x] && Reach(g, x, a);
        ReachTrans(g, x, a, v);
      }
    }
    forall y {:trigger Anchored(g, t, gray + {v}, y)} | y in t.onStack ensures Anchored(g, t, gray + {v}, y) {
      if y != v {
        assert Anchored(g, s, gray, y);
      }
    }
  }

  lemma PushKeepsExplored(g: Graph, s: State, gray: set<Name>, v: Name)
    requires Shape(g, s) && Explored(g, s, gray) && v in g && v !in s.index
    ensures Shape(g, Pushed(s, v)) && Explored(g, Pushed(s, v), gray + {v})
    ensures Pushed(s, v).Done() == s.Done()
  {
    var t := Pushed(s, v);
    assert forall x :: x in t.stack <==> x in s.stack || x == v;
    assert t.Done() == s.Done();
  }

  lemma PushKeepsSound(g: Graph, s: State, gray: set<Name>, v: Name)
    requires Sound(g, s, gray) && v in g && v !in s.index
    requires forall x :: x in gray ==> Reach(g, x, v)
    ensures Sound(g, Pushed(s, v), gray + {v})
  {
    PushKeepsExplored(g, s, gray, v);
    PushKeepsLinked(g, s, gray, v);
    ReportedFrame(g, s, Pushed(s, v));
  }

  // Every edge out of v has been followed, and no gray module lies above v.
  ghost predicate Exhausted(g: Graph, s: State, gray: set<Name>, v: Name)
    requires Shape(g, s)
  {
    && v in g && v in s.onStack && g[v] <= s.index.Keys
    && gray <= s.index.Keys
    && (forall x :: x in gray ==> s.index[x] < s.index[v])
  }

  lemma Anchor(g: Graph, s: State, gray: set<Name>, y: Name) returns (x: Name)
    requires s.onStack <= s.index.Keys && Linked(g, s, gray) && y in s.onStack
    ensures x in gray && s.index[x] <= s.index[y] && Reach(g, y, x)
  {
    assert Anchored(g, s, gray, y);
    x :| x in gray && s.index[x] <= s.index[y] && Reach(g, y, x);
  }

  // When the low-link is v's own index, no edge leaves the popped part downward.
  lemma PoppedPartIsClosed(g: Graph, s: State, gray: set<Name>, v: Name)
    requires Shape(g, s) && Explored(g, s, gray + {v}) && Exhausted(g, s, gray, v)
    requires Covers(g, s.onStack - s.From(s.index[v]), s, s.index[v], {}, s.index[v])
    ensures ClosedUnder(g, s.Done() + s.From(s.index[v]))
  {
    var part := s.From(s.index[v]);
    forall x, y | x in s.Done() + part && x in g && y in g[x]
      ensures y in s.Done() + part
    {
      if x in part {
        assert x == v || x !in gray + {v};
        assert y in s.index;
      }
    }
  }

  lemma PoppedPartIsConnected(g: Graph, s: State, gray: set<Name>, v: Name, x: Name)
    requires Shape(g, s) && Linked(g, s, gray + {v}) && Exhausted(g, s, gray, v)
    requires x in s.From(s.index[v])
    ensures Reach(g, v, x) && Reach(g, x, v)
  {
    var a := Anchor(g, s, gray + {v}, x);
    ReachTrans(g, x, a, v);
  }

  lemma PoppedPartIsMaximal(g: Graph, s: State, v: Name, x: Name)
    requires Shape(g, s) && v in s.onStack && ClosedUnder(g, s.Done())
    requires ClosedUnder(g, s.Done() + s.From(s.index[v]))
    requires Reach(g, v, x) && Reach(g, x, v)
    ensures x in s.From(s.index[v])
  {
    ReachStaysInside(g, s.Done() + s.From(s.index[v]), v, x);
    if x in s.Done() {
      ReachStaysInside(g, s.Done(), x, v);
    }
  }

  // The popped part is one strongly connected component, the whole of it.
  lemma PoppedPartIsComponent(g: Graph, s: State, gray: set<Name>, v: Name)
    requires Shape(g, s) && Linked(g, s, gray + {v}) && Exhausted(g, s, gray, v)
    requires ClosedUnder(g, s.Done()) && ClosedUnder(g, s.Done() + s.From(s.index[v]))
    ensures s.From(s.index[v]) == Component(g, v)
  {
    forall x | x in s.From(s.index[v]) ensures x in Component(g, v) {
      PoppedPartIsConnected(g, s, gray, v, x);
    }
    forall x | x in Component(g, v) ensures x in s.From(s.index[v]) {
      PoppedPartIsMaximal(g, s, v, x);
    }
  }

  // The same state after v's component has left the stack and, if large, been recorded.
  ghost predicate Popped(s: State, t: State, v: Name, c: seq<Name>)
    requires v in s.index
  {
    && t.index == s.index && t.counter == s.counter
    && t.stack < s.stack && s.stack[|t.stack|] == v
    && t.onStack == s.onStack - s.From(s.index[v])
    && Increasing(c) && Elements(c) == s.From(s.index[v]) && |c| == |s.From(s.index[v])|
    && t.components == s.components + if |c| > 1 then [c] else []
  }

  lemma LowerSegment(g: Graph, s: State, n: nat)
    requires Shape(g, s) && n < |s.stack|
    ensures Elements(s.stack[..n]) == s.onStack - s.From(s.index[s.stack[n]])
  {
    forall x ensures x in s.stack[..n] <==> x in s.onStack && s.index[x] < s.index[s.stack[n]] {
      if x in s.onStack {
        var i :| 0 <= i < |s.stack| && s.stack[i] == x;
        assert i < n ==> s.stack[..n][i] == x;
      }
    }
  }

  lemma PopKeepsShape(g: Graph, s: State, t: State, v: Name, c: seq<Name>)
    requires Shape(g, s) && v in s.onStack && Popped(s, t, v, c)
    ensures Shape(g, t)
  {
    var n := |t.stack|;
    LowerSegment(g, s, n);
    assert t.stack == s.stack[..n];
    hide Elements, State.From;
  }

  lemma PopKeepsLinked(g: Graph, s: State, t: State, gray: set<Name>, v: Name, c: seq<Name>)
    requires Shape(g, s) && Linked(g, s, gray + {v}) && Exhausted(g, s, gray, v) && Popped(s, t, v, c)
    ensures Linked(g, t, gray)
  {
    forall y {:trigger Anchored(g, t, gray, y)} | y in t.onStack ensures Anchored(g, t, gray, y) {
      var x := Anchor(g, s, gray + {v}, y);
    }
  }

  lemma PoppedComponentIsReported(g: Graph, s: State, t: State, v: Name, c: seq<Name>, x: Name)
    requires Shape(g, s) && v in s.onStack && Popped(s, t, v, c) && Reported(g, s)
    requires s.From(s.index[v]) == Component(g, v)
    requires x in t.Done() && |Component(g, x)| > 1
    ensures ReportsComponentOf(g, t, x)
  {
    if x in s.Done() {
      assert ReportsComponentOf(g, s, x);
    } else {
      ComponentShared(g, v, x);
      assert c in t.components;
    }
  }

  lemma ReportCameFromComponent(g: Graph, s: State, t: State, v: Name, c: seq<Name>, d: seq<Name>)
    requires Shape(g, s) && v in s.onStack && Popped(s, t, v, c) && Reported(g, s)
    requires s.From(s.index[v]) == Component(g, v) && d in t.components
    ensures Increasing(d) && |d| > 1 && CameFromComponent(g, t, d)
  {
    if d in s.components {
      assert CameFromComponent(g, s, d);
    } else {
      assert v in t.Done() && Elements(d) == Component(g, v);
    }
  }

  lemma SharedMember(g: Graph, x: Name, v: Name, z: Name)
    requires x in g && z in Component(g, x) && z in Component(g, v)
    ensures x in Component(g, v)
  {
    ComponentShared(g, x, z);
    ComponentShared(g, v, z);
    ReachRefl(g, x);
  }

  lemma NewComponentIsDisjoint(g: Graph, s: State, v: Name, d: seq<Name>)
    requires Shape(g, s) && v in s.onStack && d in s.components && CameFromComponent(g, s, d)
    requires s.From(s.index[v]) == Component(g, v)
    ensures Elements(d) !! Component(g, v)
  {
    var x :| x in s.Done() && Elements(d) == Component(g, x);
    assert x !in Component(g, v);
    forall z | z in Elements(d) ensures z !in Component(g, v) {
      if z in Component(g, v) {
        SharedMember(g, x, v, z);
      }
    }
  }

  lemma PopKeepsReported(g: Graph, s: State, t: State, v: Name, c: seq<Name>)
    requires Shape(g, s) && v in s.onStack && Popped(s, t, v, c) && Reported(g, s)
    requires s.From(s.index[v]) == Component(g, v)
    ensures Reported(g, t)
  {
    forall d | d in t.components ensures Increasing(d) && |d| > 1 && CameFromComponent(g, t, d) {
      ReportCameFromComponent(g, s, t, v, c, d);
    }
    forall x | x in t.Done() && |Component(g, x)| > 1 ensures ReportsComponentOf(g, t, x) {
      PoppedComponentIsReported(g, s, t, v, c, x);
    }
    forall i, j | 0 <= i < j < |t.components| ensures Elements(t.components[i]) !! Elements(t.components[j]) {
      if j == |s.components| {
        NewComponentIsDisjoint(g, s, v, s.components[i]);
      }
    }
  }

  lemma FinishedExplored(g: Graph, s: State, gray: set<Name>, v: Name)
    requires Shape(g, s) && Explored(g, s, gray + {v}) && Exhausted(g, s, gray, v)
    ensures Explored(g, s, gray)
  {
    forall x | x in s.index && x !in gray ensures g[x] <= s.index.Keys {
      assert x == v || x !in gray + {v};
    }
  }

  lemma PopKeepsExplored(g: Graph, s: State, t: State, gray: set<Name>, v: Name, c: seq<Name>)
    requires Shape(g, s) && v in s.onStack && Explored(g, s, gray) && Popped(s, t, v, c)
    requires ClosedUnder(g, s.Done() + s.From(s.index[v]))
    ensures Explored(g, t, gray)
  {
    assert t.Done() == s.Done() + s.From(s.index[v]);
  }

  lemma PopKeepsSound(g: Graph, s: State, t: State, gray: set<Name>, v: Name, c: seq<Name>)
    requires Sound(g, s, gray + {v}) && Exhausted(g, s, gray, v) && Popped(s, t, v, c)
    requires Covers(g, s.onStack - s.From(s.index[v]), s, s.index[v], {}, s.index[v])
    ensures Sound(g, t, gray)
  {
    PopKeepsShape(g, s, t, v, c);
    PoppedPartIsClosed(g, s, gray, v);
    PoppedPartIsComponent(g, s, gray, v);
    FinishedExplored(g, s, gray, v);
    PopKeepsExplored(g, s, t, gray, v, c);
    PopKeepsLinked(g, s, t, gray, v, c);
    PopKeepsReported(g, s, t, v, c);
  }

  lemma ReAnchor(g: Graph, s: State, gray: set<Name>, v: Name, b: Name, y: Name)
    requires s.onStack <= s.index.Keys && Linked(g, s, gray + {v}) && y in s.onStack
    requires b in gray && v in s.onStack && s.index[b] < s.index[v] && Reach(g, v, b)
    ensures Anchored(g, s, gray, y)
  {
    var a := Anchor(g, s, gray + {v}, y);
    if a == v {
      ReachTrans(g, y, v, b);
    }
  }

  // A low-link below v's index re-anchors everything that was anchored at v.
  lemma KeepKeepsLinked(g: Graph, s: State, gray: set<Name>, v: Name, low: nat)
    requires Shape(g, s) && Linked(g, s, gray + {v}) && Exhausted(g, s, gray, v)
    requires LowWitness(g, s, v, low) && low < s.index[v]
    ensures Linked(g, s, gray)
  {
    var w :| w in s.onStack && w in s.index && s.index[w] == low && Reach(g, v, w);
    var b := Anchor(g, s, gray + {v}, w);
    assert b in gray;
    ReachTrans(g, v, w, b);
    forall y {:trigger Anchored(g, s, gray, y)} | y in s.onStack ensures Anchored(g, s, gray, y) {
      ReAnchor(g, s, gray, v, b, y);
    }
  }

  lemma KeepKeepsSound(g: Graph, s: State, gray: set<Name>, v: Name, low: nat)
    requires Sound(g, s, gray + {v}) && Exhausted(g, s, gray, v)
    requires LowWitness(g, s, v, low) && low < s.index[v]
    ensures Sound(g, s, gray)
  {
    FinishedExplored(g, s, gray, v);
    KeepKeepsLinked(g, s, gray, v, low);
  }

  // The visit of v, entered in state s0, after following the edges to `done` with low-link b.
  ghost predicate Following(g: Graph, s0: State, s: State, v: Name, b: nat, done: set<Name>) {
    && v !in s0.index && Extends(s0, s) && s0.stack + [v] <= s.stack
    && v in g && v in s.onStack && v in s.index && s.index[v] == s0.counter
    && b <= s.index[v] && LowWitness(g, s, v, b)
    && Covers(g, s0.onStack, s, s0.counter, {v}, b)
    && done <= s.index.Keys
    && (forall d :: d in done && d in s.index && d in s0.onStack ==> b <= s.index[d])
  }

  lemma FollowNothing(g: Graph, s0: State, v: Name)
    requires Shape(g, s0) && v in g && v !in s0.index
    ensures Shape(g, Pushed(s0, v)) && Following(g, s0, Pushed(s0, v), v, s0.counter, {})
  {
    var s := Pushed(s0, v);
    assert forall x :: x in s.stack <==> x in s0.stack || x == v;
    ReachRefl(g, v);
  }

  lemma FollowPopped(g: Graph, s0: State, s: State, v: Name, b: nat, done: set<Name>, d: Name)
    requires Shape(g, s) && Shape(g, s0) && Following(g, s0, s, v, b, done) && d in s.index && d !in s.onStack
    ensures Following(g, s0, s, v, b, done + {d})
  {
  }

  lemma FollowOnStack(g: Graph, s0: State, s: State, v: Name, b: nat, done: set<Name>, d: Name)
    requires Shape(g, s) && Following(g, s0, s, v, b, done) && d in g[v] && d in s.onStack
    ensures Following(g, s0, s, v, if s.index[d] < b then s.index[d] else b, done + {d})
  {
    ReachEdge(g, v, d);
  }

  lemma VisitedWitness(g: Graph, s0: State, s: State, v: Name, b: nat, done: set<Name>, d: Name, t: State, c: nat)
    requires Shape(g, s) && Shape(g, t)
    requires Following(g, s0, s, v, b, done) && d in g[v]
    requires Extends(s, t) && VisitedLow(g, s, t, d, c)
    ensures LowWitness(g, t, v, if c < b then c else b)
  {
    if c < b {
      assert d in t.onStack;
      var y :| y in t.onStack && t.index[y] == c && Reach(g, d, y);
      ReachEdge(g, v, d);
      ReachTrans(g, v, d, y);
    } else {
      var y :| y in s.onStack && s.index[y] == b && Reach(g, v, y);
      assert y in t.onStack;
    }
  }

  lemma VisitedCovers(g: Graph, s0: State, s: State, v: Name, b: nat, done: set<Name>, d: Name, t: State, c: nat)
    requires Shape(g, s0) && Shape(g, s) && Shape(g, t)
    requires Following(g, s0, s, v, b, done) && d in g[v]
    requires Extends(s, t) && VisitedLow(g, s, t, d, c)
    ensures Covers(g, s0.onStack, t, s0.counter, {v}, if c < b then c else b)
  {
    forall x, y | x in t.From(s0.counter) - {v} && x in g && y in g[x] && y in s0.onStack && y in t.index
      ensures b <= t.index[y] || c <= t.index[y]
    {
      assert y in s.onStack;
      if x in s.index {
        assert x in s.From(s0.counter) - {v};
      } else {
        assert x in t.From(s.counter) - {};
      }
    }
  }

  lemma ExtendsTransitive(s0: State, s: State, t: State)
    requires Extends(s0, s) && Extends(s, t)
    ensures Extends(s0, t)
  {
  }

  lemma FollowVisited(g: Graph, s0: State, s: State, v: Name, b: nat, done: set<Name>, d: Name, t: State, c: nat)
    requires Shape(g, s0) && Shape(g, s) && Shape(g, t)
    requires Following(g, s0, s, v, b, done) && d in g[v]
    requires Extends(s, t) && VisitedLow(g, s, t, d, c)
    ensures Following(g, s0, t, v, if c < b then c else b, done + {d})
  {
    hide Covers, LowWitness, Reach;
    ExtendsTransitive(s0, s, t);
    VisitedWitness(g, s0, s, v, b, done, d, t, c);
    VisitedCovers(g, s0, s, v, b, done, d, t, c);
  }

  // The edges out of v are all followed: nothing undercuts the low-link.
  lemma FollowedAll(g: Graph, s0: State, s: State, gray: set<Name>, v: Name, b: nat)
    requires Shape(g, s0) && Shape(g, s) && gray <= s0.index.Keys
    requires v in g && Following(g, s0, s, v, b, g[v])
    ensures Exhausted(g, s, gray, v)
    ensures Covers(g, s0.onStack, s, s0.counter, {}, b)
    ensures s.onStack - s.From(s.index[v]) <= s0.onStack
  {
  }

  lemma DistinctCardinality(s: seq<Name>)
    requires forall i, j :: 0 <= i < j < |s| ==> s[i] != s[j]
    ensures |Elements(s)| == |s|
  {
    if s != [] {
      var front := s[..|s| - 1];
      DistinctCardinality(front);
      assert Elements(s) == Elements(front) + {s[|s| - 1]};
    } else {
      assert Elements(s) == {};
    }
  }

  lemma UpperSegment(g: Graph, s: State, n: nat)
    requires Shape(g, s) && n < |s.stack|
    ensures Elements(s.stack[n..]) == s.From(s.index[s.stack[n]])
  {
    forall x ensures x in s.stack[n..] <==> x in s.onStack && s.index[s.stack[n]] <= s.index[x] {
      if x in s.onStack {
        var i :| 0 <= i < |s.stack| && s.stack[i] == x;
        assert i >= n ==> s.stack[n..][i - n] == x;
      }
    }
  }

  // The stack holds the entries of v's index and above as its top segment.
  lemma TopSegment(g: Graph, s: State, v: Name, n: nat)
    requires Shape(g, s) && n < |s.stack| && s.stack[n] == v
    ensures Elements(s.stack[n..]) == s.From(s.index[v])
    ensures Elements(s.stack[..n]) == s.onStack - s.From(s.index[v])
    ensures |Elements(s.stack[n..])| == |s.stack| - n
  {
    UpperSegment(g, s, n);
    LowerSegment(g, s, n);
    StackFacts(g, s);
    hide Elements, Shape, State.From;
    DistinctCardinality(s.stack[n..]);
  }

  // What `_import_cycles` returns: the large strongly connected components, each
  // sorted, listed once, in the order of their first names.
  ghost predicate CycleReport(g: Graph, r: seq<seq<Name>>) {
    && (forall c :: c in r ==> Increasing(c) && |c| > 1 && IsComponent(g, c))
    && (forall x :: x in g && |Component(g, x)| > 1 ==> Lists(g, r, x))
    && FirstsIncrease(r)
  }

  ghost predicate IsComponent(g: Graph, c: seq<Name>) {
    exists x :: x in g && Elements(c) == Component(g, x)
  }

  ghost predicate Lists(g: Graph, r: seq<seq<Name>>, x: Name) {
    exists c :: c in r && Elements(c) == Component(g, x)
  }

  function First(c: seq<Name>): Name {
    if c == [] then "" else c[0]
  }

  ghost predicate FirstsIncrease(r: seq<seq<Name>>) {
    forall i, j :: 0 <= i < j < |r| ==> Below(First(r[i]), First(r[j]))
  }

  // Python compares lists by their first differing item; disjoint components already
  // differ at the first, so sorting compares first names.
  method SortedByFirst(cs: seq<seq<Name>>) returns (r: seq<seq<Name>>)
    requires forall c :: c in cs ==> c != []
    requires forall i, j :: 0 <= i < j < |cs| ==> Elements(cs[i]) !! Elements(cs[j])
    ensures forall c :: c in r <==> c in cs
    ensures FirstsIncrease(r)
  {
    r := [];
    for k := 0 to |cs|
      invariant forall c :: c in r <==> c in cs[..k]
      invariant FirstsIncrease(r)
    {
      forall d | d in r ensures First(d) != First(cs[k]) {
        var i :| 0 <= i < k && cs[i] == d;
        assert cs[i] in cs && cs[k] in cs;
        assert First(d) in Elements(cs[i]) && First(cs[k]) in Elements(cs[k]);
      }
      r := InsertByFirst(cs[k], r);
      assert cs[..k + 1] == cs[..k] + [cs[k]];
    }
    assert cs[..|cs|] == cs;
  }

  method InsertByFirst(c: seq<Name>, s: seq<seq<Name>>) returns (r: seq<seq<Name>>)
    requires forall d :: d in s ==> First(d) != First(c)
    requires FirstsIncrease(s)
    ensures forall d :: d in r <==> d in s || d == c
    ensures FirstsIncrease(r)
  {
    hide Below, First, FirstsIncrease;
    var i := 0;
    while i < |s| && Below(First(s[i]), First(c))
      invariant 0 <= i <= |s|
      invariant forall j :: 0 <= j < i ==> Below(First(s[j]), First(c))
    {
      i := i + 1;
    }
    r := s[..i] + [c] + s[i..];
    if i < |s| { BelowTrichotomy(First(c), First(s[i])); }
    InsertedFirstsIncrease(s, i, c);
    assert forall d :: d in s <==> d in s[..i] || d in s[i..] by { assert s == s[..i] + s[i..]; }
  }

  lemma InsertedFirstsIncrease(s: seq<seq<Name>>, i: nat, c: seq<Name>)
    requires FirstsIncrease(s) && i <= |s|
    requires forall j :: 0 <= j < i ==> Below(First(s[j]), First(c))
    requires i < |s| ==> Below(First(c), First(s[i]))
    ensures FirstsIncrease(s[..i] + [c] + s[i..])
  {
    hide Below, First;
    var r := s[..i] + [c] + s[i..];
    forall j | i <= j < |s| ensures Below(First(c), First(s[j])) {
      if i < j { BelowTransitive(First(c), First(s[i]), First(s[j])); }
    }
    forall a, b | 0 <= a < b < |r| ensures Below(First(r[a]), First(r[b])) {
      assert r[a] == if a < i then s[a] else if a == i then c else s[a - 1];
      assert r[b] == if b < i then s[b] else if b == i then c else s[b - 1];
      if a < i < b {
        BelowTransitive(First(s[a]), First(c), First(s[b - 1]));
      }
    }
  }

  lemma SoundShape(g: Graph, s: State, gray: set<Name>)
    requires Sound(g, s, gray)
    ensures Shape(g, s) && s.onStack <= s.index.Keys <= g.Keys && gray <= s.index.Keys
  {
  }

  lemma FollowingFacts(g: Graph, s0: State, s: State, v: Name, b: nat, done: set<Name>)
    requires Shape(g, s) && Following(g, s0, s, v, b, done)
    ensures v in s.onStack && v in s.index && s0.index.Keys <= s.index.Keys
    ensures b <= s.index[v] && |s0.stack| < |s.stack| && s.stack[|s0.stack|] == v
  {
  }

  lemma FinishByPop(g: Graph, s0: State, s: State, t: State, gray: set<Name>, v: Name, c: seq<Name>)
    requires Sound(g, s0, gray) && Sound(g, s, gray + {v}) && v in g && v in s.index
    requires Following(g, s0, s, v, s.index[v], g[v])
    requires Popped(s, t, v, c) && |t.stack| == |s0.stack|
    ensures Sound(g, t, gray) && Extends(s0, t) && VisitedLow(g, s0, t, v, s.index[v])
  {
    FollowedAll(g, s0, s, gray, v, s.index[v]);
    PopKeepsSound(g, s, t, gray, v, c);
  }

  lemma FinishByKeep(g: Graph, s0: State, s: State, gray: set<Name>, v: Name, b: nat)
    requires Sound(g, s0, gray) && Sound(g, s, gray + {v}) && v in g && v in s.index && b < s.index[v]
    requires Following(g, s0, s, v, b, g[v])
    ensures Sound(g, s, gray) && Extends(s0, s) && VisitedLow(g, s0, s, v, b)
  {
    FollowedAll(g, s0, s, gray, v, b);
    KeepKeepsSound(g, s, gray, v, b);
  }

  class CycleFinder {
    const adjacency: Graph
    var index: map<Name, nat>
    var low: map<Name, nat>
    var onStack: set<Name>
    var stack: seq<Name>
    var counter: nat
    var components: seq<seq<Name>>

    constructor (adjacency: Graph)
      ensures this.adjacency == adjacency
      ensures Now() == State(map[], [], {}, 0, []) && low == map[]
    {
      this.adjacency := adjacency;
      index, low, onStack, stack, counter, components := map[], map[], {}, [], 0, [];
    }

    ghost function Now(): State
      reads this
    {
      State(index, stack, onStack, counter, components)
    }

    // The opening lines of `visit`.
    method Push(v: Name)
      modifies this`index, this`low, this`counter, this`stack, this`onStack
      ensures Now() == Pushed(old(Now()), v) && low == old(low)[v := old(counter)]
    {
      index, low := index[v := counter], low[v := counter];
      counter := counter + 1;
      stack := stack + [v];
      onStack := onStack + {v};
    }

    // `visit`: number v and put it on the stack, follow its imports, and pop its
    // component when nothing below it was reached.
    method Visit(v: Name, ghost gray: set<Name>)
      requires ClosedGraph(adjacency) && v in adjacency && v !in index
      requires Sound(adjacency, Now(), gray) && low.Keys == index.Keys
      requires forall x :: x in gray ==> Reach(adjacency, x, v)
      modifies this
      ensures Sound(adjacency, Now(), gray) && low.Keys == index.Keys
      ensures Extends(old(Now()), Now())
      ensures forall x :: x in old(low) ==> x in low && low[x] == old(low[x])
      ensures v in low && VisitedLow(adjacency, old(Now()), Now(), v, low[v])
      decreases adjacency.Keys - index.Keys, 0
    {
      hide Sound, Shape, Following, Extends, VisitedLow, ClosedGraph, Reach, Popped;
      ghost var s0 := Now();
      SoundShape(adjacency, s0, gray);
      FollowNothing(adjacency, s0, v);
      PushKeepsSound(adjacency, s0, gray, v);
      Push(v);
      SoundShape(adjacency, Now(), gray + {v});
      FollowImports(v, gray, s0);
      ghost var s := Now();
      SoundShape(adjacency, s, gray + {v});
      FollowingFacts(adjacency, s0, s, v, low[v], adjacency[v]);
      if low[v] == index[v] {
        ghost var c := PopComponent(v, |s0.stack|);
        FinishByPop(adjacency, s0, s, Now(), gray, v, c);
      } else {
        FinishByKeep(adjacency, s0, s, gray, v, low[v]);
      }
    }

    // The loop of `visit` over the imports of v.
    method FollowImports(v: Name, ghost gray: set<Name>, ghost s0: State)
      requires ClosedGraph(adjacency) && v in adjacency && Shape(adjacency, s0)
      requires Sound(adjacency, Now(), gray + {v}) && low.Keys == index.Keys
      requires forall x :: x in gray ==> Reach(adjacency, x, v)
      requires v in low && Following(adjacency, s0, Now(), v, low[v], {})
      modifies this
      ensures Sound(adjacency, Now(), gray + {v}) && low.Keys == index.Keys
      ensures forall x :: x in old(low) && x != v ==> x in low && low[x] == old(low[x])
      ensures v in low && Following(adjacency, s0, Now(), v, low[v], adjacency[v])
      decreases adjacency.Keys - index.Keys, 2
    {
      hide Sound, Shape, Following, Reach;
      var imports := Sorted(adjacency[v]);
      ghost var done := {};
      for i := 0 to |imports|
        invariant Sound(adjacency, Now(), gray + {v}) && low.Keys == index.Keys
        invariant forall x :: x in old(low) && x != v ==> x in low && low[x] == old(low[x])
        invariant v in low && Following(adjacency, s0, Now(), v, low[v], done)
        invariant forall x :: x in done <==> x in imports[..i]
        invariant old(index).Keys <= index.Keys
      {
        FollowImport(v, imports[i], gray, s0, done);
        done := done + {imports[i]};
      }
      assert imports[..|imports|] == imports;
      assert done == adjacency[v];
    }

    // One turn of that loop.
    method FollowImport(v: Name, d: Name, ghost gray: set<Name>, ghost s0: State, ghost done: set<Name>)
      requires ClosedGraph(adjacency) && v in adjacency && d in adjacency[v] && Shape(adjacency, s0)
      requires Sound(adjacency, Now(), gray + {v}) && low.Keys == index.Keys
      requires forall x :: x in gray ==> Reach(adjacency, x, v)
      requires v in low && Following(adjacency, s0, Now(), v, low[v], done)
      modifies this
      ensures Sound(adjacency, Now(), gray + {v}) && low.Keys == index.Keys
      ensures forall x :: x in old(low) && x != v ==> x in low && low[x] == old(low[x])
      ensures v in low && Following(adjacency, s0, Now(), v, low[v], done + {d})
      ensures old(index).Keys <= index.Keys
      decreases adjacency.Keys - index.Keys, 1
    {
      hide Sound, Shape, Following, VisitedLow, Reach;
      ghost var s := Now();
      SoundShape(adjacency, s, gray + {v});
      if d !in index {
        GrayReaches(adjacency, gray, v, d);
        Visit(d, gray + {v});
        SoundShape(adjacency, Now(), gray + {v});
        FollowVisited(adjacency, s0, s, v, low[v], done, d, Now(), low[d]);
        low := low[v := if low[d] < low[v] then low[d] else low[v]];
      } else if d in onStack {
        FollowOnStack(adjacency, s0, s, v, low[v], done, d);
        low := low[v := if index[d] < low[v] then index[d] else low[v]];
      } else {
        FollowPopped(adjacency, s0, s, v, low[v], done, d);
      }
    }

    // Pop the stack down to and including v; record the component if it is large.
    method PopComponent(v: Name, ghost n: nat) returns (ghost c: seq<Name>)
      requires Shape(adjacency, Now()) && n < |stack| && stack[n] == v
      modifies this`stack, this`onStack, this`components
      ensures Popped(old(Now()), Now(), v, c) && |stack| == n
    {
      hide Shape;
      ghost var s := Now();
      StackFacts(adjacency, s);
      var component: seq<Name> := [];
      while true
        invariant n < |stack| <= |s.stack| && stack == s.stack[..|stack|]
        invariant onStack == Elements(stack)
        invariant |component| == |s.stack| - |stack|
        invariant Elements(component) == Elements(s.stack[|stack|..])
        invariant components == s.components
        decreases |stack|
      {
        var k := |stack| - 1;
        var member := stack[k];
        MoveTop(s.stack, k, component);
        stack := stack[..k];
        onStack := onStack - {member};
        component := component + [member];
        if member == v { break; }
      }
      assert |stack| == n;
      TopSegment(adjacency, s, v, n);
      c := component;
      if |component| > 1 {
        var names := Sorted(set x | x in component);
        components := components + [names];
        c := names;
      }
    }

    // The body of `_import_cycles`.
    method ImportCycles() returns (report: seq<seq<Name>>)
      requires ClosedGraph(adjacency) && low == map[]
      requires Now() == State(map[], [], {}, 0, [])
      modifies this
      ensures CycleReport(adjacency, report)
    {
      hide Sound, Reach;
      NothingVisited(adjacency);
      var modules := Sorted(adjacency.Keys);
      for i := 0 to |modules|
        invariant Sound(adjacency, Now(), {}) && low.Keys == index.Keys
        invariant forall j :: 0 <= j < i ==> modules[j] in index
      {
        if modules[i] !in index {
          Visit(modules[i], {});
        }
      }
      SoundShape(adjacency, Now(), {});
      assert index.Keys == adjacency.Keys by {
        forall x | x in adjacency ensures x in index { assert x in modules; }
      }
      EverythingPopped(adjacency, Now());
      report := SortedByFirst(components);
      SortedReport(adjacency, Now(), report);
    }
  }

  lemma NothingVisited(g: Graph)
    ensures Sound(g, State(map[], [], {}, 0, []), {})
  {
  }

  // With nothing left to visit, nothing is left on the stack.
  lemma EverythingPopped(g: Graph, s: State)
    requires Sound(g, s, {}) && s.index.Keys == g.Keys
    ensures s.Done() == g.Keys && Reported(g, s)
    ensures forall c :: c in s.components ==> c != []
    ensures forall i, j :: 0 <= i < j < |s.components| ==> Elements(s.components[i]) !! Elements(s.components[j])
  {
    forall x | x in s.onStack ensures false {
      var a := Anchor(g, s, {}, x);
    }
  }

  lemma SortedReport(g: Graph, s: State, r: seq<seq<Name>>)
    requires s.Done() == g.Keys && Reported(g, s) && FirstsIncrease(r)
    requires forall c :: c in r <==> c in s.components
    ensures CycleReport(g, r)
  {
    forall c | c in r ensures IsComponent(g, c) {
      assert CameFromComponent(g, s, c);
    }
    forall x | x in g && |Component(g, x)| > 1 ensures Lists(g, r, x) {
      assert ReportsComponentOf(g, s, x);
    }
  }

  lemma StackFacts(g: Graph, s: State)
    requires Shape(g, s)
    ensures s.onStack == Elements(s.stack) && s.onStack <= s.index.Keys
    ensures forall i, j :: 0 <= i < j < |s.stack| ==> s.stack[i] != s.stack[j]
  {
  }

  // Moving the top entry from the stack to the component.
  lemma MoveTop(stack: seq<Name>, k: nat, component: seq<Name>)
    requires k < |stack|
    requires forall i, j :: 0 <= i < j < |stack| ==> stack[i] != stack[j]
    requires Elements(component) == Elements(stack[k + 1..])
    ensures Elements(component + [stack[k]]) == Elements(stack[k..])
    ensures Elements(stack[..k + 1]) - {stack[k]} == Elements(stack[..k])
    ensures stack[..k + 1][..k] == stack[..k]
  {
    assert stack[k..] == [stack[k]] + stack[k + 1..];
    assert forall x :: x in stack[k..] <==> x == stack[k] || x in Elements(component);
    assert stack[..k + 1] == stack[..k] + [stack[k]];
    forall x ensures x in stack[..k] <==> x in stack[..k + 1] && x != stack[k] {
      if x in stack[..k] {
        var i :| 0 <= i < k && stack[..k][i] == x;
        assert stack[i] != stack[k] && stack[..k + 1][i] == x;
      }
    }
  }

  lemma GrayReaches(g: Graph, gray: set<Name>, v: Name, d: Name)
    requires v in g && d in g[v]
    requires forall x :: x in gray ==> Reach(g, x, v)
    ensures forall x :: x in gray + {v} ==> Reach(g, x, d)
  {
    ReachEdge(g, v, d);
    forall x | x in gray ensures Reach(g, x, d) {
      ReachTrans(g, x, v, d);
    }
  }

  // A closed walk makes its first step's ends mutually reachable.
  lemma CycleHasLargeComponent(g: Graph, p: seq<Name>)
    requires ClosedGraph(g) && NoSelfImport(g)
    requires |p| > 1 && Walk(g, p) && p[0] == p[|p| - 1]
    ensures p[0] in g && |Component(g, p[0])| > 1
  {
    var x, y := p[0], p[1];
    assert x in g && y in g[x] && y in g;
    ReachRefl(g, x);
    ReachEdge(g, x, y);
    assert WalkFromTo(g, p[1..], y, x);
    assert {x, y} <= Component(g, x);
    SubsetCardinality({x, y}, Component(g, x));
  }

  lemma SubsetCardinality(s: set<Name>, t: set<Name>)
    requires s <= t
    ensures |s| <= |t|
  {
    if s != {} {
      var x :| x in s;
      SubsetCardinality(s - {x}, t - {x});
    }
  }

  lemma LargeComponentHasCycle(g: Graph, x: Name)
    requires |Component(g, x)| > 1
    ensures !Acyclic(g)
  {
    assert Component(g, x) != {x};
    var y :| y in Component(g, x) && y != x;
    var p :| WalkFromTo(g, p, x, y);
    ReachTrans(g, x, y, x);
    var q :| WalkFromTo(g, q, y, x);
    var r := p + q[1..];
    forall i | 0 <= i < |r| - 1 ensures r[i] in g && r[i + 1] in g[r[i]] {
      var j := i - (|p| - 1);
      assert j >= 0 ==> r[i] == q[j] && r[i + 1] == q[j + 1];
    }
    assert |r| > 1 && Walk(g, r) && r[0] == x && r[|r| - 1] == x;
  }

  lemma ClosedWalkIsReported(g: Graph, r: seq<seq<Name>>, p: seq<Name>)
    requires ClosedGraph(g) && NoSelfImport(g) && CycleReport(g, r)
    requires |p| > 1 && Walk(g, p) && p[0] == p[|p| - 1]
    ensures r != []
  {
    CycleHasLargeComponent(g, p);
    assert Lists(g, r, p[0]);
  }

  // No cycle is reported exactly when the import graph has none.
  lemma EmptyReportIffAcyclic(g: Graph, r: seq<seq<Name>>)
    requires ClosedGraph(g) && NoSelfImport(g) && CycleReport(g, r)
    ensures r == [] <==> Acyclic(g)
  {
    if r == [] {
      forall p | |p| > 1 && Walk(g, p) ensures p[0] != p[|p| - 1] {
        if p[0] == p[|p| - 1] {
          ClosedWalkIsReported(g, r, p);
        }
      }
    } else {
      assert r[0] in r && IsComponent(g, r[0]);
      var x :| x in g && Elements(r[0]) == Component(g, x);
      IncreasingIsDistinct(r[0]);
      DistinctCardinality(r[0]);
      LargeComponentHasCycle(g, x);
    }
  }

  lemma IncreasingDeterminedByElements(a: seq<Name>, b: seq<Name>)
    requires Increasing(a) && Increasing(b) && Elements(a) == Elements(b)
    ensures a == b
  {
    if a != [] || b != [] {
      assert a != [] ==> a[0] in Elements(b);
      assert b != [] ==> b[0] in Elements(a);
      BelowTrichotomy(a[0], b[0]);
      assert a[0] == b[0];
      IncreasingIsDistinct(a);
      IncreasingIsDistinct(b);
      forall x ensures x in a[1..] <==> x in b[1..] {
        assert x in a <==> x in b by { assert x in Elements(a) <==> x in Elements(b); }
      }
      IncreasingDeterminedByElements(a[1..], b[1..]);
      assert a == [a[0]] + a[1..] && b == [b[0]] + b[1..];
    }
  }

  lemma ReportsListTheSame(g: Graph, r: seq<seq<Name>>, q: seq<seq<Name>>, c: seq<Name>)
    requires CycleReport(g, r) && CycleReport(g, q) && c in r
    ensures c in q
  {
    assert IsComponent(g, c);
    var x :| x in g && Elements(c) == Component(g, x);
    IncreasingIsDistinct(c);
    DistinctCardinality(c);
    assert Lists(g, q, x);
    var d :| d in q && Elements(d) == Component(g, x);
    IncreasingDeterminedByElements(c, d);
  }

  lemma FirstsDetermineOrder(r: seq<seq<Name>>, q: seq<seq<Name>>)
    requires FirstsIncrease(r) && FirstsIncrease(q)
    requires forall c :: c in r <==> c in q
    ensures r == q
  {
    if r != [] || q != [] {
      assert r != [] ==> r[0] in q;
      assert q != [] ==> q[0] in r;
      BelowTrichotomy(First(r[0]), First(q[0]));
      assert r[0] == q[0];
      forall i | 0 < i < |r| ensures r[i] != r[0] { BelowTrichotomy(First(r[0]), First(r[i])); }
      forall i | 0 < i < |q| ensures q[i] != q[0] { BelowTrichotomy(First(q[0]), First(q[i])); }
      forall c ensures c in r[1..] <==> c in q[1..] {
        assert c in r <==> c in q;
      }
      FirstsDetermineOrder(r[1..], q[1..]);
      assert r == [r[0]] + r[1..] && q == [q[0]] + q[1..];
    }
  }

  // The specification of the result leaves no choice.
  lemma ReportIsUnique(g: Graph, r: seq<seq<Name>>, q: seq<seq<Name>>)
    requires CycleReport(g, r) && CycleReport(g, q)
    ensures r == q
  {
    forall c ensures c in r <==> c in q {
      if c in r { ReportsListTheSame(g, r, q, c); }
      if c in q { ReportsListTheSame(g, q, r, c); }
    }
    FirstsDetermineOrder(r, q);
  }
}

/** Module names and the order in which Python's `sorted` lists them. */
module Names {

  type Name = string

  // Python compares strings by the first differing code point, a proper prefix first.
  predicate Below(a: Name, b: Name) {
    if b == [] then false
    else if a == [] then true
    else if a[0] != b[0] then a[0] < b[0]
    else Below(a[1..], b[1..])
  }

  // The names agree up to position k, where a ends or has the lower character.
  ghost predicate DivergesAt(a: Name, b: Name, k: int) {
    0 <= k <= |a| && k < |b| && a[..k] == b[..k] && (k == |a| || a[k] < b[k])
  }

  lemma DivergesLater(a: Name, b: Name, k: int)
    requires a != [] && b != [] && k > 0
    ensures DivergesAt(a, b, k) <==> a[0] == b[0] && DivergesAt(a[1..], b[1..], k - 1)
  {
    if k <= |a| && k < |b| {
      var c, d := a[1..][..k - 1], b[1..][..k - 1];
      assert a[..k] == [a[0]] + c && b[..k] == [b[0]] + d;
      assert [a[0]] + c == [b[0]] + d <==> a[0] == b[0] && c == d by {
        assert ([a[0]] + c)[1..] == c && ([b[0]] + d)[1..] == d;
      }
    }
  }

  lemma {:induction false} BelowIsLexicographic(a: Name, b: Name)
    ensures Below(a, b) <==> exists k :: DivergesAt(a, b, k)
  {
    assert DivergesAt(a, b, 0) <==> b != [] && (a == [] || a[0] < b[0]);
    if a != [] && b != [] {
      BelowIsLexicographic(a[1..], b[1..]);
      forall k | k > 0 ensures DivergesAt(a, b, k) <==> a[0] == b[0] && DivergesAt(a[1..], b[1..], k - 1) {
        DivergesLater(a, b, k);
      }
      if a[0] == b[0] && Below(a[1..], b[1..]) {
        var k :| DivergesAt(a[1..], b[1..], k);
        assert DivergesAt(a, b, k + 1);
      }
    }
  }

  lemma {:induction false} BelowTransitive(a: Name, b: Name, c: Name)
    requires Below(a, b) && Below(b, c)
    ensures Below(a, c)
  {
    if a != [] && a[0] == b[0] && b[0] == c[0] {
      BelowTransitive(a[1..], b[1..], c[1..]);
    }
  }

  lemma {:induction false} BelowTrichotomy(a: Name, b: Name)
    ensures !(Below(a, b) && Below(b, a))
    ensures Below(a, b) || a == b || Below(b, a)
    ensures !Below(a, a)
  {
    if a != [] {
      BelowTrichotomy(a[1..], a[1..]);
      if b != [] && a[0] == b[0] {
        BelowTrichotomy(a[1..], b[1..]);
        assert a == [a[0]] + a[1..] && b == [b[0]] + b[1..];
      }
    }
  }

  ghost predicate Increasing(s: seq<Name>) {
    forall i, j :: 0 <= i < j < |s| ==> Below(s[i], s[j])
  }

  lemma IncreasingIsDistinct(s: seq<Name>)
    requires Increasing(s)
    ensures forall i, j :: 0 <= i < j < |s| ==> s[i] != s[j]
  {
    forall i, j | 0 <= i < j < |s| ensures s[i] != s[j] {
      BelowTrichotomy(s[i], s[j]);
    }
  }

  // Insert a new name into an increasing list.
  method Insert(x: Name, s: seq<Name>) returns (r: seq<Name>)
    requires Increasing(s) && x !in s
    ensures Increasing(r)
    ensures |r| == |s| + 1
    ensures forall y :: y in r <==> y in s || y == x
  {
    var i := 0;
    while i < |s| && Below(s[i], x)
      invariant 0 <= i <= |s|
      invariant forall j :: 0 <= j < i ==> Below(s[j], x)
    {
      i := i + 1;
    }
    r := s[..i] + [x] + s[i..];
    forall j | i <= j < |s| ensures Below(x, s[j]) {
      BelowTrichotomy(x, s[i]);
      if i < j { BelowTransitive(x, s[i], s[j]); }
    }
    assert forall y :: y in s <==> y in s[..i] || y in s[i..] by { assert s == s[..i] + s[i..]; }
  }

  // `sorted` of a set of names.
  method Sorted(names: set<Name>) returns (r: seq<Name>)
    ensures Increasing(r)
    ensures forall y :: y in r <==> y in names
    ensures |r| == |names|
  {
    r := [];
    var rest := names;
    while rest != {}
      invariant rest <= names
      invariant Increasing(r) && |r| == |names| - |rest|
      invariant forall y :: y in r <==> y in names - rest
    {
      var x :| x in rest;
      r := Insert(x, r);
      rest := rest - {x};
    }
  }
}

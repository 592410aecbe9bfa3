/**
 `compile_check`, `run_monitor` and `LiveMonitorSet`: the batch run and the live bank
 of independent monitor objects give the same checks.
 */
module LiveBank {
  import opened Options
  import opened Events
  import opened Rules
  import opened Monitors

  // A monitor of one of the kinds above; the source dispatches on its class.
  datatype Monitor =
    | CountM(count: CountMonitor)
    | PresentM(present: PresentMonitor)
    | AbsentM(absent: AbsentMonitor)
    | DurationM(duration: DurationMonitor)
    | OrderM(order: OrderMonitor)
    | HeartbeatM(heartbeat: HeartbeatMonitor)
  {
    ghost function Obj(): object {
      match this
      case CountM(m) => m
      case PresentM(m) => m
      case AbsentM(m) => m
      case DurationM(m) => m
      case OrderM(m) => m
      case HeartbeatM(m) => m
    }

    ghost function Rule(): Rule {
      match this
      case CountM(m) => m.Rule()
      case PresentM(m) => m.Rule()
      case AbsentM(m) => m.Rule()
      case DurationM(m) => m.Rule()
      case OrderM(m) => m.Rule()
      case HeartbeatM(m) => m.Rule()
    }

    ghost predicate Valid()
      reads Obj()
    {
      match this
      case CountM(m) => m.Valid()
      case PresentM(m) => m.Valid()
      case AbsentM(m) => m.Valid()
      case DurationM(m) => m.Valid()
      case OrderM(m) => m.Valid()
      case HeartbeatM(m) => m.Valid()
    }

    // The events fed so far.
    ghost function Fed(): seq<Event>
      reads Obj()
    {
      match this
      case CountM(m) => m.fed
      case PresentM(m) => m.fed
      case AbsentM(m) => m.fed
      case DurationM(m) => m.fed
      case OrderM(m) => m.fed
      case HeartbeatM(m) => m.fed
    }

    // The stream indexes they came under.
    ghost function At(): seq<int>
      reads Obj()
    {
      match this
      case CountM(m) => m.at
      case PresentM(m) => m.at
      case AbsentM(m) => m.at
      case DurationM(m) => m.at
      case OrderM(m) => m.at
      case HeartbeatM(m) => m.at
    }

    // In the state the fed events leave it in.
    ghost predicate Tracks(fed: seq<Event>, at: seq<int>)
      reads Obj()
    {
      Valid() && Fed() == fed && At() == at
    }

    method Step(ev: Event, idx: int)
      requires Valid()
      modifies Obj()
      ensures Valid() && Fed() == old(Fed()) + [ev] && At() == old(At()) + [idx]
    {
      match this
      case CountM(m) => m.Step(ev, idx);
      case PresentM(m) => m.Step(ev, idx);
      case AbsentM(m) => m.Step(ev, idx);
      case DurationM(m) => m.Step(ev, idx);
      case OrderM(m) => m.Step(ev, idx);
      case HeartbeatM(m) => m.Step(ev, idx);
    }

    method Collapse(reachable: bool) returns (result: CheckResult)
      requires Valid()
      ensures |Fed()| == |At()| && result == Judged(Rule(), Fed(), At(), reachable)
    {
      match this
      case CountM(m) => result := m.Collapse(reachable);
      case PresentM(m) => result := m.Collapse(reachable);
      case AbsentM(m) => result := m.Collapse(reachable);
      case DurationM(m) => result := m.Collapse(reachable);
      case OrderM(m) => result := m.Collapse(reachable);
      case HeartbeatM(m) => result := m.Collapse(reachable);
    }

    method CurrentVerdict() returns (v: Verdict)
      requires Valid()
      ensures |Fed()| == |At()| && v == LatchAfter(Rule(), Fed(), At()).verdict
    {
      match this
      case CountM(m) => v := m.latch.verdict;
      case PresentM(m) => v := m.latch.verdict;
      case AbsentM(m) => v := m.latch.verdict;
      case DurationM(m) => v := m.latch.verdict;
      case OrderM(m) => v := m.latch.verdict;
      case HeartbeatM(m) => v := m.latch.verdict;
    }
  }

  // What the constructors refuse with a ValueError: a repeated name, a missing field.
  predicate Compiles(r: Rule) {
    && (r.Order? ==> forall i, j :: 0 <= i < j < |r.names| ==> r.names[i] != r.names[j])
    && (r.Duration? ==> r.field != "")
  }

  method CompileCheck(r: Rule) returns (m: Option<Monitor>)
    ensures m.None? <==>
      (r.Order? && exists i, j :: 0 <= i < j < |r.names| && r.names[i] == r.names[j]) || (r.Duration? && r.field == "")
    ensures m.Some? <==> Compiles(r)
    ensures m.Some? ==> m.value.Valid() && m.value.Rule() == r && m.value.Fed() == [] && fresh(m.value.Obj())
  {
    if !Compiles(r) {
      return None;
    }
    match r
    case Count(matches, op, want) =>
      var o := new CountMonitor(matches, op, want);
      m := Some(CountM(o));
    case Present(ms) =>
      var o := new PresentMonitor(ms);
      m := Some(PresentM(o));
    case Absent(ms, allow) =>
      var o := new AbsentMonitor(ms, allow);
      m := Some(AbsentM(o));
    case Duration(matches, field, op, target) =>
      var o := new DurationMonitor(matches, field, op, target);
      m := Some(DurationM(o));
    case Order(names, within, skew) =>
      var o := new OrderMonitor(names, within, skew);
      m := Some(OrderM(o));
    case Heartbeat(name, every, edge) =>
      var o := new HeartbeatMonitor(name, every, edge);
      m := Some(HeartbeatM(o));
  }

  // The indexes an uninterrupted feed runs through.
  function UpTo(n: nat): (r: seq<int>)
    ensures |r| == n && forall i :: 0 <= i < n ==> r[i] == i
  {
    seq(n, i => i)
  }

  lemma UpToStep(n: nat)
    ensures UpTo(n + 1) == UpTo(n) + [n]
  {
  }

  lemma OneMore<T>(s: seq<T>, k: nat)
    requires k < |s|
    ensures s[..k + 1] == s[..k] + [s[k]]
  {
  }

  method RunMonitor(m: Monitor, events: seq<Event>, reachable: bool) returns (result: CheckResult)
    requires m.Valid() && m.Fed() == []
    modifies m.Obj()
    ensures result == Judged(m.Rule(), events, UpTo(|events|), reachable)
  {
    NoIndexes(m);
    hide Monitor.Valid, Monitor.Fed, Monitor.At, Monitor.Obj, UpTo;
    for idx := 0 to |events|
      invariant m.Tracks(events[..idx], UpTo(idx))
    {
      m.Step(events[idx], idx);
      OneMore(events, idx);
      UpToStep(idx);
    }
    assert events[..|events|] == events;
    result := m.Collapse(reachable);
  }

  lemma NoIndexes(m: Monitor)
    requires m.Valid()
    ensures |m.Fed()| == |m.At()|
  {
  }

  class LiveMonitorSet {
    const monitors: seq<Monitor>
    var idx: int
    ghost var fed: seq<Event>
    ghost var at: seq<int>

    ghost function Objects(): set<object> {
      set i | 0 <= i < |monitors| :: monitors[i].Obj()
    }

    // The bank's monitors are distinct objects, all fed the same stream.
    ghost predicate Valid()
      reads this, Objects()
    {
      && (forall i :: 0 <= i < |monitors| ==> monitors[i].Obj() != this)
      && (forall i, j :: 0 <= i < j < |monitors| ==> monitors[i].Obj() != monitors[j].Obj())
      && forall i :: 0 <= i < |monitors| ==> monitors[i].Tracks(fed, at)
    }

    constructor (monitors: seq<Monitor>)
      requires forall i, j :: 0 <= i < j < |monitors| ==> monitors[i].Obj() != monitors[j].Obj()
      requires forall i :: 0 <= i < |monitors| ==> monitors[i].Valid() && monitors[i].Fed() == []
      ensures Valid() && this.monitors == monitors && idx == 0 && fed == [] && at == []
    {
      this.monitors := monitors;
      idx, fed, at := 0, [], [];
      new;
      forall i | 0 <= i < |monitors| ensures monitors[i].At() == [] {
        NoIndexes(monitors[i]);
      }
    }

    // `feed`, with the stream index given or running.
    method Feed(ev: Event, given: Option<int>)
      requires Valid()
      modifies this, Objects()
      ensures Valid() && fed == old(fed) + [ev]
      ensures at == old(at) + [if given.Some? then given.value else old(idx)]
      ensures idx == at[|at| - 1] + 1
    {
      hide CountMonitor.Valid, PresentMonitor.Valid, AbsentMonitor.Valid, DurationMonitor.Valid,
        OrderMonitor.Valid, HeartbeatMonitor.Valid;
      var i := if given.Some? then given.value else idx;
      for k := 0 to |monitors|
        invariant forall j :: 0 <= j < k ==> monitors[j].Tracks(old(fed) + [ev], old(at) + [i])
        invariant forall j :: k <= j < |monitors| ==> monitors[j].Tracks(old(fed), old(at))
        invariant fed == old(fed) && at == old(at)
      {
        assert forall j :: 0 <= j < |monitors| && j != k ==> monitors[j].Obj() != monitors[k].Obj();
        monitors[k].Step(ev, i);
      }
      idx := i + 1;
      fed, at := fed + [ev], at + [i];
    }

    method Verdicts() returns (vs: seq<Verdict>)
      requires Valid()
      ensures |vs| == |monitors| && (monitors != [] ==> |fed| == |at|)
      ensures forall i :: 0 <= i < |monitors| ==> vs[i] == LatchAfter(monitors[i].Rule(), fed, at).verdict
    {
      vs := [];
      for k := 0 to |monitors|
        invariant |vs| == k && (k > 0 ==> |fed| == |at|)
        invariant forall i :: 0 <= i < k ==> vs[i] == LatchAfter(monitors[i].Rule(), fed, at).verdict
      {
        var v := monitors[k].CurrentVerdict();
        vs := vs + [v];
      }
    }

    method Collapse(reachable: bool, complete: bool) returns (results: seq<CheckResult>)
      requires Valid()
      ensures |results| == |monitors| && (monitors != [] ==> |fed| == |at|)
      ensures forall i :: 0 <= i < |monitors| ==>
                results[i] == Judged(monitors[i].Rule(), fed, at, reachable && complete)
    {
      results := [];
      for k := 0 to |monitors|
        invariant |results| == k && (k > 0 ==> |fed| == |at|)
        invariant forall i :: 0 <= i < k ==>
                    results[i] == Judged(monitors[i].Rule(), fed, at, reachable && complete)
      {
        var result := monitors[k].Collapse(reachable && complete);
        results := results + [result];
      }
    }
  }

  // The loops interchanged: feeding the events one by one to the whole bank yields,
  // for each monitor, what driving it alone over the list yields (see RunMonitor).
  method FeedAll(bank: LiveMonitorSet, events: seq<Event>) returns (results: seq<CheckResult>)
    requires bank.Valid() && bank.fed == [] && bank.at == [] && bank.idx == 0
    modifies bank, bank.Objects()
    ensures |results| == |bank.monitors|
    ensures forall i :: 0 <= i < |results| ==>
              results[i] == Judged(bank.monitors[i].Rule(), events, UpTo(|events|), true)
  {
    hide UpTo;
    for k := 0 to |events|
      invariant bank.Valid() && bank.fed == events[..k] && bank.at == UpTo(k) && bank.idx == k
    {
      bank.Feed(events[k], None);
      OneMore(events, k);
      UpToStep(k);
    }
    assert events[..|events|] == events;
    results := bank.Collapse(true, true);
  }
}

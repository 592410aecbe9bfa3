/** Captured events, their stream order, and the three-valued verdict domain. */
module Events {
  import opened Options

  // A field value as the numeric checks see it; `Other` covers booleans, text and the rest.
  datatype Value = Number(n: real) | Other

  // `emit` is `_emit_seq` when it is an int; `fields` are the payload fields.
  datatype Event = Event(
    name: Option<string>,
    timestamp: Option<int>,
    sequence: Option<int>,
    emit: Option<int>,
    fields: map<string, Value>)

  // `event`/`where` of a matcher, resolved to an arbitrary predicate on events.
  type Matcher = Event -> bool

  function OrZero(x: Option<int>): int {
    if x.Some? then x.value else 0
  }

  // `stream_key(e) <= stream_key(f)`: events without a timestamp come last.
  predicate KeyLeq(e: Event, f: Event) {
    if e.timestamp.None? != f.timestamp.None? then f.timestamp.None?
    else if OrZero(e.timestamp) != OrZero(f.timestamp) then OrZero(e.timestamp) < OrZero(f.timestamp)
    else OrZero(e.sequence) <= OrZero(f.sequence)
  }

  ghost predicate InStreamOrder(s: seq<Event>) {
    forall i, j :: 0 <= i < j < |s| ==> KeyLeq(s[i], s[j])
  }

  datatype Op = Ge | Gt | Eq | Ne | Le | Lt

  predicate Compare(op: Op, x: real, y: real) {
    match op
    case Ge => x >= y
    case Gt => x > y
    case Eq => x == y
    case Ne => x != y
    case Le => x <= y
    case Lt => x < y
  }

  datatype Verdict = Sat | Viol | Pend

  // `_verdict` and `_settled_at` of the base class.
  datatype Latch = Latch(verdict: Verdict, settledAt: Option<int>)
  {
    // `_latch`: the first inevitable verdict wins and is permanent.
    function Settle(v: Verdict, idx: int): Latch {
      if verdict == Pend && v != Pend then Latch(v, Some(idx)) else this
    }
  }
}

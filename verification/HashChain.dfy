/**
 The tamper-evident receipt chain: each record's MAC covers its canonical content and
 the previous MAC. Collisions are never assumed away: a theorem that needs the MAC to
 bind says "or these very chains exhibit a collision".
 */
module HashChain {
  import opened Options

  // Field name to field text.
  type Rec = map<string, string>

  // `mac` is hexadecimal HMAC-SHA256, `evolve` hexadecimal SHA-256, `canonical` the sorted
  // compact JSON text of an object.
  datatype Scheme = Scheme(mac: (string, string) -> string, evolve: string -> string, canonical: Rec -> string)

  // What is used of those functions: digests are not empty and, being hexadecimal, hold no
  // brace; JSON objects end in one.
  ghost predicate WellShaped(s: Scheme) {
    && (forall k, m {:trigger s.mac(k, m)} :: s.mac(k, m) != "" && '}' !in s.mac(k, m))
    && (forall r {:trigger s.canonical(r)} :: s.canonical(r) != "" && s.canonical(r)[|s.canonical(r)| - 1] == '}')
  }

  const CHAIN_FIELDS: set<string> := {"sig_chain", "prev_sig"}

  function Content(r: Rec): Rec {
    r - CHAIN_FIELDS
  }

  function Canonical(s: Scheme, r: Rec): string {
    s.canonical(Content(r))
  }

  // `rec.get("sig_chain", "")`.
  function Sig(r: Rec): string {
    if "sig_chain" in r then r["sig_chain"] else ""
  }

  // `rec.get("prev_sig")`.
  function PrevSig(r: Rec): Option<string> {
    if "prev_sig" in r then Some(r["prev_sig"]) else None
  }

  // How the chain is keyed.
  datatype Keying = Keying(key: string, evolve: bool)

  function KeyAt(s: Scheme, k: Keying, i: nat): string {
    if i == 0 || !k.evolve then k.key else s.evolve(KeyAt(s, k, i - 1))
  }

  function PrevAt(rs: seq<Rec>, i: nat): string
    requires i <= |rs|
  {
    if i == 0 then "" else Sig(rs[i - 1])
  }

  // The message under the MAC of record i.
  function MessageAt(s: Scheme, rs: seq<Rec>, i: nat): string
    requires i < |rs|
  {
    Canonical(s, rs[i]) + PrevAt(rs, i)
  }

  predicate LinkHolds(rs: seq<Rec>, i: nat)
    requires i < |rs|
  {
    PrevSig(rs[i]) == Some(PrevAt(rs, i))
  }

  predicate MacHolds(s: Scheme, k: Keying, rs: seq<Rec>, i: nat)
    requires i < |rs|
  {
    Sig(rs[i]) == s.mac(KeyAt(s, k, i), MessageAt(s, rs, i))
  }

  predicate Intact(s: Scheme, k: Keying, rs: seq<Rec>) {
    forall i :: 0 <= i < |rs| ==> LinkHolds(rs, i) && MacHolds(s, k, rs, i)
  }

  function Head(rs: seq<Rec>): string {
    PrevAt(rs, |rs|)
  }

  predicate Verifies(s: Scheme, k: Keying, rs: seq<Rec>, expectLen: Option<int>, expectHead: Option<string>) {
    && Intact(s, k, rs)
    && (expectLen.Some? ==> |rs| >= expectLen.value)
    && (expectHead.Some? ==> Head(rs) == expectHead.value)
  }

  // A chain in plain terms ----------------------------------------------------------------

  // A sequence of keys, each the digest of the one before it.
  ghost predicate Evolves(s: Scheme, first: string, keys: nat -> string) {
    keys(0) == first && forall n: nat :: keys(n + 1) == s.evolve(keys(n))
  }

  // Record i is keyed by the key evolved i times, or by the one key there is.
  lemma {:induction false} KeyIsEvolved(s: Scheme, k: Keying, keys: nat -> string, i: nat)
    requires Evolves(s, k.key, keys)
    ensures KeyAt(s, k, i) == if k.evolve then keys(i) else k.key
  {
    if i > 0 {
      KeyIsEvolved(s, k, keys, i - 1);
      assert keys(i - 1 + 1) == s.evolve(keys(i - 1));
    }
  }

  ghost function TextOf(r: Rec, field: string): string {
    if field in r then r[field] else ""
  }

  // Record i names the MAC before it, "" for the first, and its own covers that and every
  // field but the two of the chain.
  ghost predicate Signed(s: Scheme, k: Keying, rs: seq<Rec>, i: int)
    requires 0 <= i < |rs|
  {
    var prev := if i == 0 then "" else TextOf(rs[i - 1], "sig_chain");
    && "prev_sig" in rs[i] && rs[i]["prev_sig"] == prev
    && TextOf(rs[i], "sig_chain") ==
       s.mac(KeyAt(s, k, i), s.canonical(map f | f in rs[i] && f != "sig_chain" && f != "prev_sig" :: rs[i][f]) + prev)
  }

  lemma SignedMeaning(s: Scheme, k: Keying, rs: seq<Rec>, i: nat)
    requires i < |rs|
    ensures LinkHolds(rs, i) && MacHolds(s, k, rs, i) <==> Signed(s, k, rs, i)
  {
    assert Content(rs[i]) == map f | f in rs[i] && f != "sig_chain" && f != "prev_sig" :: rs[i][f];
  }

  // A chain verifies when every record is signed, it is long enough, and it ends in the
  // expected MAC.
  lemma VerifiesIff(s: Scheme, k: Keying, rs: seq<Rec>, expectLen: Option<int>, expectHead: Option<string>)
    ensures Verifies(s, k, rs, expectLen, expectHead) <==>
      && (forall i :: 0 <= i < |rs| ==> Signed(s, k, rs, i))
      && (expectLen.Some? ==> expectLen.value <= |rs|)
      && (expectHead.Some? ==>
            expectHead.value == if rs == [] then "" else TextOf(rs[|rs| - 1], "sig_chain"))
  {
    forall i | 0 <= i < |rs| ensures LinkHolds(rs, i) && MacHolds(s, k, rs, i) <==> Signed(s, k, rs, i) {
      SignedMeaning(s, k, rs, i);
    }
    hide LinkHolds, MacHolds, Signed;
  }

  // Signing and verifying -----------------------------------------------------------------

  method SignChain(s: Scheme, records: seq<Rec>, k: Keying) returns (out: seq<Rec>)
    ensures |out| == |records|
    ensures forall i :: 0 <= i < |out| ==> Content(out[i]) == Content(records[i])
    ensures forall i :: 0 <= i < |out| ==> out[i].Keys == records[i].Keys + CHAIN_FIELDS
    ensures Verifies(s, k, out, Some(|records|), Some(Head(out)))
  {
    out := [];
    var prev, key := "", k.key;
    for i := 0 to |records|
      invariant |out| == i
      invariant prev == Head(out) && key == KeyAt(s, k, i)
      invariant forall j :: 0 <= j < i ==> Content(out[j]) == Content(records[j])
      invariant forall j :: 0 <= j < i ==> out[j].Keys == records[j].Keys + CHAIN_FIELDS
      invariant Intact(s, k, out)
    {
      var r := records[i];
      var mac := s.mac(key, Canonical(s, r) + prev);
      r := r["prev_sig" := prev];
      r := r["sig_chain" := mac];
      assert Content(r) == Content(records[i]);
      AppendKeepsIntact(s, k, out, r);
      out := out + [r];
      prev := mac;
      if k.evolve {
        key := s.evolve(key);
      }
    }
  }

  lemma AppendKeepsIntact(s: Scheme, k: Keying, rs: seq<Rec>, r: Rec)
    requires Intact(s, k, rs)
    requires PrevSig(r) == Some(Head(rs))
    requires Sig(r) == s.mac(KeyAt(s, k, |rs|), Canonical(s, r) + Head(rs))
    ensures Intact(s, k, rs + [r])
  {
    forall i | 0 <= i < |rs| ensures LinkHolds(rs + [r], i) && MacHolds(s, k, rs + [r], i) {
      assert LinkHolds(rs, i) && MacHolds(s, k, rs, i);
    }
  }

  datatype Fault = PrevLinkMismatch | MacMismatch | Truncated | HeadMismatch

  datatype Report = Ok | Broken(index: nat, fault: Fault)

  // The report names the first record that fails, and its link before its MAC.
  method VerifyChain(s: Scheme, records: seq<Rec>, k: Keying, expectLen: Option<int>, expectHead: Option<string>)
      returns (report: Report)
    ensures report.Ok? <==> Verifies(s, k, records, expectLen, expectHead)
    ensures !Intact(s, k, records) ==> FirstFault(s, k, records, report)
    ensures Intact(s, k, records) && report.Broken? && expectLen.Some? && |records| < expectLen.value ==>
      report == Broken(|records|, Truncated)
    ensures Intact(s, k, records) && report.Broken? && !(expectLen.Some? && |records| < expectLen.value) ==>
      report == Broken(if records == [] then 0 else |records| - 1, HeadMismatch)
  {
    var prev, key := "", k.key;
    for i := 0 to |records|
      invariant prev == PrevAt(records, i) && key == KeyAt(s, k, i)
      invariant forall j :: 0 <= j < i ==> LinkHolds(records, j) && MacHolds(s, k, records, j)
    {
      var rec := records[i];
      if PrevSig(rec) != Some(prev) {
        assert !LinkHolds(records, i);
        return Broken(i, PrevLinkMismatch);
      }
      var expected := s.mac(key, Canonical(s, rec) + prev);
      if Sig(rec) != expected {
        assert LinkHolds(records, i) && !MacHolds(s, k, records, i);
        return Broken(i, MacMismatch);
      }
      prev := Sig(rec);
      if k.evolve {
        key := s.evolve(key);
      }
    }
    if expectLen.Some? && |records| < expectLen.value {
      return Broken(|records|, Truncated);
    }
    if expectHead.Some? && prev != expectHead.value {
      return Broken(if records == [] then 0 else |records| - 1, HeadMismatch);
    }
    return Ok;
  }

  predicate FirstFault(s: Scheme, k: Keying, rs: seq<Rec>, report: Report) {
    && report.Broken?
    && report.index < |rs|
    && (forall j :: 0 <= j < report.index ==> LinkHolds(rs, j) && MacHolds(s, k, rs, j))
    && (if report.fault == PrevLinkMismatch then !LinkHolds(rs, report.index)
        else report.fault == MacMismatch && LinkHolds(rs, report.index) && !MacHolds(s, k, rs, report.index))
  }

  // What a chain does and does not bind ------------------------------------------------------

  // Without an anchor every prefix verifies; an expected length accepts exactly the
  // prefixes at least that long, so the full length rejects every truncation.
  lemma PrefixVerifiesIffLongEnough(s: Scheme, k: Keying, rs: seq<Rec>, n: nat, expectLen: Option<int>)
    requires Intact(s, k, rs) && n <= |rs|
    ensures Verifies(s, k, rs[..n], expectLen, None) <==> expectLen.None? || n >= expectLen.value
  {
    PrefixIsIntact(s, k, rs, n);
  }

  lemma PrefixIsIntact(s: Scheme, k: Keying, rs: seq<Rec>, n: nat)
    requires Intact(s, k, rs) && n <= |rs|
    ensures Intact(s, k, rs[..n])
  {
    forall i | 0 <= i < n ensures LinkHolds(rs[..n], i) && MacHolds(s, k, rs[..n], i) {
      assert LinkHolds(rs, i) && MacHolds(s, k, rs, i);
    }
  }

  lemma SameFieldsSameRecord(a: Rec, b: Rec)
    requires Content(a) == Content(b) && a.Keys == b.Keys
    requires Sig(a) == Sig(b) && PrevSig(a) == PrevSig(b)
    ensures a == b
  {
    forall f | f in a ensures a[f] == b[f] {
      assert f in CHAIN_FIELDS || (f in Content(a) && Content(a)[f] == Content(b)[f]);
    }
  }

  // Signing leaves no choice: contents and key determine the whole chain.
  lemma {:induction false} ChainIsDetermined(s: Scheme, k: Keying, a: seq<Rec>, b: seq<Rec>)
    requires Intact(s, k, a) && Intact(s, k, b) && |a| == |b|
    requires forall i :: 0 <= i < |a| ==> Content(a[i]) == Content(b[i]) && a[i].Keys == b[i].Keys
    ensures a == b
    decreases |a|
  {
    if a != [] {
      hide Content, Sig, PrevSig;
      var n := |a| - 1;
      PrefixIsIntact(s, k, a, n);
      PrefixIsIntact(s, k, b, n);
      ChainIsDetermined(s, k, a[..n], b[..n]);
      assert n > 0 ==> a[..n][n - 1] == b[..n][n - 1];
      assert PrevAt(a, n) == PrevAt(b, n);
      assert LinkHolds(a, n) && LinkHolds(b, n) && MacHolds(s, k, a, n) && MacHolds(s, k, b, n);
      SameFieldsSameRecord(a[n], b[n]);
      assert a == a[..n] + [a[n]] && b == b[..n] + [b[n]];
    }
  }

  // The MAC of a's record i equals that of b's record j on different inputs.
  predicate Collides(s: Scheme, k: Keying, a: seq<Rec>, i: nat, b: seq<Rec>, j: nat)
    requires i < |a| && j < |b|
  {
    && (KeyAt(s, k, i) != KeyAt(s, k, j) || MessageAt(s, a, i) != MessageAt(s, b, j))
    && s.mac(KeyAt(s, k, i), MessageAt(s, a, i)) == s.mac(KeyAt(s, k, j), MessageAt(s, b, j))
  }

  predicate ExhibitCollision(s: Scheme, k: Keying, a: seq<Rec>, b: seq<Rec>) {
    exists i, j :: 0 <= i < |a| && 0 <= j < |b| && Collides(s, k, a, i, b, j)
  }

  // What the theorems below fall back on is a real collision: two different inputs, of the
  // two chains, with one MAC.
  lemma CollisionIsReal(s: Scheme, k: Keying, a: seq<Rec>, b: seq<Rec>)
      returns (key1: string, text1: string, key2: string, text2: string)
    requires ExhibitCollision(s, k, a, b)
    ensures s.mac(key1, text1) == s.mac(key2, text2) && (key1, text1) != (key2, text2)
  {
    var i, j :| 0 <= i < |a| && 0 <= j < |b| && Collides(s, k, a, i, b, j);
    key1, text1, key2, text2 := KeyAt(s, k, i), MessageAt(s, a, i), KeyAt(s, k, j), MessageAt(s, b, j);
  }

  lemma LastBrace(x: string, p: string)
    requires x != "" && x[|x| - 1] == '}' && '}' !in p
    ensures (x + p)[|x| - 1] == '}'
    ensures forall m :: |x| <= m < |x + p| ==> (x + p)[m] != '}'
  {
    forall m | |x| <= m < |x + p| ensures (x + p)[m] != '}' {
      assert (x + p)[m] == p[m - |x|];
    }
  }

  // Content and previous MAC can be read back from the signed message.
  lemma MessageSplits(x: string, y: string, p: string, q: string)
    requires x != "" && y != "" && x[|x| - 1] == '}' && y[|y| - 1] == '}'
    requires '}' !in p && '}' !in q && x + p == y + q
    ensures x == y && p == q
  {
    LastBrace(x, p);
    LastBrace(y, q);
    assert x == (x + p)[..|x|] && y == (y + q)[..|y|];
    assert p == (x + p)[|x|..] && q == (y + q)[|y|..];
  }

  lemma IntactPrevIsHex(s: Scheme, k: Keying, rs: seq<Rec>, i: nat)
    requires WellShaped(s) && Intact(s, k, rs) && i <= |rs|
    ensures '}' !in PrevAt(rs, i)
    ensures i > 0 ==> PrevAt(rs, i) != ""
  {
    if i > 0 {
      assert MacHolds(s, k, rs, i - 1);
    }
  }

  // Equal MACs of two intact chains: equal contents and equal predecessors, or a collision.
  lemma EqualSigsStepBack(s: Scheme, k: Keying, a: seq<Rec>, i: nat, b: seq<Rec>, j: nat)
    requires WellShaped(s) && Intact(s, k, a) && Intact(s, k, b)
    requires i < |a| && j < |b| && Sig(a[i]) == Sig(b[j]) && !Collides(s, k, a, i, b, j)
    ensures Canonical(s, a[i]) == Canonical(s, b[j]) && PrevAt(a, i) == PrevAt(b, j)
  {
    assert MacHolds(s, k, a, i) && MacHolds(s, k, b, j);
    IntactPrevIsHex(s, k, a, i);
    IntactPrevIsHex(s, k, b, j);
    MessageSplits(Canonical(s, a[i]), Canonical(s, b[j]), PrevAt(a, i), PrevAt(b, j));
  }

  // Equal running MACs mean equal positions and equal canonical contents up to there.
  lemma {:induction false} EqualHeadsEqualLogs(s: Scheme, k: Keying, a: seq<Rec>, i: nat, b: seq<Rec>, j: nat)
    requires WellShaped(s) && Intact(s, k, a) && Intact(s, k, b)
    requires i <= |a| && j <= |b| && PrevAt(a, i) == PrevAt(b, j)
    requires !ExhibitCollision(s, k, a, b)
    ensures i == j && forall m :: 0 <= m < i ==> Canonical(s, a[m]) == Canonical(s, b[m])
  {
    hide Canonical, Intact, WellShaped;
    IntactPrevIsHex(s, k, a, i);
    IntactPrevIsHex(s, k, b, j);
    if i > 0 && j > 0 {
      assert !Collides(s, k, a, i - 1, b, j - 1);
      EqualSigsStepBack(s, k, a, i - 1, b, j - 1);
      EqualHeadsEqualLogs(s, k, a, i - 1, b, j - 1);
    }
  }

  // The head binds the whole log: two chains accepted against the same head have the same
  // length and the same canonical contents, or they contain a MAC collision between them.
  lemma HeadBindsWholeLog(s: Scheme, k: Keying, a: seq<Rec>, b: seq<Rec>, head: string,
                          lenA: Option<int>, lenB: Option<int>)
    requires WellShaped(s)
    requires Verifies(s, k, a, lenA, Some(head)) && Verifies(s, k, b, lenB, Some(head))
    ensures ExhibitCollision(s, k, a, b) ||
      (|a| == |b| && forall i :: 0 <= i < |a| ==> Canonical(s, a[i]) == Canonical(s, b[i]))
  {
    if !ExhibitCollision(s, k, a, b) {
      EqualHeadsEqualLogs(s, k, a, |a|, b, |b|);
    }
  }

  // Hence no truncation passes the head anchor.
  lemma HeadRejectsTruncation(s: Scheme, k: Keying, rs: seq<Rec>, n: nat)
    requires WellShaped(s) && Intact(s, k, rs) && n <= |rs| && !ExhibitCollision(s, k, rs, rs[..n])
    ensures Verifies(s, k, rs[..n], None, Some(Head(rs))) <==> n == |rs|
  {
    PrefixIsIntact(s, k, rs, n);
    if Head(rs[..n]) == Head(rs) {
      EqualHeadsEqualLogs(s, k, rs, |rs|, rs[..n], n);
    }
    assert rs[..|rs|] == rs;
  }

  // Interior tampering -------------------------------------------------------------------------

  // A record of an intact chain at another position breaks the link there: the first
  // fault of a deletion, a reorder or a repeat is exactly where the logs part.
  lemma MovedRecordIsReported(s: Scheme, k: Keying, a: seq<Rec>, b: seq<Rec>, i: nat, j: nat, report: Report)
    requires WellShaped(s) && Intact(s, k, a) && !ExhibitCollision(s, k, a, a)
    requires i < |b| && i <= |a| && b[..i] == a[..i]
    requires j < |a| && j != i && b[i] == a[j]
    ensures !Intact(s, k, b)
    ensures FirstFault(s, k, b, report) ==> report == Broken(i, PrevLinkMismatch)
  {
    assert PrevAt(b, i) == PrevAt(a, i) by { assert i > 0 ==> b[..i][i - 1] == a[..i][i - 1]; }
    if PrevAt(a, i) == PrevAt(a, j) {
      EqualHeadsEqualLogs(s, k, a, i, a, j);
    }
    assert LinkHolds(a, j) && !LinkHolds(b, i);
    UntouchedPrefixHolds(s, k, a, b, i);
  }

  lemma UntouchedPrefixHolds(s: Scheme, k: Keying, a: seq<Rec>, b: seq<Rec>, i: nat)
    requires Intact(s, k, a) && i <= |a| && i <= |b| && b[..i] == a[..i]
    ensures forall m :: 0 <= m < i ==> LinkHolds(b, m) && MacHolds(s, k, b, m)
  {
    PrefixIsIntact(s, k, a, i);
    forall m | 0 <= m < i ensures LinkHolds(b, m) && MacHolds(s, k, b, m) {
      assert LinkHolds(b[..i], m) && MacHolds(s, k, b[..i], m);
      assert b[..i][m] == b[m];
    }
  }

  // An interior deletion, as the special case a reader looks for.
  lemma InteriorDeletionIsReported(s: Scheme, k: Keying, a: seq<Rec>, i: nat, report: Report)
    requires WellShaped(s) && Intact(s, k, a) && !ExhibitCollision(s, k, a, a)
    requires i + 1 < |a|
    ensures !Intact(s, k, a[..i] + a[i + 1..])
    ensures FirstFault(s, k, a[..i] + a[i + 1..], report) ==> report == Broken(i, PrevLinkMismatch)
  {
    var b := a[..i] + a[i + 1..];
    assert b[i] == a[i + 1] && b[..i] == a[..i];
    MovedRecordIsReported(s, k, a, b, i, i + 1, report);
  }

  // An edit that leaves the chain fields alone is reported at the edited record.
  lemma EditIsReported(s: Scheme, k: Keying, a: seq<Rec>, b: seq<Rec>, i: nat, report: Report)
    requires WellShaped(s) && Intact(s, k, a)
    requires i < |a| && i < |b| && b[..i] == a[..i]
    requires Sig(b[i]) == Sig(a[i]) && PrevSig(b[i]) == PrevSig(a[i])
    requires Canonical(s, b[i]) != Canonical(s, a[i]) && !Collides(s, k, a, i, b, i)
    ensures !Intact(s, k, b)
    ensures FirstFault(s, k, b, report) ==> report == Broken(i, MacMismatch)
  {
    assert PrevAt(b, i) == PrevAt(a, i) by { assert i > 0 ==> b[..i][i - 1] == a[..i][i - 1]; }
    assert LinkHolds(a, i) && MacHolds(s, k, a, i);
    UntouchedPrefixHolds(s, k, a, b, i);
    if MessageAt(s, b, i) == MessageAt(s, a, i) {
      IntactPrevIsHex(s, k, a, i);
      MessageSplits(Canonical(s, a[i]), Canonical(s, b[i]), PrevAt(a, i), PrevAt(a, i));
    }
    assert !MacHolds(s, k, b, i);
  }
}

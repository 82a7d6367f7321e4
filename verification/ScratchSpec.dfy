/** The per-session scratch as a function of everything recorded so far: an LRU of sessions holding rings. */
module ScratchSpec {
  import opened GraphTypes

  const MAX_ENTRIES: nat := 100
  const MAX_SESSIONS: nat := 16

  datatype Record = EditRecord(session: string, edit: ScratchEdit) | CheckRecord(session: string, check: ScratchCheck)

  datatype SessionScratch = SessionScratch(edits: seq<ScratchEdit>, checks: seq<ScratchCheck>)

  function LastN<T>(s: seq<T>, n: nat): seq<T> { if |s| <= n then s else s[|s| - n..] }

  // ---------- What should be kept ----------

  /** The other sessions recorded since the session's last record. */
  ghost function OthersSince(h: seq<Record>, s: string): set<string> {
    if h == [] then {} else
      var last := h[|h| - 1].session;
      if last == s then {} else OthersSince(h[..|h| - 1], s) + {last}
  }

  ghost predicate Recorded(h: seq<Record>, s: string) { exists r | r in h :: r.session == s }

  /** A session survives while fewer than MAX_SESSIONS distinct others were recorded since its last record. */
  ghost predicate Live(h: seq<Record>, s: string) {
    Recorded(h, s) && |OthersSince(h, s)| < MAX_SESSIONS
  }

  /** The session's records since it was last admitted. */
  ghost function Since(h: seq<Record>, s: string): seq<Record> {
    if h == [] then [] else
      var rest, last := h[..|h| - 1], h[|h| - 1];
      if last.session != s then Since(rest, s)
      else (if Live(rest, s) then Since(rest, s) else []) + [last]
  }

  ghost function Edits(rs: seq<Record>): seq<ScratchEdit> {
    if rs == [] then [] else
      Edits(rs[..|rs| - 1]) + (if rs[|rs| - 1].EditRecord? then [rs[|rs| - 1].edit] else [])
  }

  ghost function Checks(rs: seq<Record>): seq<ScratchCheck> {
    if rs == [] then [] else
      Checks(rs[..|rs| - 1]) + (if rs[|rs| - 1].CheckRecord? then [rs[|rs| - 1].check] else [])
  }

  /** The distinct sessions by last activity, the most recent last. */
  ghost function Recency(h: seq<Record>): seq<string> {
    if h == [] then [] else MoveToBack(Recency(h[..|h| - 1]), h[|h| - 1].session)
  }

  function Without(r: seq<string>, s: string): seq<string> {
    if r == [] then [] else
      Without(r[..|r| - 1], s) + (if r[|r| - 1] == s then [] else [r[|r| - 1]])
  }

  function MoveToBack(r: seq<string>, s: string): seq<string> { Without(r, s) + [s] }

  /** The elements behind s. */
  ghost function Behind(r: seq<string>, s: string): set<string> {
    if r == [] then {} else
      var last := r[|r| - 1];
      if last == s then {} else Behind(r[..|r| - 1], s) + {last}
  }

  // ---------- The recency order ----------

  lemma {:induction false} WithoutMembers(r: seq<string>, s: string)
    ensures forall x :: x in Without(r, s) <==> x in r && x != s
  {
    if r == [] {
    } else {
      WithoutMembers(r[..|r| - 1], s);
      assert r == r[..|r| - 1] + [r[|r| - 1]];
    }
  }

  lemma {:induction false} WithoutNoDup(r: seq<string>, s: string)
    requires NoDup(r)
    ensures NoDup(Without(r, s))
  {
    if r == [] {
    } else {
      var front, last := r[..|r| - 1], r[|r| - 1];
      WithoutNoDup(front, s);
      if last == s {
        assert Without(r, s) == Without(front, s);
      } else {
        WithoutMembers(front, s);
        NoDupSnoc(Without(front, s), last);
        assert Without(r, s) == Without(front, s) + [last];
      }
    }
  }

  lemma {:induction false} WithoutLength(r: seq<string>, s: string)
    requires NoDup(r)
    ensures |Without(r, s)| == if s in r then |r| - 1 else |r|
  {
    if r == [] {
    } else {
      var front, last := r[..|r| - 1], r[|r| - 1];
      WithoutLength(front, s);
      assert r == front + [last];
    }
  }

  lemma WithoutFacts(r: seq<string>, s: string)
    requires NoDup(r)
    ensures NoDup(Without(r, s))
    ensures |Without(r, s)| == if s in r then |r| - 1 else |r|
  {
    WithoutNoDup(r, s);
    WithoutLength(r, s);
  }

  lemma {:induction false} BehindWithout(r: seq<string>, s: string, x: string)
    requires x != s
    ensures Behind(Without(r, s), x) == Behind(r, x) - {s}
  {
    if r == [] {
    } else {
      var front, last := r[..|r| - 1], r[|r| - 1];
      BehindWithout(front, s, x);
      if last == s { assert Without(r, s) == Without(front, s); } else { BehindSnoc(Without(front, s), last, x); }
    }
  }

  lemma {:induction false} WithoutConcat(a: seq<string>, b: seq<string>, s: string)
    ensures Without(a + b, s) == Without(a, s) + Without(b, s)
  {
    if b == [] {
      assert a + b == a;
    } else {
      WithoutConcat(a, b[..|b| - 1], s);
      assert (a + b)[..|a + b| - 1] == a + b[..|b| - 1];
    }
  }

  lemma BehindSnoc(r: seq<string>, x: string, s: string)
    ensures Behind(r + [x], s) == if x == s then {} else Behind(r, s) + {x}
  {
    assert (r + [x])[..|r|] == r;
  }

  lemma MovedNoDup(r: seq<string>, s: string)
    requires NoDup(r)
    ensures NoDup(MoveToBack(r, s))
  {
    WithoutFacts(r, s);
    WithoutMembers(r, s);
    NoDupSnoc(Without(r, s), s);
  }

  lemma {:induction false} RecencyNoDup(h: seq<Record>)
    ensures NoDup(Recency(h))
  {
    if h == [] {
    } else {
      RecencyNoDup(h[..|h| - 1]);
      MovedNoDup(Recency(h[..|h| - 1]), h[|h| - 1].session);
    }
  }

  lemma {:induction false} RecencyMember(h: seq<Record>, s: string)
    ensures s in Recency(h) <==> Recorded(h, s)
  {
    if h == [] {
    } else {
      var rest, last := h[..|h| - 1], h[|h| - 1];
      RecencyMember(rest, s);
      WithoutMembers(Recency(rest), last.session);
      RecordedSnoc(rest, last, s);
      assert h == rest + [last];
    }
  }

  lemma RecencyMembers(h: seq<Record>)
    ensures NoDup(Recency(h))
    ensures forall s :: s in Recency(h) <==> Recorded(h, s)
  {
    RecencyNoDup(h);
    forall s ensures s in Recency(h) <==> Recorded(h, s) { RecencyMember(h, s); }
  }

  lemma {:induction false} BehindIsSince(h: seq<Record>, s: string)
    requires s in Recency(h)
    ensures Behind(Recency(h), s) == OthersSince(h, s)
  {
    var rest, last := h[..|h| - 1], h[|h| - 1].session;
    BehindSnoc(Without(Recency(rest), last), last, s);
    if s != last {
      WithoutMembers(Recency(rest), last);
      BehindIsSince(rest, s);
      BehindWithout(Recency(rest), last, s);
    }
  }

  /** The recency order has no repeats, holds the recorded sessions, and behind each session stand exactly the
      sessions recorded since its last record. */
  lemma RecencyFacts(h: seq<Record>)
    ensures NoDup(Recency(h))
    ensures forall s :: s in Recency(h) <==> Recorded(h, s)
    ensures forall s | s in Recency(h) :: Behind(Recency(h), s) == OthersSince(h, s)
  {
    RecencyMembers(h);
    forall s | s in Recency(h) ensures Behind(Recency(h), s) == OthersSince(h, s) { BehindIsSince(h, s); }
  }

  lemma RecordedSnoc(h: seq<Record>, r: Record, s: string)
    ensures Recorded(h + [r], s) <==> Recorded(h, s) || r.session == s
  {
    assert r in h + [r];
    if Recorded(h, s) { var x :| x in h && x.session == s; assert x in h + [r]; }
  }

  lemma {:induction false} BehindMembers(r: seq<string>, s: string)
    ensures forall x | x in Behind(r, s) :: x in r
  {
    if r == [] {
    } else {
      BehindMembers(r[..|r| - 1], s);
      assert r == r[..|r| - 1] + [r[|r| - 1]];
    }
  }

  /** In a list without repeats, an element is among the last n exactly when fewer than n stand behind it. */
  lemma {:induction false} AmongLast(r: seq<string>, s: string, n: nat)
    requires NoDup(r)
    ensures s in LastN(r, n) <==> s in r && |Behind(r, s)| < n
  {
    if r == [] || n == 0 {
    } else {
      var front, last := r[..|r| - 1], r[|r| - 1];
      AmongLast(front, s, n - 1);
      LastNSnoc(front, last, n);
      assert r == front + [last];
      BehindMembers(front, s);
      assert last !in Behind(front, s);
    }
  }

  lemma LastNSnoc(front: seq<string>, last: string, n: nat)
    requires n > 0
    ensures LastN(front + [last], n) == LastN(front, n - 1) + [last]
  {
  }

  /** Session x was recorded after the last record of s. */
  ghost predicate RecordedSince(h: seq<Record>, s: string, x: string) {
    x != s && exists q: nat :: q < |h| && h[q].session == x && forall p: nat | q < p < |h| :: h[p].session != s
  }

  lemma {:induction false} OthersExactly(h: seq<Record>, s: string, x: string)
    ensures x in OthersSince(h, s) <==> RecordedSince(h, s, x)
  {
    if h == [] {
    } else {
      var k, rest := |h| - 1, h[..|h| - 1];
      OthersExactly(rest, s, x);
      if h[k].session != s {
        if RecordedSince(rest, s, x) {
          var q: nat :| q < |rest| && rest[q].session == x && forall p: nat | q < p < |rest| :: rest[p].session != s;
          assert h[q].session == x;
        }
        if RecordedSince(h, s, x) && h[k].session != x {
          var q: nat :| q < |h| && h[q].session == x && forall p: nat | q < p < |h| :: h[p].session != s;
          assert rest[q].session == x;
        }
      }
    }
  }

  /** The sessions kept are exactly those with fewer than 16 distinct others since, at most 16 of them. */
  lemma KeptAreLive(h: seq<Record>)
    ensures forall s :: s in LastN(Recency(h), MAX_SESSIONS) <==> Recorded(h, s) && |OthersSince(h, s)| < 16
    ensures |LastN(Recency(h), MAX_SESSIONS)| <= 16 && NoDup(LastN(Recency(h), MAX_SESSIONS))
  {
    RecencyFacts(h);
    forall s ensures s in LastN(Recency(h), MAX_SESSIONS) <==> Live(h, s) {
      AmongLast(Recency(h), s, MAX_SESSIONS);
    }
    NoDupLast(Recency(h), MAX_SESSIONS);
  }

  lemma {:induction false} NoDupLast(r: seq<string>, n: nat)
    requires NoDup(r)
    ensures NoDup(LastN(r, n))
  {
    if r == [] || n == 0 {
    } else {
      var front, last := r[..|r| - 1], r[|r| - 1];
      NoDupLast(front, n - 1);
      LastNSnoc(front, last, n);
      assert r == front + [last];
      assert forall x | x in LastN(front, n - 1) :: x in front;
      NoDupSnoc(LastN(front, n - 1), last);
    }
  }

  /** The position of the session's last record. */
  ghost function LastRecord(h: seq<Record>, s: string): int {
    if h == [] then -1 else if h[|h| - 1].session == s then |h| - 1 else LastRecord(h[..|h| - 1], s)
  }

  lemma {:induction false} LastRecordBound(h: seq<Record>, s: string)
    ensures LastRecord(h, s) < |h|
  {
    if h == [] {
    } else {
      LastRecordBound(h[..|h| - 1], s);
    }
  }

  lemma {:induction false} WithoutOrdered(r: seq<string>, s: string, h: seq<Record>)
    requires forall i, j | 0 <= i < j < |r| :: LastRecord(h, r[i]) < LastRecord(h, r[j])
    ensures forall i, j | 0 <= i < j < |Without(r, s)| ::
              LastRecord(h, Without(r, s)[i]) < LastRecord(h, Without(r, s)[j])
    ensures forall i | 0 <= i < |Without(r, s)| :: Without(r, s)[i] in r && Without(r, s)[i] != s
  {
    if r == [] {
    } else {
      WithoutOrdered(r[..|r| - 1], s, h);
      var w := Without(r[..|r| - 1], s);
      forall i | 0 <= i < |w| ensures LastRecord(h, w[i]) < LastRecord(h, r[|r| - 1]) {
        var k :| 0 <= k < |r| - 1 && r[k] == w[i];
      }
    }
  }

  /** The recency order is by last activity. */
  lemma {:induction false} RecencyOrdered(h: seq<Record>)
    ensures forall i, j | 0 <= i < j < |Recency(h)| :: LastRecord(h, Recency(h)[i]) < LastRecord(h, Recency(h)[j])
  {
    if h == [] {
    } else {
      var rest, last := h[..|h| - 1], h[|h| - 1].session;
      var w := Without(Recency(rest), last);
      RecencyOrdered(rest);
      WithoutOrdered(Recency(rest), last, rest);
      forall i, j | 0 <= i < j < |Recency(h)| ensures LastRecord(h, Recency(h)[i]) < LastRecord(h, Recency(h)[j]) {
        assert w[i] != last;
        LastRecordBound(rest, w[i]);
        if j < |w| { assert w[j] != last; }
      }
    }
  }

  // ---------- One record ----------

  lemma LastOfThree(a: seq<string>, b: seq<string>, s: string, n: nat)
    requires |b| + 1 >= n
    ensures LastN(a + b + [s], n) == LastN(b + [s], n)
  {
  }

  lemma CutMove(a: seq<string>, b: seq<string>, s: string, n: nat)
    requires NoDup(b) && |b| >= n
    ensures LastN(MoveToBack(a + b, s), n) == LastN(MoveToBack(b, s), n)
  {
    WithoutConcat(a, b, s);
    WithoutFacts(b, s);
    LastOfThree(Without(a, s), Without(b, s), s, n);
  }

  /** Moving to the back and cutting to length gives the same whether or not the list was cut before. */
  lemma CutMoveCut(r: seq<string>, s: string)
    requires NoDup(r)
    ensures LastN(MoveToBack(LastN(r, MAX_SESSIONS), s), MAX_SESSIONS) == LastN(MoveToBack(r, s), MAX_SESSIONS)
  {
    if |r| > MAX_SESSIONS {
      var a, b := r[..|r| - MAX_SESSIONS], r[|r| - MAX_SESSIONS..];
      NoDupLast(r, MAX_SESSIONS);
      CutMove(a, b, s, MAX_SESSIONS);
      assert r == a + b;
    }
  }

  /** The scratch holds, for the records h: the live sessions in recency order, each with its rings. */
  ghost predicate Holds(h: seq<Record>, sessions: map<string, SessionScratch>, lru: seq<string>) {
    && lru == LastN(Recency(h), MAX_SESSIONS)
    && sessions.Keys == Elements(lru)
    && forall s | s in sessions :: sessions[s] == Rings(h, s)
  }

  /** The last MAX_ENTRIES edits and checks since the session was last admitted. */
  ghost function Rings(h: seq<Record>, s: string): SessionScratch {
    SessionScratch(LastN(Edits(Since(h, s)), MAX_ENTRIES), LastN(Checks(Since(h, s)), MAX_ENTRIES))
  }

  /** The session has a record at position k, and was still live at each of its records after it. */
  ghost predicate Stays(h: seq<Record>, s: string, k: nat, n: nat) {
    k < n <= |h| && h[k].session == s && forall q: nat | k < q < n && h[q].session == s :: LiveAt(h, s, q)
  }

  ghost predicate LiveAt(h: seq<Record>, s: string, q: nat) { q <= |h| && Live(h[..q], s) }

  /** Exactly the positions of such records among the first n, of edits or of checks, in order. */
  ghost predicate StayAt(h: seq<Record>, s: string, n: nat, edits: bool, at: seq<nat>) {
    && n <= |h| && (forall i, j | 0 <= i < j < |at| :: at[i] < at[j])
    && (forall k: nat :: k in at <==> k < n && h[k].EditRecord? == edits && Stays(h, s, k, n))
  }

  ghost predicate EditsAt(h: seq<Record>, at: seq<nat>, ring: seq<ScratchEdit>) {
    |ring| == |at| && forall i | 0 <= i < |at| :: at[i] < |h| && h[at[i]].EditRecord? && h[at[i]].edit == ring[i]
  }

  ghost predicate ChecksAt(h: seq<Record>, at: seq<nat>, ring: seq<ScratchCheck>) {
    |ring| == |at| && forall i | 0 <= i < |at| :: at[i] < |h| && h[at[i]].CheckRecord? && h[at[i]].check == ring[i]
  }

  /** What is left when record n comes, and with that record. */
  ghost function PositionsThen(h: seq<Record>, s: string, n: nat, edits: bool, at: seq<nat>): seq<nat>
    requires n < |h|
  {
    if h[n].session != s then at else
      (if LiveAt(h, s, n) then at else []) + (if h[n].EditRecord? == edits then [n] else [])
  }

  ghost function RecordsThen(h: seq<Record>, s: string, n: nat, rs: seq<Record>): seq<Record>
    requires n < |h|
  {
    if h[n].session != s then rs else (if LiveAt(h, s, n) then rs else []) + [h[n]]
  }

  lemma StaysNext(h: seq<Record>, s: string, n: nat, k: nat)
    requires k < n < |h|
    ensures Stays(h, s, k, n + 1) <==> Stays(h, s, k, n) && (h[n].session == s ==> LiveAt(h, s, n))
  {
  }

  lemma StayStep(h: seq<Record>, s: string, n: nat, edits: bool, at: seq<nat>)
    requires n < |h| && StayAt(h, s, n, edits, at)
    ensures StayAt(h, s, n + 1, edits, PositionsThen(h, s, n, edits, at))
  {
    var next := PositionsThen(h, s, n, edits, at);
    forall i | 0 <= i < |at| ensures at[i] < n { assert at[i] in at; }
    forall k: nat ensures k in next <==> k < n + 1 && h[k].EditRecord? == edits && Stays(h, s, k, n + 1) {
      if k < n { StaysNext(h, s, n, k); }
    }
  }

  lemma SinceNext(h: seq<Record>, s: string, n: nat)
    requires n < |h|
    ensures Since(h[..n + 1], s) == RecordsThen(h, s, n, Since(h[..n], s))
  {
    assert h[..n + 1][..n] == h[..n];
  }

  lemma {:induction false} EditsSinceAt(h: seq<Record>, s: string, n: nat) returns (at: seq<nat>)
    requires n <= |h|
    ensures StayAt(h, s, n, true, at) && EditsAt(h, at, Edits(Since(h[..n], s)))
  {
    if n == 0 {
      at := [];
    } else {
      var before := EditsSinceAt(h, s, n - 1);
      StayStep(h, s, n - 1, true, before);
      SinceNext(h, s, n - 1);
      EditsNext(h, s, n - 1, before, Since(h[..n - 1], s));
      at := PositionsThen(h, s, n - 1, true, before);
    }
  }

  lemma EditsNext(h: seq<Record>, s: string, n: nat, at: seq<nat>, rs: seq<Record>)
    requires n < |h| && EditsAt(h, at, Edits(rs))
    ensures EditsAt(h, PositionsThen(h, s, n, true, at), Edits(RecordsThen(h, s, n, rs)))
  {
    if h[n].session == s {
      var kept, left := if LiveAt(h, s, n) then rs else [], if LiveAt(h, s, n) then at else [];
      EntriesSnoc(kept, h[n]);
      assert left + [] == left;
      if h[n].EditRecord? { EditsAppend(h, left, Edits(kept), n); }
    }
  }

  lemma EditsAppend(h: seq<Record>, at: seq<nat>, ring: seq<ScratchEdit>, n: nat)
    requires EditsAt(h, at, ring) && n < |h| && h[n].EditRecord?
    ensures EditsAt(h, at + [n], ring + [h[n].edit])
  {
  }

  lemma {:induction false} ChecksSinceAt(h: seq<Record>, s: string, n: nat) returns (at: seq<nat>)
    requires n <= |h|
    ensures StayAt(h, s, n, false, at) && ChecksAt(h, at, Checks(Since(h[..n], s)))
  {
    if n == 0 {
      at := [];
    } else {
      var before := ChecksSinceAt(h, s, n - 1);
      StayStep(h, s, n - 1, false, before);
      SinceNext(h, s, n - 1);
      ChecksNext(h, s, n - 1, before, Since(h[..n - 1], s));
      at := PositionsThen(h, s, n - 1, false, before);
    }
  }

  lemma ChecksNext(h: seq<Record>, s: string, n: nat, at: seq<nat>, rs: seq<Record>)
    requires n < |h| && ChecksAt(h, at, Checks(rs))
    ensures ChecksAt(h, PositionsThen(h, s, n, false, at), Checks(RecordsThen(h, s, n, rs)))
  {
    if h[n].session == s {
      var kept, left := if LiveAt(h, s, n) then rs else [], if LiveAt(h, s, n) then at else [];
      EntriesSnoc(kept, h[n]);
      assert left + [] == left;
      if h[n].CheckRecord? { ChecksAppend(h, left, Checks(kept), n); }
    }
  }

  lemma ChecksAppend(h: seq<Record>, at: seq<nat>, ring: seq<ScratchCheck>, n: nat)
    requires ChecksAt(h, at, ring) && n < |h| && h[n].CheckRecord?
    ensures ChecksAt(h, at + [n], ring + [h[n].check])
  {
  }

  /** The rings hold the last 100 edits and the last 100 checks among those recorded since the session was admitted,
      in order. */
  lemma RingsExactly(h: seq<Record>, s: string) returns (edits: seq<nat>, checks: seq<nat>)
    ensures StayAt(h, s, |h|, true, edits) && StayAt(h, s, |h|, false, checks)
    ensures EditsAt(h, LastN(edits, 100), Rings(h, s).edits) && ChecksAt(h, LastN(checks, 100), Rings(h, s).checks)
  {
    assert h[..|h|] == h;
    edits := EditsSinceAt(h, s, |h|);
    checks := ChecksSinceAt(h, s, |h|);
  }

  function Pushed<T>(ring: seq<T>, x: T): seq<T> { LastN(ring + [x], MAX_ENTRIES) }

  lemma PushedRing<T>(all: seq<T>, x: T)
    ensures Pushed(LastN(all, MAX_ENTRIES), x) == LastN(all + [x], MAX_ENTRIES)
  {
  }

  /** A session's scratch with one more entry in its ring. */
  function Added(before: SessionScratch, r: Record): SessionScratch {
    match r
    case EditRecord(_, edit) => before.(edits := Pushed(before.edits, edit))
    case CheckRecord(_, check) => before.(checks := Pushed(before.checks, check))
  }

  const EMPTY_SCRATCH := SessionScratch([], [])

  lemma EntriesSnoc(rs: seq<Record>, r: Record)
    ensures Edits(rs + [r]) == if r.EditRecord? then Edits(rs) + [r.edit] else Edits(rs)
    ensures Checks(rs + [r]) == if r.CheckRecord? then Checks(rs) + [r.check] else Checks(rs)
  {
    assert (rs + [r])[..|rs|] == rs;
  }

  /** The rings of the recorded session gain the record; a session that was not live starts afresh. */
  lemma RingsOfRecorded(h: seq<Record>, r: Record)
    ensures Rings(h + [r], r.session) == Added(if Live(h, r.session) then Rings(h, r.session) else EMPTY_SCRATCH, r)
  {
    assert (h + [r])[..|h|] == h;
    var kept := if Live(h, r.session) then Since(h, r.session) else [];
    assert Since(h + [r], r.session) == kept + [r];
    EntriesSnoc(kept, r);
    match r
    case EditRecord(_, edit) => PushedRing(Edits(kept), edit);
    case CheckRecord(_, check) => PushedRing(Checks(kept), check);
  }

  lemma RingsOfOthers(h: seq<Record>, r: Record, s: string)
    requires s != r.session
    ensures Rings(h + [r], s) == Rings(h, s)
  {
    assert (h + [r])[..|h|] == h;
  }

  /** The session was moved to the back and has a scratch; the least recent beyond the limit are gone; all others
      are as before. */
  ghost predicate Touched(session: string, sessions: map<string, SessionScratch>, lru: seq<string>,
                          after: map<string, SessionScratch>, order: seq<string>) {
    && order == LastN(MoveToBack(lru, session), MAX_SESSIONS)
    && after.Keys == Elements(order) && session in after
    && (forall s | s in after && s != session :: s in sessions && after[s] == sessions[s])
    && after[session] == if session in sessions then sessions[session] else EMPTY_SCRATCH
  }

  lemma HoldsFacts(h: seq<Record>, sessions: map<string, SessionScratch>, lru: seq<string>)
    requires Holds(h, sessions, lru)
    ensures NoDup(lru) && |lru| <= MAX_SESSIONS
    ensures forall s | s in sessions :: |sessions[s].edits| <= MAX_ENTRIES && |sessions[s].checks| <= MAX_ENTRIES
    ensures forall s :: s in sessions <==> Live(h, s)
  {
    KeptAreLive(h);
    forall s ensures s in sessions <==> Live(h, s) { assert s in sessions <==> s in lru; }
    forall s | s in sessions ensures |sessions[s].edits| <= MAX_ENTRIES && |sessions[s].checks| <= MAX_ENTRIES {
      assert sessions[s] == Rings(h, s);
    }
  }

  lemma OrderStep(h: seq<Record>, r: Record)
    ensures LastN(Recency(h + [r]), MAX_SESSIONS)
         == LastN(MoveToBack(LastN(Recency(h), MAX_SESSIONS), r.session), MAX_SESSIONS)
  {
    assert (h + [r])[..|h|] == h;
    RecencyMembers(h);
    CutMoveCut(Recency(h), r.session);
  }

  /** One record: the session is touched and its ring gains the entry. */
  lemma HoldsStep(h: seq<Record>, r: Record, sessions: map<string, SessionScratch>, lru: seq<string>,
                  after: map<string, SessionScratch>, order: seq<string>)
    requires Holds(h, sessions, lru)
    requires Touched(r.session, sessions, lru, after, order)
    ensures Holds(h + [r], after[r.session := Added(after[r.session], r)], order)
  {
    OrderStep(h, r);
    HoldsFacts(h, sessions, lru);
    RingsOfRecorded(h, r);
    var next := after[r.session := Added(after[r.session], r)];
    forall s | s in next ensures next[s] == Rings(h + [r], s) {
      if s != r.session { RingsOfOthers(h, r, s); }
    }
    assert next.Keys == after.Keys;
  }
}

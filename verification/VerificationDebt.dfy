/** The scratch-fed detector of failed verifications: the latest check of each file, failed and not fixed since. */
module VerificationDebt {
  import opened GraphTypes

  /** Check j counts for file f once the first t checks and the first u files of check t have been seen. */
  ghost predicate Seen(checks: seq<ScratchCheck>, t: nat, u: nat, f: string, j: nat) {
    && j < |checks|
    && if j < t then f in checks[j].files else j == t && u <= |checks[t].files| && f in checks[t].files[..u]
  }

  /** The check is the first of the seen checks of the file with the greatest timestamp. */
  ghost predicate LatestSeen(checks: seq<ScratchCheck>, t: nat, u: nat, f: string, i: nat) {
    && Seen(checks, t, u, f, i)
    && forall j: nat | Seen(checks, t, u, f, j) ::
         checks[j].timestamp <= checks[i].timestamp && (j < i ==> checks[j].timestamp < checks[i].timestamp)
  }

  ghost predicate LatestMap(checks: seq<ScratchCheck>, t: nat, u: nat, latest: map<string, nat>) {
    && (forall f | f in latest :: LatestSeen(checks, t, u, f, latest[f]))
    && (forall f, j: nat | Seen(checks, t, u, f, j) :: f in latest)
  }

  lemma SeenMore(checks: seq<ScratchCheck>, t: nat, u: nat, f: string, j: nat)
    requires t < |checks| && u < |checks[t].files|
    ensures Seen(checks, t, u + 1, f, j) <==> Seen(checks, t, u, f, j) || (j == t && f == checks[t].files[u])
  {
    assert checks[t].files[..u + 1] == checks[t].files[..u] + [checks[t].files[u]];
  }

  lemma SeenAll(checks: seq<ScratchCheck>, t: nat, f: string, j: nat)
    requires t < |checks|
    ensures Seen(checks, t, |checks[t].files|, f, j) <==> Seen(checks, t + 1, 0, f, j)
  {
    assert checks[t].files[..|checks[t].files|] == checks[t].files;
  }

  lemma LatestStep(checks: seq<ScratchCheck>, t: nat, u: nat, latest: map<string, nat>, next: map<string, nat>)
    requires t < |checks| && u < |checks[t].files| && LatestMap(checks, t, u, latest)
    requires var f := checks[t].files[u];
      next == if f in latest && checks[latest[f]].timestamp >= checks[t].timestamp then latest else latest[f := t]
    ensures LatestMap(checks, t, u + 1, next)
  {
    forall f | f in next ensures LatestSeen(checks, t, u + 1, f, next[f]) {
      SeenMore(checks, t, u, f, next[f]);
      if f in latest { assert LatestSeen(checks, t, u, f, latest[f]); }
      forall j: nat | Seen(checks, t, u + 1, f, j)
        ensures checks[j].timestamp <= checks[next[f]].timestamp
        ensures j < next[f] ==> checks[j].timestamp < checks[next[f]].timestamp
      {
        SeenMore(checks, t, u, f, j);
      }
    }
    var more := u + 1;
    forall f, j: nat | Seen(checks, t, more, f, j) ensures f in next {
      SeenMore(checks, t, u, f, j);
    }
  }

  lemma LatestNextCheck(checks: seq<ScratchCheck>, t: nat, latest: map<string, nat>)
    requires t < |checks| && LatestMap(checks, t, |checks[t].files|, latest)
    ensures LatestMap(checks, t + 1, 0, latest)
  {
    forall f | f in latest ensures LatestSeen(checks, t + 1, 0, f, latest[f]) {
      SeenAll(checks, t, f, latest[f]);
      assert LatestSeen(checks, t, |checks[t].files|, f, latest[f]);
      forall j: nat | Seen(checks, t + 1, 0, f, j)
        ensures checks[j].timestamp <= checks[latest[f]].timestamp
        ensures j < latest[f] ==> checks[j].timestamp < checks[latest[f]].timestamp
      {
        SeenAll(checks, t, f, j);
      }
    }
    var next := t + 1;
    forall f, j: nat | Seen(checks, next, 0, f, j) ensures f in latest {
      SeenAll(checks, t, f, j);
    }
  }

  /** The check that decides a file: the latest that covers it, the first recorded among equals. */
  ghost predicate Decides(checks: seq<ScratchCheck>, f: string, i: nat) {
    && i < |checks| && f in checks[i].files
    && forall j | 0 <= j < |checks| && f in checks[j].files ::
         checks[j].timestamp <= checks[i].timestamp && (j < i ==> checks[j].timestamp < checks[i].timestamp)
  }

  /** The map gives each covered file the check that decides it. */
  ghost predicate IsLatest(checks: seq<ScratchCheck>, latest: map<string, nat>) {
    && (forall f | f in latest :: Decides(checks, f, latest[f]))
    && (forall j, f | 0 <= j < |checks| && f in checks[j].files :: f in latest)
  }

  method LatestChecks(checks: seq<ScratchCheck>) returns (latest: map<string, nat>)
    ensures IsLatest(checks, latest)
  {
    latest := map[];
    var t := 0;
    while t < |checks|
      invariant 0 <= t <= |checks|
      invariant LatestMap(checks, t, 0, latest)
    {
      var u := 0;
      while u < |checks[t].files|
        invariant 0 <= u <= |checks[t].files|
        invariant LatestMap(checks, t, u, latest)
      {
        var f := checks[t].files[u];
        ghost var before := latest;
        if f in latest && checks[latest[f]].timestamp >= checks[t].timestamp {
        } else {
          latest := latest[f := t];
        }
        LatestStep(checks, t, u, before, latest);
        u := u + 1;
      }
      LatestNextCheck(checks, t, latest);
      t := t + 1;
    }
    forall f | f in latest ensures Decides(checks, f, latest[f]) {
      assert LatestSeen(checks, |checks|, 0, f, latest[f]);
      forall j | 0 <= j < |checks| && f in checks[j].files ensures Seen(checks, |checks|, 0, f, j) { }
    }
    forall j, f | 0 <= j < |checks| && f in checks[j].files ensures f in latest {
      assert Seen(checks, |checks|, 0, f, j);
    }
  }

  ghost predicate Overlap(a: seq<string>, b: seq<string>) {
    exists f :: f in a && f in b
  }

  method FilesOverlap(a: seq<string>, b: seq<string>) returns (found: bool)
    ensures found == Overlap(a, b)
  {
    var i := 0;
    while i < |a|
      invariant 0 <= i <= |a| && forall f | f in a[..i] :: f !in b
    {
      if a[i] in b { return true; }
      i := i + 1;
    }
    assert a[..i] == a;
    found := false;
  }

  /** Some edit at or after the check touched one of its files. */
  ghost predicate Fixed(edits: seq<ScratchEdit>, check: ScratchCheck) {
    exists e | e in edits :: e.timestamp >= check.timestamp && Overlap(e.files, check.files)
  }

  method AnyFix(edits: seq<ScratchEdit>, check: ScratchCheck) returns (found: bool)
    ensures found == Fixed(edits, check)
  {
    var i := 0;
    while i < |edits|
      invariant 0 <= i <= |edits|
      invariant forall e | e in edits[..i] :: !(e.timestamp >= check.timestamp && Overlap(e.files, check.files))
    {
      assert edits[..i + 1] == edits[..i] + [edits[i]];
      var overlap := FilesOverlap(edits[i].files, check.files);
      if edits[i].timestamp >= check.timestamp && overlap { return true; }
      i := i + 1;
    }
    assert edits[..i] == edits;
    found := false;
  }

  /** The check decides one of its files, failed, and nothing has fixed it since. */
  ghost predicate Failing(edits: seq<ScratchEdit>, checks: seq<ScratchCheck>, i: nat) {
    i < |checks| && !checks[i].passed && !Fixed(edits, checks[i]) && exists f :: Decides(checks, f, i)
  }

  lemma DecidesUnique(checks: seq<ScratchCheck>, f: string, i: nat, j: nat)
    requires Decides(checks, f, i) && Decides(checks, f, j)
    ensures i == j
  {
  }

  /** The check decides one of its files and failed, but an edit has touched it since. */
  ghost predicate Repaired(edits: seq<ScratchEdit>, checks: seq<ScratchCheck>, i: nat) {
    i < |checks| && !checks[i].passed && Fixed(edits, checks[i]) && exists f :: Decides(checks, f, i)
  }

  // ---------- The order in which the files are visited ----------

  /** The covered files, each once, in some order. */
  ghost predicate IsVisit(latest: map<string, nat>, visit: seq<string>) {
    NoDup(visit) && forall f :: f in visit <==> f in latest
  }

  /** The ids reported and the ids seen, after visiting the files in this order. */
  datatype Report = Report(items: seq<string>, seen: set<string>)

  ghost function Visited(edits: seq<ScratchEdit>, checks: seq<ScratchCheck>, latest: map<string, nat>,
                         visit: seq<string>): Report
    requires IsLatest(checks, latest) && forall f | f in visit :: f in latest
  {
    if visit == [] then Report([], {}) else
      VisitOne(edits, Visited(edits, checks, latest, visit[..|visit| - 1]), checks[latest[visit[|visit| - 1]]])
  }

  ghost function VisitOne(edits: seq<ScratchEdit>, r: Report, check: ScratchCheck): Report {
    if check.passed || check.eventId in r.seen then r
    else Report(if Fixed(edits, check) then r.items else r.items + [check.eventId], r.seen + {check.eventId})
  }

  /** In every order: no id twice, and only ids of failing checks; every failed id visited is reported or was seen
      with a check that has been repaired. */
  lemma {:induction false} VisitedFacts(edits: seq<ScratchEdit>, checks: seq<ScratchCheck>, latest: map<string, nat>,
                                        visit: seq<string>)
    requires IsLatest(checks, latest) && forall f | f in visit :: f in latest
    ensures var r := Visited(edits, checks, latest, visit);
      && NoDup(r.items) && (forall id | id in r.items :: id in r.seen && ReportsFailing(edits, checks, id))
      && (forall id | id in r.seen && id !in r.items :: SeenRepaired(edits, checks, id))
      && (forall f | f in visit && !checks[latest[f]].passed :: checks[latest[f]].eventId in r.seen)
  {
    if visit == [] {
    } else {
      var rest, f := visit[..|visit| - 1], visit[|visit| - 1];
      assert visit == rest + [f];
      VisitedFacts(edits, checks, latest, rest);
      VisitFacts(edits, checks, latest, Visited(edits, checks, latest, rest), f);
    }
  }

  ghost predicate ReportsFailing(edits: seq<ScratchEdit>, checks: seq<ScratchCheck>, id: string) {
    exists i: nat :: Failing(edits, checks, i) && checks[i].eventId == id
  }

  ghost predicate SeenRepaired(edits: seq<ScratchEdit>, checks: seq<ScratchCheck>, id: string) {
    exists j: nat :: Repaired(edits, checks, j) && checks[j].eventId == id
  }

  lemma VisitFacts(edits: seq<ScratchEdit>, checks: seq<ScratchCheck>, latest: map<string, nat>, r: Report, f: string)
    requires IsLatest(checks, latest) && f in latest
    requires NoDup(r.items) && forall id | id in r.items :: id in r.seen && ReportsFailing(edits, checks, id)
    requires forall id | id in r.seen && id !in r.items :: SeenRepaired(edits, checks, id)
    ensures var next, check := VisitOne(edits, r, checks[latest[f]]), checks[latest[f]];
      && NoDup(next.items) && (forall id | id in next.items :: id in next.seen && ReportsFailing(edits, checks, id))
      && (forall id | id in next.seen && id !in next.items :: SeenRepaired(edits, checks, id))
      && r.seen <= next.seen && (check.passed || check.eventId in next.seen)
  {
    var i := latest[f];
    assert Decides(checks, f, i);
    if !checks[i].passed {
      assert Fixed(edits, checks[i]) ==> Repaired(edits, checks, i);
      assert !Fixed(edits, checks[i]) ==> Failing(edits, checks, i);
    }
  }

  /** Event ids of the failed verifications: what the files report in the order in which the map yields them, which
      may be any order. */
  method FailedVerifications(edits: seq<ScratchEdit>, checks: seq<ScratchCheck>)
    returns (items: seq<string>, ghost latest: map<string, nat>, ghost visit: seq<string>)
    ensures IsLatest(checks, latest) && IsVisit(latest, visit)
    ensures items == Visited(edits, checks, latest, visit).items
    ensures NoDup(items) && forall id | id in items :: ReportsFailing(edits, checks, id)
  {
    var decided := LatestChecks(checks);
    latest, visit, items := decided, [], [];
    var reported: set<string> := {};
    var rest := decided.Keys;
    while rest != {}
      invariant NoDup(visit) && forall f :: f in decided <==> f in visit || f in rest
      invariant forall f | f in visit :: f !in rest
      invariant Report(items, reported) == Visited(edits, checks, latest, visit)
      decreases rest
    {
      var f :| f in rest;
      rest := rest - {f};
      assert (visit + [f])[..|visit|] == visit;
      visit := visit + [f];
      var check := checks[decided[f]];
      if !check.passed && check.eventId !in reported {
        reported := reported + {check.eventId};
        var fixed := AnyFix(edits, check);
        if !fixed { items := items + [check.eventId]; }
      }
    }
    VisitedFacts(edits, checks, latest, visit);
  }

  // ---------- When every failing check is reported ----------

  /** Every failing check has its id among the items. */
  ghost predicate ReportsAll(edits: seq<ScratchEdit>, checks: seq<ScratchCheck>, items: seq<string>) {
    forall i: nat | Failing(edits, checks, i) :: checks[i].eventId in items
  }

  /** No repaired check shares its event id with a failing one. */
  ghost predicate Separate(edits: seq<ScratchEdit>, checks: seq<ScratchCheck>) {
    forall i: nat, j: nat | Failing(edits, checks, i) && Repaired(edits, checks, j) ::
      checks[i].eventId != checks[j].eventId
  }

  /** Every order of visiting the files reports every failing check, if and only if no repaired check shares its
      event id with a failing one. */
  lemma ReportsAllExactly(edits: seq<ScratchEdit>, checks: seq<ScratchCheck>, latest: map<string, nat>)
    requires IsLatest(checks, latest)
    ensures (forall visit | IsVisit(latest, visit) ::
              ReportsAll(edits, checks, Visited(edits, checks, latest, visit).items))
       <==> Separate(edits, checks)
  {
    if Separate(edits, checks) {
      forall visit | IsVisit(latest, visit)
        ensures ReportsAll(edits, checks, Visited(edits, checks, latest, visit).items)
      {
        SeparateReports(edits, checks, latest, visit);
      }
    } else {
      var i: nat, j: nat :| Failing(edits, checks, i) && Repaired(edits, checks, j)
        && checks[i].eventId == checks[j].eventId;
      var visit := Overlooks(edits, checks, latest, j);
      assert !ReportsAll(edits, checks, Visited(edits, checks, latest, visit).items);
    }
  }

  lemma SeparateReports(edits: seq<ScratchEdit>, checks: seq<ScratchCheck>, latest: map<string, nat>,
                        visit: seq<string>)
    requires IsLatest(checks, latest) && IsVisit(latest, visit) && Separate(edits, checks)
    ensures ReportsAll(edits, checks, Visited(edits, checks, latest, visit).items)
  {
    VisitedFacts(edits, checks, latest, visit);
    forall i: nat | Failing(edits, checks, i)
      ensures checks[i].eventId in Visited(edits, checks, latest, visit).items
    {
      var f :| Decides(checks, f, i);
      DecidesUnique(checks, f, i, latest[f]);
    }
  }

  /** An order that starts with a file whose check was repaired never reports that check's event id. */
  lemma Overlooks(edits: seq<ScratchEdit>, checks: seq<ScratchCheck>, latest: map<string, nat>, j: nat)
    returns (visit: seq<string>)
    requires IsLatest(checks, latest) && Repaired(edits, checks, j)
    ensures IsVisit(latest, visit)
    ensures checks[j].eventId !in Visited(edits, checks, latest, visit).items
  {
    var f :| Decides(checks, f, j);
    DecidesUnique(checks, f, j, latest[f]);
    var rest := Enumerated(latest.Keys - {f});
    visit := [f] + rest;
    StaysOverlooked(edits, checks, latest, f, rest);
  }

  lemma {:induction false} Enumerated(s: set<string>) returns (all: seq<string>)
    ensures NoDup(all) && forall x :: x in all <==> x in s
    decreases s
  {
    if s == {} {
      all := [];
    } else {
      var x :| x in s;
      var rest := Enumerated(s - {x});
      all := rest + [x];
    }
  }

  lemma {:induction false} StaysOverlooked(edits: seq<ScratchEdit>, checks: seq<ScratchCheck>, latest: map<string, nat>,
                                           f: string, rest: seq<string>)
    requires IsLatest(checks, latest) && f in latest && forall x | x in rest :: x in latest
    requires !checks[latest[f]].passed && Fixed(edits, checks[latest[f]])
    ensures var id, r := checks[latest[f]].eventId, Visited(edits, checks, latest, [f] + rest);
      id in r.seen && id !in r.items
  {
    if rest == [] {
      assert [f] + rest == [f] && [f][..0] == [];
      assert Visited(edits, checks, latest, []) == Report([], {});
    } else {
      var before := rest[..|rest| - 1];
      assert ([f] + rest)[..|rest|] == [f] + before;
      StaysOverlooked(edits, checks, latest, f, before);
    }
  }

  /** Two failed checks under one event id, the first repaired and the second not: one order reports the id, the
      other does not. */
  lemma OrderMatters(id: string, a: string, b: string)
    requires a != b
    ensures var first, second := ScratchCheck(id, [], [a], false, 1.0), ScratchCheck(id, [], [b], false, 2.0);
      var edits, checks, latest := [ScratchEdit([], [], [a], 3.0)], [first, second], map[a := 0, b := 1];
      && IsLatest(checks, latest) && Failing(edits, checks, 1)
      && IsVisit(latest, [a, b]) && Visited(edits, checks, latest, [a, b]).items == []
      && IsVisit(latest, [b, a]) && Visited(edits, checks, latest, [b, a]).items == [id]
  {
    var first, second := ScratchCheck(id, [], [a], false, 1.0), ScratchCheck(id, [], [b], false, 2.0);
    var edit := ScratchEdit([], [], [a], 3.0);
    var edits, checks, latest := [edit], [first, second], map[a := 0, b := 1];
    assert Decides(checks, a, 0) && Decides(checks, b, 1);
    assert a in edit.files && a in first.files && Overlap(edit.files, first.files) && edit in edits;
    assert Fixed(edits, first) && !Fixed(edits, second);
    assert [a, b][..1] == [a] && [b, a][..1] == [b] && [a][..0] == [] && [b][..0] == [];
    assert Visited(edits, checks, latest, []) == Report([], {});
    assert Visited(edits, checks, latest, [a]) == Report([], {id});
    assert Visited(edits, checks, latest, [b]) == Report([id], {id});
  }
}

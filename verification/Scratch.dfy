/** The in-memory scratch: per session the recent mutations and verification outcomes, in rings, LRU-evicted. */
module Scratch {
  import opened GraphTypes
  import opened ScratchSpec

  class ScratchStore {
    var sessions: map<string, SessionScratch>
    var lru: seq<string>
    ghost var history: seq<Record>

    ghost predicate Valid()
      reads this
    {
      Holds(history, sessions, lru)
    }

    constructor ()
      ensures Valid() && history == []
    {
      sessions, lru, history := map[], [], [];
    }

    /** Marks the session most recently active, evicts the least recently active beyond the limit, and makes sure
        the session has a scratch. */
    method SessionMut(session: string)
      requires NoDup(lru) && |lru| <= MAX_SESSIONS && sessions.Keys == Elements(lru)
      modifies this`sessions, this`lru
      ensures Touched(session, old(sessions), old(lru), sessions, lru)
    {
      if lru == [] || lru[|lru| - 1] != session {
        MoveUp(session);
      } else {
        BackAgain(lru, session);
        assert session in sessions;
      }
      if session !in sessions { sessions := sessions[session := SessionScratch([], [])]; }
    }

    method MoveUp(session: string)
      requires NoDup(lru) && |lru| <= MAX_SESSIONS && sessions.Keys == Elements(lru)
      modifies this`sessions, this`lru
      ensures lru == LastN(MoveToBack(old(lru), session), MAX_SESSIONS)
      ensures sessions.Keys <= Elements(lru) && Elements(lru) <= sessions.Keys + {session} && session in Elements(lru)
      ensures forall s | s in sessions :: s in old(sessions) && sessions[s] == old(sessions)[s]
      ensures session in old(sessions) ==> session in sessions
    {
      MovedFacts(lru, session);
      lru := Remove(lru, session);
      lru := lru + [session];
      Evict(session);
    }

    /** Pops the least recently active sessions until the limit holds. */
    method Evict(ghost newest: string)
      requires NoDup(lru) && lru != [] && lru[|lru| - 1] == newest
      requires sessions.Keys <= Elements(lru) && Elements(lru) <= sessions.Keys + {newest}
      modifies this`sessions, this`lru
      ensures lru == LastN(old(lru), MAX_SESSIONS) && newest in Elements(lru)
      ensures sessions.Keys <= Elements(lru) && Elements(lru) <= sessions.Keys + {newest}
      ensures forall s | s in sessions :: s in old(sessions) && sessions[s] == old(sessions)[s]
      ensures newest in old(sessions) ==> newest in sessions
    {
      ghost var all := lru;
      while |lru| > MAX_SESSIONS
        invariant 0 < |lru| <= |all| && lru == all[|all| - |lru|..]
        invariant |lru| == |all| || |lru| >= MAX_SESSIONS
        invariant NoDup(lru) && lru[|lru| - 1] == newest
        invariant sessions.Keys <= Elements(lru) && Elements(lru) <= sessions.Keys + {newest}
        invariant forall s | s in sessions :: s in old(sessions) && sessions[s] == old(sessions)[s]
        invariant newest in old(sessions) ==> newest in sessions
      {
        FirstIsUnique(lru);
        var gone := lru[0];
        DropFirst(lru);
        lru := lru[1..];
        sessions := sessions - {gone};
      }
    }

    method RecordEdit(session: string, edit: ScratchEdit)
      requires Valid()
      modifies this
      ensures Valid() && history == old(history) + [EditRecord(session, edit)]
    {
      HoldsFacts(history, sessions, lru);
      SessionMut(session);
      TouchedFits(history, session, old(sessions), old(lru), sessions, lru);
      var s := sessions[session];
      var edits := PushRing(s.edits, edit);
      HoldsEdit(history, session, edit, old(sessions), old(lru), sessions, lru);
      sessions := sessions[session := s.(edits := edits)];
      history := history + [EditRecord(session, edit)];
    }

    method RecordCheck(session: string, check: ScratchCheck)
      requires Valid()
      modifies this
      ensures Valid() && history == old(history) + [CheckRecord(session, check)]
    {
      HoldsFacts(history, sessions, lru);
      SessionMut(session);
      TouchedFits(history, session, old(sessions), old(lru), sessions, lru);
      var s := sessions[session];
      var checks := PushRing(s.checks, check);
      HoldsCheck(history, session, check, old(sessions), old(lru), sessions, lru);
      sessions := sessions[session := s.(checks := checks)];
      history := history + [CheckRecord(session, check)];
    }

    /** The rings of a live session; nothing for one that was evicted or never recorded. */
    method Snapshot(session: string) returns (r: SessionScratch)
      requires Valid()
      ensures r == if Live(history, session) then Rings(history, session) else SessionScratch([], [])
    {
      HoldsFacts(history, sessions, lru);
      r := if session in sessions then sessions[session] else SessionScratch([], []);
    }
  }

  /** The rings of the session just marked are within their limits. */
  lemma TouchedFits(h: seq<Record>, session: string, sessions: map<string, SessionScratch>, lru: seq<string>,
                    after: map<string, SessionScratch>, order: seq<string>)
    requires Holds(h, sessions, lru) && Touched(session, sessions, lru, after, order)
    ensures session in after && |after[session].edits| <= MAX_ENTRIES && |after[session].checks| <= MAX_ENTRIES
  {
    HoldsFacts(h, sessions, lru);
  }

  lemma HoldsEdit(h: seq<Record>, session: string, edit: ScratchEdit, sessions: map<string, SessionScratch>,
                  lru: seq<string>, after: map<string, SessionScratch>, order: seq<string>)
    requires Holds(h, sessions, lru) && Touched(session, sessions, lru, after, order)
    ensures var s := after[session];
      Holds(h + [EditRecord(session, edit)], after[session := s.(edits := Pushed(s.edits, edit))], order)
  {
    HoldsStep(h, EditRecord(session, edit), sessions, lru, after, order);
  }

  lemma HoldsCheck(h: seq<Record>, session: string, check: ScratchCheck, sessions: map<string, SessionScratch>,
                   lru: seq<string>, after: map<string, SessionScratch>, order: seq<string>)
    requires Holds(h, sessions, lru) && Touched(session, sessions, lru, after, order)
    ensures var s := after[session];
      Holds(h + [CheckRecord(session, check)], after[session := s.(checks := Pushed(s.checks, check))], order)
  {
    HoldsStep(h, CheckRecord(session, check), sessions, lru, after, order);
  }

  /** A ring that drops its oldest entry beyond the limit. */
  method PushRing<T>(ring: seq<T>, x: T) returns (r: seq<T>)
    requires |ring| <= MAX_ENTRIES
    ensures r == Pushed(ring, x)
  {
    r := ring + [x];
    if |r| > MAX_ENTRIES { r := r[1..]; }
  }

  /** The list without the first occurrence of s. */
  method Remove(r: seq<string>, s: string) returns (w: seq<string>)
    requires NoDup(r)
    ensures w == Without(r, s)
  {
    var i := 0;
    while i < |r| && r[i] != s
      invariant 0 <= i <= |r| && s !in r[..i]
    {
      i := i + 1;
    }
    if i == |r| {
      assert r[..i] == r;
      w := r;
      WithoutAbsent(r, s);
    } else {
      w := r[..i] + r[i + 1..];
      assert r == r[..i] + [s] + r[i + 1..];
      OnceOnly(r[..i], s, r[i + 1..]);
      WithoutFound(r[..i], s, r[i + 1..]);
    }
  }

  lemma WithoutFound(a: seq<string>, s: string, b: seq<string>)
    requires s !in a && s !in b
    ensures Without(a + [s] + b, s) == a + b
  {
    WithoutConcat(a + [s], b, s);
    WithoutAbsent(b, s);
    assert Without(a + [s], s) == a by {
      assert (a + [s])[..|a|] == a;
      WithoutAbsent(a, s);
    }
  }

  lemma MovedFacts(r: seq<string>, s: string)
    requires NoDup(r)
    ensures NoDup(MoveToBack(r, s)) && MoveToBack(r, s) != []
    ensures MoveToBack(r, s)[|MoveToBack(r, s)| - 1] == s
    ensures Elements(MoveToBack(r, s)) == Elements(r) + {s}
  {
    WithoutFacts(r, s);
    WithoutMembers(r, s);
    NoDupSnoc(Without(r, s), s);
  }

  lemma DropFirst(r: seq<string>)
    requires r != [] && r[0] !in r[1..]
    ensures Elements(r[1..]) == Elements(r) - {r[0]}
  {
    assert r == [r[0]] + r[1..];
  }

  lemma {:induction false} WithoutAbsent(r: seq<string>, s: string)
    requires s !in r
    ensures Without(r, s) == r
  {
    if r == [] {
    } else {
      WithoutAbsent(r[..|r| - 1], s);
      assert r == r[..|r| - 1] + [r[|r| - 1]];
    }
  }

  lemma OnceOnly(a: seq<string>, s: string, b: seq<string>)
    requires NoDup(a + [s] + b)
    ensures s !in b
  {
    var whole := a + [s] + b;
    forall k | 0 <= k < |b| ensures b[k] != s { assert whole[|a|] == s && whole[|a| + 1 + k] == b[k]; }
  }

  lemma FirstIsUnique(r: seq<string>)
    requires NoDup(r) && r != []
    ensures r[0] !in r[1..] && NoDup(r[1..])
  {
    forall k | 0 <= k < |r| - 1 ensures r[1..][k] != r[0] { assert r[1..][k] == r[k + 1]; }
  }

  /** Moving the last element to the back changes nothing. */
  lemma BackAgain(r: seq<string>, s: string)
    requires NoDup(r) && r != [] && r[|r| - 1] == s
    ensures MoveToBack(r, s) == r
  {
    var front := r[..|r| - 1];
    assert r == front + [s];
    assert s !in front;
    WithoutAbsent(front, s);
    assert Without(r, s) == Without(front, s);
  }
}

/** The list and map bookkeeping of the generic evaluation orchestrator: the
    bounded FIFO working list of candidates, the recency refresh of
    user-evaluated candidates, the positional binding of candidates to
    display panels and the panel registry. The stateful class that uses these
    lives in MazeNavigationDomain (Dafny has no inheritance; the source's only
    concrete domain carries the base class's fields). */
module EvaluationDomain {
  import opened Common

  /** Candidates and display panels are opaque handles compared by identity. */
  type Candidate = int
  type Panel = int

  /** The working list never holds more candidates than this. */
  const MaxSubjects: nat := 500

  /** What `while (subjects.size() > n) subjects.removeFirst()` leaves: the
      newest n elements, in order, duplicates kept. */
  function KeepNewest<T>(s: seq<T>, n: nat): (r: seq<T>)
    ensures |r| == Min(|s|, n)
    ensures r == s[|s| - |r|..]
  {
    if |s| <= n then s else s[|s| - n..]
  }

  /** LinkedList.removeAll: every occurrence of every element of xs dropped,
      the order of the rest kept. */
  function RemoveAll<T>(s: seq<T>, xs: set<T>): (r: seq<T>)
    ensures |r| <= |s|
  {
    if s == [] then []
    else (if s[0] in xs then [] else [s[0]]) + RemoveAll(s[1..], xs)
  }

  lemma {:induction false} RemoveAllMembers<T>(s: seq<T>, xs: set<T>)
    ensures forall x :: x in RemoveAll(s, xs) <==> x in s && x !in xs
  {
    if s != [] {
      RemoveAllMembers(s[1..], xs);
    }
  }

  /** removeAll keeps the relative order: it distributes over concatenation. */
  lemma {:induction false} RemoveAllAppend<T>(s: seq<T>, t: seq<T>, xs: set<T>)
    ensures RemoveAll(s + t, xs) == RemoveAll(s, xs) + RemoveAll(t, xs)
  {
    if s == [] {
      assert s + t == t;
    } else {
      assert (s + t)[0] == s[0];
      assert (s + t)[1..] == s[1..] + t;
      RemoveAllAppend(s[1..], t, xs);
    }
  }

  /** The working list setUserEvaluatedCandidates builds before the trim:
      the given candidates removed, then appended. */
  function Refreshed(subjects: seq<Candidate>, candidates: seq<Candidate>): seq<Candidate>
  {
    RemoveAll(subjects, Elems(candidates)) + candidates
  }

  /** After the refresh and the trim, the user-evaluated candidates are the
      tail of the working list, in the given order, and nothing before them
      is one of them. */
  lemma UserEvaluatedAtTail(subjects: seq<Candidate>, candidates: seq<Candidate>)
    requires |candidates| <= MaxSubjects
    ensures var r := KeepNewest(Refreshed(subjects, candidates), MaxSubjects);
            |r| >= |candidates| && r[|r| - |candidates|..] == candidates &&
            forall i :: 0 <= i < |r| - |candidates| ==> r[i] !in candidates
  {
    var front := RemoveAll(subjects, Elems(candidates));
    var s := front + candidates;
    var r := KeepNewest(s, MaxSubjects);
    RemovedAvoids(subjects, candidates);
    assert s[|front|..] == candidates;
    forall i | 0 <= i < |r| - |candidates|
      ensures r[i] !in candidates
    {
      var k := |s| - |r| + i;
      assert r[i] == s[k] == front[k];
    }
  }

  /** Nothing left in the list after removeAll is one of the removed. */
  lemma RemovedAvoids(subjects: seq<Candidate>, candidates: seq<Candidate>)
    ensures forall k :: 0 <= k < |RemoveAll(subjects, Elems(candidates))| ==>
              RemoveAll(subjects, Elems(candidates))[k] !in candidates
  {
    RemoveAllMembers(subjects, Elems(candidates));
    ElemsMembers(candidates);
  }

  /** The elements of a list, as a set, built from the back. */
  function Elems<T>(s: seq<T>): set<T>
  {
    if |s| == 0 then {} else Elems(s[..|s| - 1]) + {s[|s| - 1]}
  }

  /** Elems holds exactly the list's members. */
  lemma {:induction false} ElemsMembers<T>(s: seq<T>)
    ensures forall x :: x in Elems(s) <==> x in s
  {
    if |s| > 0 {
      ElemsMembers(s[..|s| - 1]);
      assert s == s[..|s| - 1] + [s[|s| - 1]];
    }
  }

  lemma ElemsSnoc<T>(s: seq<T>, i: nat)
    requires i < |s|
    ensures Elems(s[..i + 1]) == Elems(s[..i]) + {s[i]}
  {
    assert s[..i + 1][..i] == s[..i];
  }

  lemma ElemsAll<T>(s: seq<T>)
    ensures Elems(s[..|s|]) == Elems(s)
  {
    assert s[..|s|] == s;
  }

  /** List.remove(Object): the list without the first occurrence of x. */
  function RemoveFirstOccurrence<T(==)>(s: seq<T>, x: T): seq<T>
  {
    if s == [] then []
    else if s[0] == x then s[1..]
    else [s[0]] + RemoveFirstOccurrence(s[1..], x)
  }

  /** Either x is absent and the list is unchanged, or the occurrence at the
      first index i holding x is the one removed and the rest keep their order. */
  lemma {:induction false} RemoveFirstOccurrenceSpec<T>(s: seq<T>, x: T) returns (i: int)
    ensures x !in s ==> i == -1 && RemoveFirstOccurrence(s, x) == s
    ensures x in s ==> 0 <= i < |s| && s[i] == x && x !in s[..i] &&
                       RemoveFirstOccurrence(s, x) == s[..i] + s[i + 1..]
  {
    if s == [] {
      i := -1;
    } else if s[0] == x {
      i := 0;
    } else {
      var j := RemoveFirstOccurrenceSpec(s[1..], x);
      if x in s {
        assert x in s[1..];
        i := j + 1;
        assert s[..i] == [s[0]] + s[1..][..j];
        assert s[i + 1..] == s[1..][j + 1..];
      } else {
        i := -1;
      }
    }
  }

  /** The evaluationPanels map after the first n candidates are bound, in
      order, to the first n registered panels. */
  function BindPanels(m: map<Candidate, Panel>, candidates: seq<Candidate>, panels: seq<Panel>, n: nat): map<Candidate, Panel>
    requires n <= |candidates| && n <= |panels|
  {
    if n == 0 then m
    else BindPanels(m, candidates, panels, n - 1)[candidates[n - 1] := panels[n - 1]]
  }

  /** The bound map holds the old keys and exactly the first n candidates. */
  lemma {:induction false} BindPanelsKeys(m: map<Candidate, Panel>, candidates: seq<Candidate>, panels: seq<Panel>, n: nat)
    requires n <= |candidates| && n <= |panels|
    ensures BindPanels(m, candidates, panels, n).Keys == m.Keys + Elems(candidates[..n])
  {
    if n > 0 {
      BindPanelsKeys(m, candidates, panels, n - 1);
      ElemsSnoc(candidates, n - 1);
    }
  }

  /** Candidate i is bound to panel i when no later candidate among the first
      n is the same one (the last binding wins). */
  lemma {:induction false} BindPanelsAt(m: map<Candidate, Panel>, candidates: seq<Candidate>, panels: seq<Panel>, n: nat, i: nat)
    requires n <= |candidates| && n <= |panels|
    requires i < n && forall j :: i < j < n ==> candidates[j] != candidates[i]
    ensures candidates[i] in BindPanels(m, candidates, panels, n)
    ensures BindPanels(m, candidates, panels, n)[candidates[i]] == panels[i]
  {
    if i < n - 1 {
      BindPanelsAt(m, candidates, panels, n - 1, i);
    }
  }

  /** An entry for a candidate that is not among the first n is kept. */
  lemma {:induction false} BindPanelsKeeps(m: map<Candidate, Panel>, candidates: seq<Candidate>, panels: seq<Panel>, n: nat, c: Candidate)
    requires n <= |candidates| && n <= |panels|
    requires c in m && forall j :: 0 <= j < n ==> candidates[j] != c
    ensures c in BindPanels(m, candidates, panels, n)
    ensures BindPanels(m, candidates, panels, n)[c] == m[c]
  {
    if n > 0 {
      BindPanelsKeeps(m, candidates, panels, n - 1, c);
    }
  }
}

/** The valid-pass candidate list: the entities' `BaseIcon` HUD components with the `null`
    ones dropped, ordered by ascending `Priority`. */
module IconOrder {
  import opened Wrappers
  import opened Snapshot

  /** `SelectWhereF(x => x.GetHudComponent<BaseIcon>(), icon => icon != null)`: one
      candidate per entity that has an icon, in list order. */
  function Candidates(es: seq<Entity>): seq<Candidate> {
    if |es| == 0 then
      []
    else
      var n := |es| - 1;
      Candidates(es[..n]) + (if es[n].icon.Some? then [Candidate(es[n].icon.value, es[n])] else [])
  }

  /** The candidates are the entities that have an icon, each as often as it is listed and
      paired with its own icon. */
  lemma {:induction false} CandidatesSpec(es: seq<Entity>)
    ensures |Candidates(es)| <= |es|
    ensures forall c :: c in Candidates(es) ==> c.entity.icon == Some(c.icon) && c.entity in es
    ensures forall e: Entity :: e.icon.Some? ==> multiset(Candidates(es))[Candidate(e.icon.value, e)] == multiset(es)[e]
  {
    if |es| > 0 {
      var n := |es| - 1;
      CandidatesSpec(es[..n]);
      assert es == es[..n] + [es[n]];
    }
  }

  /** Ascending by priority. */
  ghost predicate Sorted(cs: seq<Candidate>) {
    forall i, j :: 0 <= i < j < |cs| ==> Priority(cs[i]) <= Priority(cs[j])
  }

  /** Places `c` after every element of no greater priority. */
  function Insert(s: seq<Candidate>, c: Candidate): seq<Candidate> {
    if |s| == 0 || Priority(s[|s| - 1]) <= Priority(c) then
      s + [c]
    else
      Insert(s[..|s| - 1], c) + [s[|s| - 1]]
  }

  /** Appending an element of no smaller priority keeps a list ordered. */
  lemma SortedAppend(s: seq<Candidate>, x: Candidate)
    requires Sorted(s)
    requires forall y :: y in s ==> Priority(y) <= Priority(x)
    ensures Sorted(s + [x])
  {
    var r := s + [x];
    forall i, j | 0 <= i < j < |r|
      ensures Priority(r[i]) <= Priority(r[j])
    {
      assert r[i] == s[i];
      if j < |s| {
        assert r[j] == s[j];
      }
    }
  }

  /** Inserting adds exactly the new element. */
  lemma {:induction false} InsertPermutes(s: seq<Candidate>, c: Candidate)
    ensures multiset(Insert(s, c)) == multiset(s) + multiset{c}
  {
    if |s| > 0 && Priority(s[|s| - 1]) > Priority(c) {
      var n := |s| - 1;
      InsertPermutes(s[..n], c);
      assert s == s[..n] + [s[n]];
    }
  }

  /** Inserting into a priority-ordered list keeps it ordered. */
  lemma {:induction false} InsertSorted(s: seq<Candidate>, c: Candidate)
    requires Sorted(s)
    ensures Sorted(Insert(s, c))
  {
    if |s| == 0 || Priority(s[|s| - 1]) <= Priority(c) {
      SortedAppend(s, c);
    } else {
      var n := |s| - 1;
      var front := Insert(s[..n], c);
      InsertSorted(s[..n], c);
      InsertPermutes(s[..n], c);
      forall x | x in front
        ensures Priority(x) <= Priority(s[n])
      {
        assert x in multiset(front);
        if x != c {
          assert x in s[..n];
          var k :| 0 <= k < n && s[..n][k] == x;
          assert s[k] == x;
        }
      }
      SortedAppend(front, s[n]);
    }
  }

  /** `OrderByF(x => x.Priority)`, modelled as insertion sort. */
  function SortByPriority(cs: seq<Candidate>): seq<Candidate> {
    if |cs| == 0 then [] else Insert(SortByPriority(cs[..|cs| - 1]), cs[|cs| - 1])
  }

  /** The ordered list is in ascending priority and a permutation of the candidates. */
  lemma {:induction false} SortByPrioritySpec(cs: seq<Candidate>)
    ensures Sorted(SortByPriority(cs))
    ensures multiset(SortByPriority(cs)) == multiset(cs)
  {
    if |cs| > 0 {
      var n := |cs| - 1;
      SortByPrioritySpec(cs[..n]);
      InsertSorted(SortByPriority(cs[..n]), cs[n]);
      InsertPermutes(SortByPriority(cs[..n]), cs[n]);
      assert cs == cs[..n] + [cs[n]];
    }
  }

  /** The valid pass visits exactly the entities that have an icon, each once, in
      ascending priority. */
  lemma CandidateOrder(es: seq<Entity>)
    ensures Sorted(SortByPriority(Candidates(es)))
    ensures forall e: Entity :: e.icon.Some? ==>
              multiset(SortByPriority(Candidates(es)))[Candidate(e.icon.value, e)] == multiset(es)[e]
    ensures forall c :: c in SortByPriority(Candidates(es)) ==> c.entity in es && c.entity.icon == Some(c.icon)
  {
    var cs := Candidates(es);
    var r := SortByPriority(cs);
    CandidatesSpec(es);
    SortByPrioritySpec(cs);
    forall c | c in r
      ensures c.entity in es && c.entity.icon == Some(c.icon)
    {
      assert c in multiset(r);
      assert c in cs;
    }
  }
}

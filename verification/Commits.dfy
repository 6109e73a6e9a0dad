/** When the commits of a query end it (src/query.cpp:520-549), told from what the commit callbacks do. */
module Commits {
  /** What a commit callback does before it returns: it may answer commits that were sent and are not
      answered yet, its own among them, and destroy the query. */
  datatype CommitStep = ReplyTo(commit: nat) | DestroyQuery
  type CommitAct = seq<CommitStep>

  /** Commit j has been answered when callback i has made s steps. */
  ghost predicate AnsweredBy(acts: nat -> CommitAct, j: nat, i: nat, s: nat)
    requires s <= |acts(i)|
  {
    (exists k: nat :: j <= k < i && ReplyTo(j) in acts(k)) || (j <= i && ReplyTo(j) in acts(i)[..s])
  }

  /** The commits that are sent and not answered when callback i has made s steps. */
  ghost function Open(acts: nat -> CommitAct, i: nat, s: nat): set<nat>
    requires s <= |acts(i)|
  {
    set j: nat | j <= i && !AnsweredBy(acts, j, i, s)
  }

  /** Those after the first n callbacks. */
  ghost function OpenAfter(acts: nat -> CommitAct, n: nat): set<nat> {
    if n == 0 then {} else Open(acts, n - 1, |acts(n - 1)|)
  }

  /** By its step s, callback i has destroyed the query or no sent commit is left unanswered. */
  ghost predicate EndedBy(acts: nat -> CommitAct, i: nat, s: nat)
    requires s <= |acts(i)|
  {
    DestroyQuery in acts(i)[..s] || Open(acts, i, s) == {}
  }

  ghost predicate EndsIn(acts: nat -> CommitAct, i: nat) {
    EndedBy(acts, i, |acts(i)|)
  }

  /** Within its first s steps callback i destroys the query while a sent commit is unanswered. */
  ghost predicate DestroysBy(acts: nat -> CommitAct, i: nat, s: nat)
    requires s <= |acts(i)|
  {
    exists t: nat :: t < s && acts(i)[t] == DestroyQuery && Open(acts, i, t) != {}
  }

  ghost predicate DestroysEarly(acts: nat -> CommitAct, i: nat) {
    DestroysBy(acts, i, |acts(i)|)
  }

  /** One of the first n callbacks ends the query. */
  ghost predicate Ends(acts: nat -> CommitAct, n: nat) {
    exists i: nat :: i < n && EndsIn(acts, i)
  }

  /** One of the first m of n callbacks ends the query while a commit is to be sent or unanswered. */
  ghost predicate EarlyBy(acts: nat -> CommitAct, m: nat, n: nat) {
    (exists i: nat :: i < m && i + 1 < n && EndsIn(acts, i)) || (m == n > 0 && DestroysEarly(acts, n - 1))
  }

  /** Of n callbacks some other than the last one ends the query, or the last one destroys it too early. */
  ghost predicate EndsEarly(acts: nat -> CommitAct, n: nat) {
    EarlyBy(acts, n, n)
  }

  lemma OpenFirst(acts: nat -> CommitAct, i: nat)
    ensures Open(acts, i, 0) == OpenAfter(acts, i) + {i} && i !in OpenAfter(acts, i)
  {
    forall j: nat | j < i ensures AnsweredBy(acts, j, i, 0) <==> AnsweredBy(acts, j, i - 1, |acts(i - 1)|) {
      assert acts(i - 1)[..|acts(i - 1)|] == acts(i - 1);
    }
  }

  lemma OpenStep(acts: nat -> CommitAct, i: nat, s: nat)
    requires s < |acts(i)|
    ensures Open(acts, i, s + 1) == (match acts(i)[s]
                                     case ReplyTo(j) => Open(acts, i, s) - {j}
                                     case DestroyQuery => Open(acts, i, s))
    ensures DestroyQuery in acts(i)[..s + 1] <==> DestroyQuery in acts(i)[..s] || acts(i)[s] == DestroyQuery
  {
    assert acts(i)[..s + 1] == acts(i)[..s] + [acts(i)[s]];
    forall j: nat | j <= i
      ensures AnsweredBy(acts, j, i, s + 1) <==> AnsweredBy(acts, j, i, s) || acts(i)[s] == ReplyTo(j)
    {
    }
  }

  /** Whatever ends the query stays so: a destroyed query is destroyed, and nothing is sent in between. */
  lemma EndedStep(acts: nat -> CommitAct, i: nat, s: nat)
    requires s < |acts(i)|
    ensures EndedBy(acts, i, s) ==> EndedBy(acts, i, s + 1)
    ensures acts(i)[s] == DestroyQuery ==> EndedBy(acts, i, s + 1)
    ensures !EndedBy(acts, i, s) && acts(i)[s] != DestroyQuery ==>
              (EndedBy(acts, i, s + 1) <==> Open(acts, i, s + 1) == {})
    ensures !EndedBy(acts, i, s) ==> (DestroysBy(acts, i, s + 1) <==> acts(i)[s] == DestroyQuery)
  {
    OpenStep(acts, i, s);
    hide Open;
    if DestroysBy(acts, i, s) {
      var t: nat :| t < s && acts(i)[t] == DestroyQuery && Open(acts, i, t) != {};
      assert acts(i)[..s][t] == DestroyQuery;
    }
  }

  lemma {:induction false} OpenShrinks(acts: nat -> CommitAct, i: nat, t: nat, s: nat)
    requires t <= s <= |acts(i)|
    ensures Open(acts, i, s) <= Open(acts, i, t)
    decreases s - t
  {
    if t < s {
      OpenStep(acts, i, t);
      OpenShrinks(acts, i, t + 1, s);
    }
  }

  /** Once ended, the destroys that follow come too late to be early, unless it was early already. */
  lemma DestroysStep(acts: nat -> CommitAct, i: nat, s: nat)
    requires s < |acts(i)| && EndedBy(acts, i, s)
    ensures DestroysBy(acts, i, s + 1) <==> DestroysBy(acts, i, s)
  {
    hide Open;
    if DestroyQuery in acts(i)[..s] {
      var t: nat :| t < s && acts(i)[..s][t] == DestroyQuery;
      OpenShrinks(acts, i, t, s);
    }
  }

  lemma EarlyStep(acts: nat -> CommitAct, m: nat, n: nat)
    requires m < n
    ensures Ends(acts, m + 1) <==> Ends(acts, m) || EndsIn(acts, m)
    ensures Ends(acts, m) ==> EarlyBy(acts, m, n) && EarlyBy(acts, m + 1, n)
    ensures !Ends(acts, m) && EndsIn(acts, m) ==>
              (EarlyBy(acts, m + 1, n) <==> m + 1 < n || DestroysEarly(acts, m))
  {
    hide EndsIn, DestroysEarly;
  }

  lemma NothingEnded(acts: nat -> CommitAct, i: nat)
    ensures !EndedBy(acts, i, 0) && !DestroysBy(acts, i, 0)
  {
    OpenFirst(acts, i);
  }

  lemma NotEnded(acts: nat -> CommitAct, i: nat, s: nat)
    requires s <= |acts(i)| && !EndedBy(acts, i, s)
    ensures Open(acts, i, s) != {}
  {
  }

  lemma NothingSentYet(acts: nat -> CommitAct)
    ensures OpenAfter(acts, 0) == {} && !Ends(acts, 0) && forall n: nat :: n > 0 ==> !EarlyBy(acts, 0, n)
    ensures !EndsEarly(acts, 0)
  {
  }

  lemma AllSent(acts: nat -> CommitAct, n: nat)
    ensures EarlyBy(acts, n, n) <==> EndsEarly(acts, n)
  {
  }

  /** When no commit is left unanswered behind the last callback, that one has ended the query, if not
      one before it. */
  lemma LastAnswerEnds(acts: nat -> CommitAct, n: nat)
    requires n > 0 && OpenAfter(acts, n) == {}
    ensures Ends(acts, n)
  {
    assert EndsIn(acts, n - 1);
  }

  /** In other words: callback i destroys the query, or every commit up to its own has been answered. */
  lemma EndsInExactly(acts: nat -> CommitAct, i: nat)
    ensures EndsIn(acts, i) <==>
            DestroyQuery in acts(i) || forall j: nat :: j <= i ==> exists k: nat :: j <= k <= i && ReplyTo(j) in acts(k)
  {
    assert acts(i)[..|acts(i)|] == acts(i);
    if Open(acts, i, |acts(i)|) == {} {
      forall j: nat | j <= i ensures exists k: nat :: j <= k <= i && ReplyTo(j) in acts(k) {
        assert j !in Open(acts, i, |acts(i)|);
      }
    }
  }

  /** With two or more commits, an answer from inside the first callback ends the query too early. */
  lemma FirstAnsweredAtOnce(acts: nat -> CommitAct, n: nat)
    requires n >= 2 && acts(0) == [ReplyTo(0)]
    ensures EndsEarly(acts, n)
  {
    assert acts(0)[..1] == acts(0) && AnsweredBy(acts, 0, 0, 1);
    assert EndsIn(acts, 0);
  }

  /** An answer from inside the second callback alone ends nothing: the first commit is still unanswered. */
  lemma SecondAnsweredAtOnce(acts: nat -> CommitAct)
    requires acts(0) == [] && acts(1) == [ReplyTo(1)]
    ensures !Ends(acts, 2) && OpenAfter(acts, 2) == {0}
  {
    assert acts(1)[..1] == acts(1) && AnsweredBy(acts, 1, 1, 1);
    assert !AnsweredBy(acts, 0, 1, 1);
    assert 0 in Open(acts, 1, 1) && 0 in Open(acts, 0, 0);
  }

  /** An early end is an end. */
  lemma EarlyIsEnd(acts: nat -> CommitAct, n: nat)
    ensures EndsEarly(acts, n) ==> Ends(acts, n)
  {
    if n > 0 && DestroysEarly(acts, n - 1) {
      assert EndsIn(acts, n - 1);
    }
  }

  lemma SecondWaits(acts: nat -> CommitAct)
    requires acts(0) == [ReplyTo(0)] && acts(1) == []
    ensures OpenAfter(acts, 2) == {1}
  {
    assert ReplyTo(0) in acts(0);
    assert AnsweredBy(acts, 0, 1, 0) && !AnsweredBy(acts, 1, 1, 0);
  }
}

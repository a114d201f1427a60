/** Model of the useSecretSanta hook (src/hooks/useSecretSanta.ts).

    The hook's state is the three pieces of React state `participants`,
    `assignments` and `isGenerated`; each operation is a method of one object
    that reassigns them. Every database call becomes a parameter carrying
    its outcome: the row handed back by an insert (None when the call
    reports an error), or a success flag for a delete. The random draws of
    the shuffle are a parameter as in module SecretSanta. */
module UseSecretSanta {
  import opened SecretSanta

  /** One row written to the `assignments` table. */
  datatype AssignmentRow = AssignmentRow(eventId: string, giverId: string, receiverId: string)

  /** One pair handed to the e-mail function. */
  datatype EmailPair = EmailPair(giver: Participant, receiver: Participant)

  /** The list is a bijection onto its own givers with no self-match. */
  predicate Deranged(assignments: seq<Assignment>) {
    multiset(Receivers(assignments)) == multiset(Givers(assignments)) &&
    forall k :: 0 <= k < |assignments| ==> assignments[k].giver.id != assignments[k].receiver.id
  }

  // ---------------------------------------------------------------------
  // removeParticipant's filter (useSecretSanta.ts:65)
  // ---------------------------------------------------------------------

  /** Keeps, in order, the entries whose id differs from `id`. */
  function WithoutId(ps: seq<Participant>, id: string): (r: seq<Participant>)
    ensures |r| <= |ps|
  {
    if ps == [] then []
    else (if ps[0].id == id then [] else [ps[0]]) + WithoutId(ps[1..], id)
  }

  /** Exactly the entries with another id survive. */
  lemma {:induction false} WithoutIdMembers(ps: seq<Participant>, id: string)
    ensures forall x :: x in WithoutId(ps, id) <==> x in ps && x.id != id
  {
    if ps != [] {
      WithoutIdMembers(ps[1..], id);
      assert ps == [ps[0]] + ps[1..];
    }
  }

  /** The filter works entry by entry, so it keeps the survivors in order. */
  lemma {:induction false} WithoutIdAppend(a: seq<Participant>, b: seq<Participant>, id: string)
    ensures WithoutId(a + b, id) == WithoutId(a, id) + WithoutId(b, id)
  {
    if a != [] {
      assert (a + b)[1..] == a[1..] + b;
      WithoutIdAppend(a[1..], b, id);
    } else {
      assert a + b == b;
    }
  }

  /** Removing an id nobody has changes nothing. */
  lemma {:induction false} WithoutIdAbsent(ps: seq<Participant>, id: string)
    requires forall k :: 0 <= k < |ps| ==> ps[k].id != id
    ensures WithoutId(ps, id) == ps
  {
    if ps != [] {
      WithoutIdAbsent(ps[1..], id);
      assert ps == [ps[0]] + ps[1..];
    }
  }

  /** Removing the id of one entry, when the entries around it keep theirs,
      only drops that entry. */
  lemma RemoveMiddle(pre: seq<Participant>, x: Participant, post: seq<Participant>)
    requires WithoutId(pre, x.id) == pre && WithoutId(post, x.id) == post
    ensures WithoutId(pre + [x] + post, x.id) == pre + post
  {
    var tail := [x] + post;
    assert tail[1..] == post;
    assert WithoutId(tail, x.id) == [] + WithoutId(post, x.id) == post;
    WithoutIdAppend(pre, tail, x.id);
    assert pre + [x] + post == pre + tail;
  }

  /** With distinct ids, removing the id of an entry removes exactly that
      entry, and the others stay in order. */
  lemma RemovesExactlyOne(ps: seq<Participant>, i: nat)
    requires i < |ps| && DistinctIds(ps)
    ensures WithoutId(ps, ps[i].id) == ps[..i] + ps[i + 1..]
    ensures |WithoutId(ps, ps[i].id)| == |ps| - 1
  {
    var pre, post := ps[..i], ps[i + 1..];
    forall k | 0 <= k < |pre| ensures pre[k].id != ps[i].id {
      assert pre[k] == ps[k];
    }
    forall k | 0 <= k < |post| ensures post[k].id != ps[i].id {
      assert post[k] == ps[i + 1 + k];
    }
    WithoutIdAbsent(pre, ps[i].id);
    WithoutIdAbsent(post, ps[i].id);
    RemoveMiddle(pre, ps[i], post);
    assert ps == pre + [ps[i]] + post;
  }

  /** The filter keeps ids distinct. */
  lemma {:induction false} WithoutIdKeepsDistinct(ps: seq<Participant>, id: string)
    requires DistinctIds(ps)
    ensures DistinctIds(WithoutId(ps, id))
  {
    if ps != [] {
      var tail := ps[1..];
      assert DistinctIds(tail) by {
        forall a, b | 0 <= a < b < |tail| ensures tail[a].id != tail[b].id {
          assert tail[a] == ps[a + 1] && tail[b] == ps[b + 1];
        }
      }
      WithoutIdKeepsDistinct(tail, id);
      WithoutIdMembers(tail, id);
      var rest := WithoutId(tail, id);
      if ps[0].id != id {
        var r := [ps[0]] + rest;
        forall a, b | 0 <= a < b < |r| ensures r[a].id != r[b].id {
          if a == 0 {
            assert r[b] == rest[b - 1] && r[b] in tail;
            var m :| 0 <= m < |tail| && tail[m] == r[b];
            assert ps[m + 1] == r[b];
          } else {
            assert r[a] == rest[a - 1] && r[b] == rest[b - 1];
          }
        }
      }
    }
  }

  // ---------------------------------------------------------------------
  // revealAssignment's map (useSecretSanta.ts:174-180)
  // ---------------------------------------------------------------------

  /** Marks the entry at `index` as revealed and keeps every other entry. */
  function Reveal(assignments: seq<Assignment>, index: int): (r: seq<Assignment>)
    ensures |r| == |assignments|
    ensures Givers(r) == Givers(assignments) && Receivers(r) == Receivers(assignments)
    ensures forall k :: 0 <= k < |r| ==> r[k].isRevealed == (k == index || assignments[k].isRevealed)
  {
    seq(|assignments|, k requires 0 <= k < |assignments| =>
      if k == index then assignments[k].(isRevealed := true) else assignments[k])
  }

  /** Two entries with the same giver, receiver and flag are equal. */
  lemma SameAssignments(a: seq<Assignment>, b: seq<Assignment>)
    requires Givers(a) == Givers(b) && Receivers(a) == Receivers(b)
    requires forall k :: 0 <= k < |a| ==> a[k].isRevealed == b[k].isRevealed
    ensures a == b
  {
    assert |a| == |Givers(a)| == |Givers(b)| == |b|;
    forall k | 0 <= k < |a| ensures a[k] == b[k] {
      assert Givers(a)[k] == Givers(b)[k] && Receivers(a)[k] == Receivers(b)[k];
    }
  }

  /** Revealing twice is revealing once. */
  lemma RevealIdempotent(assignments: seq<Assignment>, index: int)
    ensures Reveal(Reveal(assignments, index), index) == Reveal(assignments, index)
  {
    SameAssignments(Reveal(Reveal(assignments, index), index), Reveal(assignments, index));
  }

  /** An index outside the list changes nothing, and raises no error. */
  lemma RevealOutOfRange(assignments: seq<Assignment>, index: int)
    requires index < 0 || index >= |assignments|
    ensures Reveal(assignments, index) == assignments
  {
    SameAssignments(Reveal(assignments, index), assignments);
  }

  /** Reveals at two indices commute. */
  lemma RevealCommutes(assignments: seq<Assignment>, i: int, j: int)
    ensures Reveal(Reveal(assignments, i), j) == Reveal(Reveal(assignments, j), i)
  {
    SameAssignments(Reveal(Reveal(assignments, i), j), Reveal(Reveal(assignments, j), i));
  }

  /** Revealing never changes who gives to whom. */
  lemma RevealKeepsDerangement(assignments: seq<Assignment>, index: int)
    requires Deranged(assignments)
    ensures Deranged(Reveal(assignments, index))
  {
    var r := Reveal(assignments, index);
    forall k | 0 <= k < |r| ensures r[k].giver.id != r[k].receiver.id {
      assert Givers(r)[k] == Givers(assignments)[k];
      assert Receivers(r)[k] == Receivers(assignments)[k];
    }
  }

  // ---------------------------------------------------------------------
  // What generateAssignments persists and e-mails (useSecretSanta.ts:116-135)
  // ---------------------------------------------------------------------

  /** One row per index: the event id, the giver's id and the id of the
      receiver at the same index. */
  function Rows(eventId: string, ps: seq<Participant>, rs: seq<Participant>): (r: seq<AssignmentRow>)
    requires |rs| == |ps|
    ensures |r| == |ps|
  {
    seq(|ps|, k requires 0 <= k < |ps| => AssignmentRow(eventId, ps[k].id, rs[k].id))
  }

  /** One pair per index: the giver and the receiver at the same index. */
  function EmailPairs(ps: seq<Participant>, rs: seq<Participant>): (r: seq<EmailPair>)
    requires |rs| == |ps|
    ensures |r| == |ps|
  {
    seq(|ps|, k requires 0 <= k < |ps| => EmailPair(ps[k], rs[k]))
  }

  /** The rows saved, the pairs e-mailed and the assignments shown pair the
      same giver with the same receiver at every index, all under one event. */
  lemma SamePairsEverywhere(eventId: string, ps: seq<Participant>, rs: seq<Participant>)
    requires |rs| == |ps|
    ensures forall k :: 0 <= k < |ps| ==>
      Rows(eventId, ps, rs)[k].eventId == eventId &&
      Rows(eventId, ps, rs)[k].giverId == EmailPairs(ps, rs)[k].giver.id == BuildAssignments(ps, rs)[k].giver.id &&
      Rows(eventId, ps, rs)[k].receiverId == EmailPairs(ps, rs)[k].receiver.id == BuildAssignments(ps, rs)[k].receiver.id
  {
    var a := BuildAssignments(ps, rs);
    forall k | 0 <= k < |ps|
      ensures a[k].giver == ps[k] && a[k].receiver == rs[k]
    {
      assert Givers(a)[k] == ps[k] && Receivers(a)[k] == rs[k];
    }
  }

  /** Given distinct ids and at least two participants, what the hook builds
      is a derangement of the participants, whatever the draws. */
  lemma GeneratedIsDerangement(ps: seq<Participant>, js: seq<int>)
    requires ValidDraws(js, |ps|) && |ps| >= 2 && DistinctIds(ps)
    ensures Givers(BuildAssignments(ps, Drawn(ps, js))) == ps
    ensures Deranged(BuildAssignments(ps, Drawn(ps, js)))
  {
    var rs := Drawn(ps, js);
    var a := BuildAssignments(ps, rs);
    DrawnIsDerangement(ps, js);
    forall k | 0 <= k < |a| ensures a[k].giver.id != a[k].receiver.id {
      assert Givers(a)[k] == ps[k] && Receivers(a)[k] == rs[k];
    }
  }

  // ---------------------------------------------------------------------
  // The hook
  // ---------------------------------------------------------------------

  class SecretSantaHook {
    var participants: seq<Participant>
    var assignments: seq<Assignment>
    var isGenerated: bool

    /** Participants have distinct ids (the database's primary key); no
        assignments exist until a draw succeeds, and a successful draw is a
        derangement of at least two people. */
    ghost predicate Valid()
      reads this
    {
      DistinctIds(participants) &&
      (!isGenerated ==> assignments == []) &&
      (isGenerated ==> |assignments| >= 2 && Deranged(assignments))
    }

    /** The initial state: no participants, no assignments, not generated. */
    constructor ()
      ensures Valid()
      ensures participants == [] && assignments == [] && !isGenerated
    {
      participants := [];
      assignments := [];
      isGenerated := false;
    }

    /** addParticipant: `inserted` is the row the database hands back, None
        when the insert reports an error. The database's key makes its id
        fresh. */
    method AddParticipant(inserted: Option<Participant>)
      requires Valid()
      requires inserted.Some? ==> forall p :: p in participants ==> p.id != inserted.value.id
      modifies this
      ensures Valid()
      ensures inserted.None? ==> participants == old(participants)
      ensures inserted.Some? ==> participants == old(participants) + [inserted.value]
      ensures assignments == old(assignments) && isGenerated == old(isGenerated)
    {
      if inserted.Some? {
        ghost var ps := participants;
        participants := participants + [inserted.value];
        forall a, b | 0 <= a < b < |participants| ensures participants[a].id != participants[b].id {
          if b == |ps| {
            assert participants[a] == ps[a] && ps[a] in ps;
          } else {
            assert participants[a] == ps[a] && participants[b] == ps[b];
          }
        }
      }
    }

    /** removeParticipant: `deleted` is the delete's outcome. On success the
        entries with that id go, and the draw is discarded. */
    method RemoveParticipant(id: string, deleted: bool)
      requires Valid()
      modifies this
      ensures Valid()
      ensures !deleted ==>
        participants == old(participants) && assignments == old(assignments) && isGenerated == old(isGenerated)
      ensures deleted ==>
        participants == WithoutId(old(participants), id) && assignments == [] && !isGenerated
    {
      if deleted {
        WithoutIdKeepsDistinct(participants, id);
        participants := WithoutId(participants, id);
        isGenerated := false;
        assignments := [];
      }
    }

    /** generateAssignments. `eventId` is the id of the inserted event (None
        when that insert fails) and `inserted` the outcome of saving the
        rows. The call returns what was sent to the `assignments` table and
        to the e-mail function; an e-mail failure changes no state, so it is
        not a parameter. */
    method GenerateAssignments(js: seq<int>, eventId: Option<string>, inserted: bool)
      returns (rows: seq<AssignmentRow>, emailed: seq<EmailPair>)
      requires Valid() && ValidDraws(js, |participants|)
      modifies this
      ensures Valid()
      ensures participants == old(participants)
      ensures |participants| < 2 || eventId.None? ==>
        rows == [] && emailed == [] && assignments == old(assignments) && isGenerated == old(isGenerated)
      ensures |participants| >= 2 && eventId.Some? ==>
        rows == Rows(eventId.value, participants, Drawn(participants, js))
      ensures |participants| >= 2 && eventId.Some? && !inserted ==>
        emailed == [] && assignments == old(assignments) && isGenerated == old(isGenerated)
      ensures |participants| >= 2 && eventId.Some? && inserted ==>
        emailed == EmailPairs(participants, Drawn(participants, js)) &&
        assignments == BuildAssignments(participants, Drawn(participants, js)) &&
        Givers(assignments) == participants && isGenerated
    {
      if |participants| < 2 {
        return [], [];
      }
      if eventId.None? {
        return [], [];
      }
      var ps, n := participants, |participants|;
      var receivers := new Participant[n](k requires 0 <= k < n => ps[k]);
      assert receivers[..] == ps;
      ShuffleInPlace(receivers, js);
      FixSelfMatches(participants, receivers);
      rows := Rows(eventId.value, participants, receivers[..]);
      if !inserted {
        return rows, [];
      }
      emailed := EmailPairs(participants, receivers[..]);
      assignments := BuildAssignments(participants, receivers[..]);
      isGenerated := true;
      GeneratedIsDerangement(participants, js);
    }

    /** revealAssignment: only entry `index` is flagged; any index is accepted. */
    method RevealAssignment(index: int)
      requires Valid()
      modifies this
      ensures Valid()
      ensures assignments == Reveal(old(assignments), index)
      ensures participants == old(participants) && isGenerated == old(isGenerated)
    {
      if isGenerated {
        RevealKeepsDerangement(assignments, index);
      } else {
        RevealOutOfRange(assignments, index);
      }
      assignments := Reveal(assignments, index);
    }

    /** resetAll: `deleted` is the outcome of deleting every participant. */
    method ResetAll(deleted: bool)
      requires Valid()
      modifies this
      ensures Valid()
      ensures !deleted ==>
        participants == old(participants) && assignments == old(assignments) && isGenerated == old(isGenerated)
      ensures deleted ==> participants == [] && assignments == [] && !isGenerated
    {
      if deleted {
        participants := [];
        assignments := [];
        isGenerated := false;
      }
    }
  }
}

/** Model of src/utils/secretSanta.ts.

    The participant and assignment records, the Fisher-Yates shuffle of the
    receivers, the single forward pass that moves a self-match one place on,
    and the two ways of turning that pass into a list of assignments: the
    utility's own, which records each assignment inside the pass, and the
    corrected one, which records them after the pass (as the hook in
    src/hooks/useSecretSanta.ts does).

    Randomness is a parameter: `js[i]` is the index drawn uniformly from
    [0, i] at step `i` of the shuffle (secretSanta.ts:25), so
    `0 <= js[i] <= i`. */
module SecretSanta {

  datatype Option<T> = None | Some(value: T)

  /** A thrown error becomes a Failure carrying its message. */
  datatype Result<T> = Success(value: T) | Failure(error: string)

  /** Identity is by `id`; `email` is optional in the utility's record. */
  datatype Participant = Participant(id: string, name: string, email: Option<string>)

  datatype Assignment = Assignment(giver: Participant, receiver: Participant, isRevealed: bool)

  const NotEnoughParticipants := "Need at least 2 participants for Secret Santa"

  /** No two entries share an id. */
  predicate DistinctIds(ps: seq<Participant>) {
    forall a, b :: 0 <= a < b < |ps| ==> ps[a].id != ps[b].id
  }

  /** Nobody at position k of `ps` is paired with someone of the same id in `rs`. */
  predicate NoSelfMatch(ps: seq<Participant>, rs: seq<Participant>) {
    |ps| == |rs| && forall k :: 0 <= k < |ps| ==> ps[k].id != rs[k].id
  }

  /** The random source: the draw for step i of the shuffle lies in [0, i].
      js[0] is never used (the shuffle stops at i = 1). */
  predicate ValidDraws(js: seq<int>, n: nat) {
    |js| == n && forall i :: 1 <= i < n ==> 0 <= js[i] <= i
  }

  function Givers(assignments: seq<Assignment>): (gs: seq<Participant>)
    ensures |gs| == |assignments|
    ensures forall k :: 0 <= k < |gs| ==> gs[k] == assignments[k].giver
  {
    seq(|assignments|, k requires 0 <= k < |assignments| => assignments[k].giver)
  }

  function Receivers(assignments: seq<Assignment>): (rs: seq<Participant>)
    ensures |rs| == |assignments|
    ensures forall k :: 0 <= k < |rs| ==> rs[k] == assignments[k].receiver
  {
    seq(|assignments|, k requires 0 <= k < |assignments| => assignments[k].receiver)
  }

  lemma GiversCons(a: Assignment, rest: seq<Assignment>)
    ensures Givers([a] + rest) == [a.giver] + Givers(rest)
  {
  }

  lemma ReceiversCons(a: Assignment, rest: seq<Assignment>)
    ensures Receivers([a] + rest) == [a.receiver] + Receivers(rest)
  {
  }

  /** Exchanging two entries; SwapPermutes shows it is a permutation. */
  function Swap(s: seq<Participant>, i: nat, j: nat): (r: seq<Participant>)
    requires i < |s| && j < |s|
    ensures |r| == |s| && r[i] == s[j] && r[j] == s[i]
    ensures forall k {:trigger r[k]} :: 0 <= k < |s| && k != i && k != j ==> r[k] == s[k]
  {
    s[i := s[j]][j := s[i]]
  }

  // ---------------------------------------------------------------------
  // Fisher-Yates (secretSanta.ts:24-27)
  // ---------------------------------------------------------------------

  /** The shuffle steps i, i-1, ..., 1 applied to `s`. */
  function ShuffleDown(s: seq<Participant>, js: seq<int>, i: nat): (r: seq<Participant>)
    requires i < |s| && ValidDraws(js, |s|)
    ensures |r| == |s|
    decreases i
  {
    if i == 0 then s else ShuffleDown(Swap(s, i, js[i]), js, i - 1)
  }

  /** The receiver order after the shuffle: a permutation of the participants. */
  function Shuffle(s: seq<Participant>, js: seq<int>): (r: seq<Participant>)
    requires ValidDraws(js, |s|)
    ensures |r| == |s|
  {
    if |s| == 0 then s else ShuffleDown(s, js, |s| - 1)
  }

  lemma SwapPermutes(s: seq<Participant>, i: nat, j: nat)
    requires i < |s| && j < |s|
    ensures multiset(Swap(s, i, j)) == multiset(s)
  {
    var t := s[i := s[j]];
    assert multiset(t) == multiset(s) - multiset{s[i]} + multiset{s[j]};
    assert multiset(t[j := s[i]]) == multiset(t) - multiset{t[j]} + multiset{s[i]};
  }

  /** The Fisher-Yates loop only exchanges entries, so the receivers stay a
      permutation of the participants. */
  lemma {:induction false} ShuffleDownPermutes(s: seq<Participant>, js: seq<int>, i: nat)
    requires i < |s| && ValidDraws(js, |s|)
    ensures multiset(ShuffleDown(s, js, i)) == multiset(s)
    decreases i
  {
    if i > 0 {
      SwapPermutes(s, i, js[i]);
      ShuffleDownPermutes(Swap(s, i, js[i]), js, i - 1);
    }
  }

  lemma ShufflePermutes(s: seq<Participant>, js: seq<int>)
    requires ValidDraws(js, |s|)
    ensures multiset(Shuffle(s, js)) == multiset(s)
  {
    if |s| > 0 {
      ShuffleDownPermutes(s, js, |s| - 1);
    }
  }

  /** The shuffle, in place, as the source runs it. */
  method ShuffleInPlace(receivers: array<Participant>, js: seq<int>)
    requires ValidDraws(js, receivers.Length)
    modifies receivers
    ensures receivers[..] == Shuffle(old(receivers[..]), js)
  {
    var i := receivers.Length - 1;
    while i > 0
      invariant receivers.Length == 0 ==> i == -1
      invariant receivers.Length > 0 ==> 0 <= i < receivers.Length
      invariant receivers.Length > 0 ==>
        ShuffleDown(receivers[..], js, i) == Shuffle(old(receivers[..]), js)
      decreases i
    {
      var j := js[i];
      ghost var before := receivers[..];
      receivers[i], receivers[j] := receivers[j], receivers[i];
      assert receivers[..] == Swap(before, i, j);
      i := i - 1;
    }
  }

  // ---------------------------------------------------------------------
  // "Ensure no one gets themselves" (secretSanta.ts:30-37)
  // ---------------------------------------------------------------------

  /** The index after i, wrapping around: (i + 1) % n. */
  function NextIndex(i: nat, n: nat): (r: nat)
    requires i < n
    ensures r == if i + 1 == n then 0 else i + 1
  {
    (i + 1) % n
  }

  /** Step i of the pass: a self-match at i is swapped with index (i+1) mod N. */
  function FixStep(ps: seq<Participant>, rs: seq<Participant>, i: nat): (r: seq<Participant>)
    requires |rs| == |ps| && i < |ps|
    ensures |r| == |rs|
  {
    if ps[i].id == rs[i].id then Swap(rs, i, NextIndex(i, |rs|)) else rs
  }

  /** Steps i, i+1, ..., j-1 of the pass applied to `rs`; the whole pass is
      Pass(ps, s, 0, |ps|). */
  function Pass(ps: seq<Participant>, rs: seq<Participant>, i: nat, j: nat): (r: seq<Participant>)
    requires |rs| == |ps| && i <= j <= |ps|
    ensures |r| == |rs|
    decreases j - i
  {
    if i == j then rs else Pass(ps, FixStep(ps, rs, i), i + 1, j)
  }

  lemma SwapKeepsDistinct(s: seq<Participant>, i: nat, j: nat)
    requires i < |s| && j < |s| && DistinctIds(s)
    ensures DistinctIds(Swap(s, i, j))
  {
    var r := Swap(s, i, j);
    forall a, b | 0 <= a < b < |r| ensures r[a].id != r[b].id {
      var a' := if a == i then j else if a == j then i else a;
      var b' := if b == i then j else if b == j then i else b;
      assert r[a] == s[a'] && r[b] == s[b'];
      if a' < b' {
        assert s[a'].id != s[b'].id;
      } else {
        assert s[b'].id != s[a'].id;
      }
    }
  }

  /** The pass only exchanges index i with (i+1) mod N, so it is a permutation. */
  lemma {:induction false} PassPermutes(ps: seq<Participant>, rs: seq<Participant>, i: nat, j: nat)
    requires |rs| == |ps| && i <= j <= |ps|
    ensures multiset(Pass(ps, rs, i, j)) == multiset(rs)
    decreases j - i
  {
    if i < j {
      var next := FixStep(ps, rs, i);
      if ps[i].id == rs[i].id {
        SwapPermutes(rs, i, NextIndex(i, |rs|));
      }
      PassPermutes(ps, next, i + 1, j);
    }
  }

  /** Running steps i..j-1 and then j..k-1 is running steps i..k-1. */
  lemma {:induction false} PassSplit(ps: seq<Participant>, rs: seq<Participant>, i: nat, j: nat, k: nat)
    requires |rs| == |ps| && i <= j <= k <= |ps|
    ensures Pass(ps, rs, i, k) == Pass(ps, Pass(ps, rs, i, j), j, k)
    decreases j - i
  {
    if i < j {
      PassSplit(ps, FixStep(ps, rs, i), i + 1, j, k);
    }
  }

  /** Once step k >= 1 is done, index k is never touched again. */
  lemma {:induction false} PassKeepsSettled(ps: seq<Participant>, rs: seq<Participant>, i: nat, j: nat, k: nat)
    requires |rs| == |ps| && 1 <= k < i <= j <= |ps|
    ensures Pass(ps, rs, i, j)[k] == rs[k]
    decreases j - i
  {
    if i < j {
      PassKeepsSettled(ps, FixStep(ps, rs, i), i + 1, j, k);
    }
  }

  /** Steps 1 .. N-2 never touch index 0: only the wrap step reaches it. */
  lemma {:induction false} PassKeepsFirst(ps: seq<Participant>, rs: seq<Participant>, i: nat, j: nat)
    requires |rs| == |ps| && 1 <= i <= j < |ps|
    ensures Pass(ps, rs, i, j)[0] == rs[0]
    decreases j - i
  {
    if i < j {
      PassKeepsFirst(ps, FixStep(ps, rs, i), i + 1, j);
    }
  }

  /** The pass, in place, as the source runs it (without recording anything). */
  method FixSelfMatches(ps: seq<Participant>, receivers: array<Participant>)
    requires receivers.Length == |ps|
    modifies receivers
    ensures receivers[..] == Pass(ps, old(receivers[..]), 0, |ps|)
  {
    var i := 0;
    while i < |ps|
      invariant 0 <= i <= |ps|
      invariant Pass(ps, receivers[..], i, |ps|) == Pass(ps, old(receivers[..]), 0, |ps|)
    {
      ghost var before := receivers[..];
      if ps[i].id == receivers[i].id {
        var next := NextIndex(i, |ps|);
        receivers[i], receivers[next] := receivers[next], receivers[i];
        assert receivers[..] == Swap(before, i, next);
      }
      assert receivers[..] == FixStep(ps, before, i);
      i := i + 1;
    }
  }

  /** The final receiver order for a given sequence of draws. */
  function Drawn(ps: seq<Participant>, js: seq<int>): (rs: seq<Participant>)
    requires ValidDraws(js, |ps|)
    ensures |rs| == |ps|
  {
    Pass(ps, Shuffle(ps, js), 0, |ps|)
  }

  /** A permutation of a list with distinct ids has distinct ids. */
  lemma {:induction false} PermutationKeepsDistinct(ps: seq<Participant>, rs: seq<Participant>)
    requires DistinctIds(ps) && multiset(rs) == multiset(ps)
    ensures DistinctIds(rs)
  {
    forall a, b | 0 <= a < b < |rs| ensures rs[a].id != rs[b].id {
      assert rs[a] in multiset(ps) && rs[b] in multiset(ps);
      var x :| 0 <= x < |ps| && ps[x] == rs[a];
      var y :| 0 <= y < |ps| && ps[y] == rs[b];
      if x == y {
        TwiceCounted(rs, a, b);
        AtMostOnce(ps, rs[a]);
        assert false;
      }
    }
  }

  /** With distinct ids every value occurs at most once. */
  lemma {:induction false} AtMostOnce(ps: seq<Participant>, v: Participant)
    requires DistinctIds(ps)
    ensures multiset(ps)[v] <= 1
  {
    if ps != [] {
      var tail := ps[1..];
      assert ps == [ps[0]] + tail;
      assert DistinctIds(tail) by {
        forall a, b | 0 <= a < b < |tail| ensures tail[a].id != tail[b].id {
          assert tail[a] == ps[a + 1] && tail[b] == ps[b + 1];
        }
      }
      AtMostOnce(tail, v);
      if ps[0] == v {
        forall k | 0 <= k < |tail| ensures tail[k] != v {
          assert tail[k] == ps[k + 1];
        }
        assert v !in tail;
      }
    }
  }

  /** A value found at two positions occurs at least twice. */
  lemma TwiceCounted(rs: seq<Participant>, a: nat, b: nat)
    requires a < b < |rs| && rs[a] == rs[b]
    ensures multiset(rs)[rs[a]] >= 2
  {
    assert rs == rs[..a] + [rs[a]] + rs[a + 1..b] + [rs[b]] + rs[b + 1..];
  }

  /** Step i never leaves participants[i] at index i: with distinct ids the
      swap at i < N-1 brings in receivers[i+1], whose id differs from that of
      receivers[i] == participants[i], and the wrap swap at N-1 brings in
      receivers[0]. */
  lemma StepClears(ps: seq<Participant>, rs: seq<Participant>, i: nat)
    requires |rs| == |ps| >= 2 && i < |ps| && DistinctIds(rs)
    ensures FixStep(ps, rs, i)[i].id != ps[i].id
  {
    if ps[i].id == rs[i].id {
      var j := NextIndex(i, |ps|);
      assert FixStep(ps, rs, i)[i] == rs[j];
      if i < j {
        assert rs[i].id != rs[j].id;
      } else {
        assert rs[j].id != rs[i].id;
      }
    }
  }

  /** The pass's invariant: after step i, no index k <= i holds someone of
      the same id as participants[k]. A swap at i < N-1 writes only i and
      i+1, and the wrap swap puts participants[N-1] at index 0, whose own
      participant has another id. */
  lemma {:induction false} PassClears(ps: seq<Participant>, rs: seq<Participant>, i: nat)
    requires |rs| == |ps| >= 2 && i <= |ps|
    requires DistinctIds(ps) && DistinctIds(rs)
    requires forall k :: 0 <= k < i ==> rs[k].id != ps[k].id
    ensures NoSelfMatch(ps, Pass(ps, rs, i, |ps|))
    decreases |ps| - i
  {
    var n := |ps|;
    if i < n {
      var next := FixStep(ps, rs, i);
      StepClears(ps, rs, i);
      if ps[i].id == rs[i].id {
        var j := NextIndex(i, n);
        SwapKeepsDistinct(rs, i, j);
        if j == 0 {
          assert next[0] == rs[n - 1];
          assert ps[n - 1].id != ps[0].id;
        }
      }
      assert forall k :: 0 <= k < i + 1 ==> next[k].id != ps[k].id;
      PassClears(ps, next, i + 1);
    }
  }

  /** The pass's invariant for the real pass: after steps 0..i-1 of the pass
      over a list with distinct ids, ids are still distinct and no index
      k < i holds someone with participants[k]'s id. */
  lemma {:induction false} PassInvariant(ps: seq<Participant>, s: seq<Participant>, i: nat)
    requires |s| == |ps| >= 2 && i <= |ps|
    requires DistinctIds(ps) && DistinctIds(s)
    ensures DistinctIds(Pass(ps, s, 0, i))
    ensures forall k :: 0 <= k < i ==> Pass(ps, s, 0, i)[k].id != ps[k].id
  {
    if i > 0 {
      var n := |ps|;
      var before := Pass(ps, s, 0, i - 1);
      PassInvariant(ps, s, i - 1);
      PassSplit(ps, s, 0, i - 1, i);
      var after := FixStep(ps, before, i - 1);
      assert Pass(ps, s, 0, i) == after;
      StepClears(ps, before, i - 1);
      if ps[i - 1].id == before[i - 1].id {
        var j := NextIndex(i - 1, n);
        SwapKeepsDistinct(before, i - 1, j);
        if j == 0 {
          assert after[0] == before[n - 1];
          assert ps[n - 1].id != ps[0].id;
        }
      }
    }
  }

  /** Given distinct ids and at least two participants, the pass turns ANY
      permutation of the participants into a derangement of them. */
  lemma FixPassDeranges(ps: seq<Participant>, s: seq<Participant>)
    requires |ps| >= 2 && DistinctIds(ps)
    requires multiset(s) == multiset(ps)
    ensures |s| == |ps|
    ensures multiset(Pass(ps, s, 0, |ps|)) == multiset(ps)
    ensures NoSelfMatch(ps, Pass(ps, s, 0, |ps|))
  {
    assert |s| == |multiset(s)| == |multiset(ps)| == |ps|;
    PermutationKeepsDistinct(ps, s);
    PassClears(ps, s, 0);
    PassPermutes(ps, s, 0, |ps|);
  }

  /** The shuffle followed by the pass always yields a derangement. */
  lemma DrawnIsDerangement(ps: seq<Participant>, js: seq<int>)
    requires ValidDraws(js, |ps|) && |ps| >= 2 && DistinctIds(ps)
    ensures multiset(Drawn(ps, js)) == multiset(ps)
    ensures NoSelfMatch(ps, Drawn(ps, js))
  {
    ShufflePermutes(ps, js);
    FixPassDeranges(ps, Shuffle(ps, js));
  }

  // ---------------------------------------------------------------------
  // Building the assignments
  // ---------------------------------------------------------------------

  /** Pairs each participant with the receiver at the same index, unrevealed,
      as the hook builds its list after the pass (useSecretSanta.ts:154-158). */
  function BuildAssignments(ps: seq<Participant>, rs: seq<Participant>): (r: seq<Assignment>)
    requires |rs| == |ps|
    ensures Givers(r) == ps && Receivers(r) == rs
    ensures forall k :: 0 <= k < |r| ==> !r[k].isRevealed
  {
    seq(|ps|, k requires 0 <= k < |ps| => Assignment(ps[k], rs[k], false))
  }

  /** The utility's pass from step i on, pushing assignment k right after
      step k with whatever receivers[k] then holds. */
  function PushedFrom(ps: seq<Participant>, rs: seq<Participant>, i: nat): (r: seq<Assignment>)
    requires |rs| == |ps| && i <= |ps|
    ensures |r| == |ps| - i
    decreases |ps| - i
  {
    if i == |ps| then []
    else
      var next := FixStep(ps, rs, i);
      [Assignment(ps[i], next[i], false)] + PushedFrom(ps, next, i + 1)
  }

  /** The utility pushes one unrevealed assignment per giver, in order. */
  lemma {:induction false} PushedFromGivers(ps: seq<Participant>, rs: seq<Participant>, i: nat)
    requires |rs| == |ps| && i <= |ps|
    ensures Givers(PushedFrom(ps, rs, i)) == ps[i..]
    ensures forall k :: 0 <= k < |ps| - i ==> !PushedFrom(ps, rs, i)[k].isRevealed
    decreases |ps| - i
  {
    if i < |ps| {
      var next := FixStep(ps, rs, i);
      PushedFromGivers(ps, next, i + 1);
      PushedStep(ps, rs, i);
      GiversCons(Assignment(ps[i], next[i], false), PushedFrom(ps, next, i + 1));
      assert ps[i..] == [ps[i]] + ps[i + 1..];
    }
  }

  /** Recording receiver x in front of a tail that records final[i+1..]
      records final[i..] when x == final[i]. */
  lemma RecordedCons(a: Assignment, tail: seq<Assignment>, final: seq<Participant>, i: nat)
    requires i < |final| && a.receiver == final[i] && Receivers(tail) == final[i + 1..]
    ensures Receivers([a] + tail) == final[i..]
  {
    ReceiversCons(a, tail);
    assert final[i..] == [final[i]] + final[i + 1..];
  }

  /** Recording receiver x in front of a tail that records final[1..]
      records final with index 0 replaced by x. */
  lemma RecordedFirst(a: Assignment, tail: seq<Assignment>, final: seq<Participant>)
    requires 1 <= |final| && Receivers(tail) == final[1..]
    ensures Receivers([a] + tail) == final[0 := a.receiver]
  {
    ReceiversCons(a, tail);
    assert final[0 := a.receiver] == [a.receiver] + final[1..];
  }

  /** From step 1 on, what the utility records is the final receiver order. */
  lemma {:induction false} PushedFromTail(ps: seq<Participant>, rs: seq<Participant>, i: nat)
    requires |rs| == |ps| && 1 <= i <= |ps|
    ensures Receivers(PushedFrom(ps, rs, i)) == Pass(ps, rs, i, |ps|)[i..]
    decreases |ps| - i
  {
    if i < |ps| {
      var next := FixStep(ps, rs, i);
      PushedFromTail(ps, next, i + 1);
      PassKeepsSettled(ps, next, i + 1, |ps|, i);
      PushedStep(ps, rs, i);
      RecordedCons(Assignment(ps[i], next[i], false), PushedFrom(ps, next, i + 1), Pass(ps, next, i + 1, |ps|), i);
    }
  }

  /** What the utility returns: the final receiver order, except that
      assignment 0 keeps the receiver index 0 held right after step 0. */
  lemma AsWrittenReceivers(ps: seq<Participant>, s: seq<Participant>)
    requires |s| == |ps| >= 1
    ensures Receivers(PushedFrom(ps, s, 0)) ==
      Pass(ps, s, 0, |ps|)[0 := FixStep(ps, s, 0)[0]]
  {
    var next := FixStep(ps, s, 0);
    PushedStep(ps, s, 0);
    PushedFromTail(ps, next, 1);
    RecordedFirst(Assignment(ps[0], next[0], false), PushedFrom(ps, next, 1), Pass(ps, next, 1, |ps|));
  }

  /** Whether the last step of the pass swaps index N-1 with index 0. */
  predicate WrapFires(ps: seq<Participant>, s: seq<Participant>)
    requires |s| == |ps| >= 2
  {
    ps[|ps| - 1].id == Pass(ps, s, 0, |ps| - 1)[|ps| - 1].id
  }

  /** The last step is the wrap swap exactly when WrapFires, and index 0 is
      unchanged from step 0 until then. */
  lemma LastStep(ps: seq<Participant>, s: seq<Participant>)
    requires |s| == |ps| >= 2
    ensures Pass(ps, s, 0, |ps| - 1)[0] == FixStep(ps, s, 0)[0]
    ensures WrapFires(ps, s) ==>
      Pass(ps, s, 0, |ps|) == Swap(Pass(ps, s, 0, |ps| - 1), |ps| - 1, 0)
    ensures !WrapFires(ps, s) ==> Pass(ps, s, 0, |ps|) == Pass(ps, s, 0, |ps| - 1)
  {
    var n := |ps|;
    var next := FixStep(ps, s, 0);
    var before := Pass(ps, s, 0, n - 1);
    PassSplit(ps, s, 0, 1, n - 1);
    PassKeepsFirst(ps, next, 1, n - 1);
    PassSplit(ps, s, 0, n - 1, n);
    assert Pass(ps, s, 0, n) == FixStep(ps, before, n - 1);
  }

  /** Without the wrap swap, the utility records exactly the final order. */
  lemma AsWrittenWithoutWrap(ps: seq<Participant>, s: seq<Participant>)
    requires |s| == |ps| >= 2 && !WrapFires(ps, s)
    ensures Receivers(PushedFrom(ps, s, 0)) == Pass(ps, s, 0, |ps|)
  {
    AsWrittenReceivers(ps, s);
    LastStep(ps, s);
  }

  /** With distinct ids, nobody in the utility's result is their own
      receiver, whatever the draws. */
  lemma AsWrittenNoSelfMatch(ps: seq<Participant>, s: seq<Participant>)
    requires |ps| >= 2 && DistinctIds(ps) && multiset(s) == multiset(ps)
    ensures |s| == |ps|
    ensures forall k :: 0 <= k < |ps| ==>
      PushedFrom(ps, s, 0)[k].giver.id != PushedFrom(ps, s, 0)[k].receiver.id
  {
    FixPassDeranges(ps, s);
    PermutationKeepsDistinct(ps, s);
    StepClears(ps, s, 0);
    AsWrittenReceivers(ps, s);
    PushedFromGivers(ps, s, 0);
    var rs := Receivers(PushedFrom(ps, s, 0));
    assert forall k :: 0 <= k < |ps| ==> rs[k].id != ps[k].id;
  }

  /** With two participants the wrap swap never fires. */
  lemma NoWrapForTwo(ps: seq<Participant>, s: seq<Participant>)
    requires |ps| == 2 && DistinctIds(ps) && multiset(s) == multiset(ps)
    ensures |s| == 2 && !WrapFires(ps, s)
  {
    assert |s| == |multiset(s)| == |multiset(ps)| == 2;
    PermutationKeepsDistinct(ps, s);
    var next := FixStep(ps, s, 0);
    StepClears(ps, s, 0);
    if ps[0].id == s[0].id {
      SwapKeepsDistinct(s, 0, 1);
    }
    PassPermutes(ps, s, 0, 1);
    assert Pass(ps, s, 0, 1) == next;
    PermutationKeepsDistinct(ps, next);
    assert next[0] in multiset(ps);
    assert next[0].id == ps[1].id;
  }

  /** When the wrap swap fires, the receiver of assignment 0 is recorded
      twice and participants[N-1] receives from nobody. This needs N >= 3. */
  lemma AsWrittenWhenWrapFires(ps: seq<Participant>, s: seq<Participant>)
    requires |ps| >= 2 && DistinctIds(ps) && multiset(s) == multiset(ps)
    ensures |s| == |ps|
    ensures WrapFires(ps, s) ==> |ps| >= 3
    ensures WrapFires(ps, s) ==>
      PushedFrom(ps, s, 0)[0].receiver == PushedFrom(ps, s, 0)[|ps| - 1].receiver
    ensures WrapFires(ps, s) ==> forall k :: 0 <= k < |ps| ==>
      PushedFrom(ps, s, 0)[k].receiver.id != ps[|ps| - 1].id
  {
    var n := |ps|;
    assert |s| == |multiset(s)| == |multiset(ps)| == n;
    if n == 2 {
      NoWrapForTwo(ps, s);
    }
    if WrapFires(ps, s) {
      var before := Pass(ps, s, 0, n - 1);
      var rs := Receivers(PushedFrom(ps, s, 0));
      AsWrittenReceivers(ps, s);
      LastStep(ps, s);
      PermutationKeepsDistinct(ps, s);
      PassPermutes(ps, s, 0, n - 1);
      PermutationKeepsDistinct(s, before);
      assert rs[0] == before[0] && rs[n - 1] == before[0];
      forall k | 0 <= k < n ensures rs[k].id != ps[n - 1].id {
        if 0 < k < n - 1 {
          assert rs[k] == before[k];
        }
      }
    }
  }

  /** The utility's result is a bijection exactly when the wrap swap does not
      fire (always for N = 2). */
  lemma AsWrittenBijectiveIffNoWrap(ps: seq<Participant>, s: seq<Participant>)
    requires |ps| >= 2 && DistinctIds(ps) && multiset(s) == multiset(ps)
    ensures |s| == |ps|
    ensures multiset(Receivers(PushedFrom(ps, s, 0))) == multiset(ps) <==> !WrapFires(ps, s)
  {
    var n := |ps|;
    assert |s| == |multiset(s)| == |multiset(ps)| == n;
    var rs := Receivers(PushedFrom(ps, s, 0));
    AsWrittenWhenWrapFires(ps, s);
    if WrapFires(ps, s) {
      assert ps[n - 1] !in rs by {
        forall k | 0 <= k < n ensures rs[k] != ps[n - 1] {
          assert rs[k].id != ps[n - 1].id;
        }
      }
      assert multiset(rs)[ps[n - 1]] == 0;
      assert ps[n - 1] in multiset(ps);
    } else {
      PassPermutes(ps, s, 0, n);
      AsWrittenWithoutWrap(ps, s);
    }
  }

  /** A worked example: for [A, B, C] the draws j = 2 at i = 2 and j = 0 at
      i = 1 shuffle to [B, A, C]; the pass records A->B, B->A and, after the
      wrap swap, C->B: B receives twice and C from nobody. */
  lemma AsWrittenCounterexample()
    ensures
      var a, b, c := Participant("a", "A", None), Participant("b", "B", None), Participant("c", "C", None);
      var ps, js := [a, b, c], [0, 0, 2];
      ValidDraws(js, 3) && DistinctIds(ps) &&
      Shuffle(ps, js) == [b, a, c] &&
      WrapFires(ps, Shuffle(ps, js)) &&
      Receivers(PushedFrom(ps, Shuffle(ps, js), 0)) == [b, a, b]
  {
    var a, b, c := Participant("a", "A", None), Participant("b", "B", None), Participant("c", "C", None);
    var ps, js := [a, b, c], [0, 0, 2];
    assert ShuffleDown(ps, js, 2) == ShuffleDown(ps, js, 1) == [b, a, c];
    var s := [b, a, c];
    assert FixStep(ps, s, 0) == s;
    assert FixStep(ps, s, 1) == s;
    assert Pass(ps, s, 0, 2) == s;
    assert FixStep(ps, s, 2) == [c, a, b];
    assert PushedFrom(ps, s, 2) == [Assignment(c, b, false)];
    assert PushedFrom(ps, s, 1) == [Assignment(b, a, false), Assignment(c, b, false)];
  }

  // ---------------------------------------------------------------------
  // generateSecretSantaAssignments (secretSanta.ts:14-47)
  // ---------------------------------------------------------------------

  /** The pass as the utility runs it: the assignment for index i is pushed
      right after step i, with whatever receivers[i] then holds. */
  method FixAndRecord(ps: seq<Participant>, receivers: array<Participant>)
    returns (assignments: seq<Assignment>)
    requires receivers.Length == |ps|
    modifies receivers
    ensures assignments == PushedFrom(ps, old(receivers[..]), 0)
    ensures receivers[..] == Pass(ps, old(receivers[..]), 0, |ps|)
  {
    assignments := [];
    var i := 0;
    while i < |ps|
      invariant 0 <= i <= |ps|
      invariant assignments + PushedFrom(ps, receivers[..], i) == PushedFrom(ps, old(receivers[..]), 0)
      invariant Pass(ps, receivers[..], i, |ps|) == Pass(ps, old(receivers[..]), 0, |ps|)
    {
      ghost var before := receivers[..];
      var receiverIndex := i;
      if ps[i].id == receivers[receiverIndex].id {
        var nextIndex := NextIndex(i, |ps|);
        receivers[receiverIndex], receivers[nextIndex] := receivers[nextIndex], receivers[receiverIndex];
        assert receivers[..] == Swap(before, receiverIndex, nextIndex);
      }
      ghost var after := receivers[..];
      assert after == FixStep(ps, before, i);
      RecordStep(ps, before, i, assignments);
      assignments := assignments + [Assignment(ps[i], receivers[receiverIndex], false)];
      i := i + 1;
    }
  }

  /** generateSecretSantaAssignments as written. */
  method GenerateAssignmentsAsWritten(participants: seq<Participant>, js: seq<int>)
    returns (r: Result<seq<Assignment>>)
    requires ValidDraws(js, |participants|)
    ensures r.Failure? <==> |participants| < 2
    ensures r.Failure? ==> r.error == NotEnoughParticipants
    ensures r.Success? ==> r.value == PushedFrom(participants, Shuffle(participants, js), 0)
    ensures r.Success? ==> Givers(r.value) == participants
    ensures r.Success? ==> forall k :: 0 <= k < |r.value| ==> !r.value[k].isRevealed
    ensures r.Success? && DistinctIds(participants) ==>
      forall k :: 0 <= k < |r.value| ==> r.value[k].giver.id != r.value[k].receiver.id
  {
    if |participants| < 2 {
      return Failure(NotEnoughParticipants);
    }
    var n := |participants|;
    var receivers := new Participant[n](k requires 0 <= k < n => participants[k]);
    assert receivers[..] == participants;
    ShuffleInPlace(receivers, js);
    var assignments := FixAndRecord(participants, receivers);
    r := Success(assignments);
    PushedFromGivers(participants, Shuffle(participants, js), 0);
    ShufflePermutes(participants, js);
    if DistinctIds(participants) {
      AsWrittenNoSelfMatch(participants, Shuffle(participants, js));
    }
  }

  /** One iteration of the utility's loop keeps both loop invariants. */
  lemma RecordStep(ps: seq<Participant>, before: seq<Participant>, i: nat, acc: seq<Assignment>)
    requires |before| == |ps| && i < |ps|
    ensures (acc + [Assignment(ps[i], FixStep(ps, before, i)[i], false)])
              + PushedFrom(ps, FixStep(ps, before, i), i + 1)
            == acc + PushedFrom(ps, before, i)
    ensures Pass(ps, FixStep(ps, before, i), i + 1, |ps|) == Pass(ps, before, i, |ps|)
  {
    PushedStep(ps, before, i);
  }

  /** Unfolding one step of PushedFrom. */
  lemma PushedStep(ps: seq<Participant>, rs: seq<Participant>, i: nat)
    requires |rs| == |ps| && i < |ps|
    ensures PushedFrom(ps, rs, i) ==
      [Assignment(ps[i], FixStep(ps, rs, i)[i], false)] + PushedFrom(ps, FixStep(ps, rs, i), i + 1)
  {
  }

  /** The corrected utility: the same shuffle and pass, with the assignments
      built from the final receiver order, so the result is a derangement. */
  method GenerateAssignments(participants: seq<Participant>, js: seq<int>)
    returns (r: Result<seq<Assignment>>)
    requires ValidDraws(js, |participants|)
    ensures r.Failure? <==> |participants| < 2
    ensures r.Failure? ==> r.error == NotEnoughParticipants
    ensures r.Success? ==> r.value == BuildAssignments(participants, Drawn(participants, js))
    ensures r.Success? ==> Givers(r.value) == participants
    ensures r.Success? ==> multiset(Receivers(r.value)) == multiset(participants)
    ensures r.Success? ==> forall k :: 0 <= k < |r.value| ==> !r.value[k].isRevealed
    ensures r.Success? && DistinctIds(participants) ==>
      forall k :: 0 <= k < |r.value| ==> r.value[k].giver.id != r.value[k].receiver.id
  {
    if |participants| < 2 {
      return Failure(NotEnoughParticipants);
    }
    var n := |participants|;
    var receivers := new Participant[n](k requires 0 <= k < n => participants[k]);
    assert receivers[..] == participants;
    ShuffleInPlace(receivers, js);
    FixSelfMatches(participants, receivers);
    r := Success(BuildAssignments(participants, receivers[..]));
    ShufflePermutes(participants, js);
    PassPermutes(participants, Shuffle(participants, js), 0, n);
    if DistinctIds(participants) {
      DrawnIsDerangement(participants, js);
    }
  }
}

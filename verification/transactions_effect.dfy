/** What the loops of `stack_transactions` (mozphab/commands/reorganise.py)
    record, and why the recorded lists, applied to the remote stack on
    Phabricator, give the child map the loops built. */
module TransactionsEffect {
  import opened Wrappers
  import opened Revisions
  import opened LinkedList
  import opened EditScript
  import opened Transactions

  /** The recorded lists explain the edited map: every key has a list, and
      each list applied to the revision's child in `base` gives its child in
      the map (a missing key reads as no child). */
  predicate Tracks(base: LList, p: Plan) {
    && (forall x :: x in p.links ==> x in p.txns)
    && (forall x :: x in p.txns ==> Apply(Get(base, x), p.txns[x]) == Get(p.links, x))
  }

  lemma StartTracks(remote: seq<RevId>, local: seq<RevId>)
    ensures Tracks(ToLList(remote), StartPlan(remote, local))
  {
  }

  /** Changing one revision's child and list keeps `Tracks` when the new
      list explains the new child. */
  lemma TracksUpdate(base: LList, p: Plan, q: Plan, r: RevId)
    requires Tracks(base, p) && r in p.txns
    requires q.txns.Keys == p.txns.Keys && q.links.Keys <= p.links.Keys + {r}
    requires forall x :: x in p.txns && x != r ==> q.txns[x] == p.txns[x]
    requires forall x :: x != r ==> Get(q.links, x) == Get(p.links, x)
    requires Apply(Get(base, r), q.txns[r]) == Get(q.links, r)
    ensures Tracks(base, q)
  {
  }

  /** A retarget keeps `Tracks`. The body names the appended entry in each
      case; it is there to keep the solver's work small. */
  lemma RetargetTracks(base: LList, p: Plan, r: RevId, child: Option<RevId>)
    requires r in p.txns && Tracks(base, p)
    ensures Retarget(p, r, child).Ok? ==> Tracks(base, Retarget(p, r, child).value)
  {
    var res := Retarget(p, r, child);
    if res.Ok? {
      var q := res.value;
      if child.Some? {
        ApplySnoc(Get(base, r), p.txns[r], ChildrenSet(child.value));
      } else if Get(p.links, r).Some? {
        ApplySnoc(Get(base, r), p.txns[r], ChildrenRemove(Get(p.links, r).value));
      }
      TracksUpdate(base, p, q, r);
    }
  }

  /** Removing a child keeps `Tracks`. As above, the body only keeps the
      solver's work small. */
  lemma DetachTracks(base: LList, p: Plan, rev: RevId)
    requires rev in p.links && rev in p.txns && Tracks(base, p)
    ensures Tracks(base, Detach(p, rev))
  {
    DetachRecords(p, rev);
    if p.links[rev].Some? {
      ApplySnoc(Get(base, rev), p.txns[rev], ChildrenRemove(p.links[rev].value));
    }
  }

  lemma DropTracks(base: LList, p: Plan, rev: RevId)
    requires rev in p.txns && Tracks(base, p)
    ensures Tracks(base, Drop(p, rev))
  {
  }

  /** The first loop: each remote revision missing locally ends without a
      child, and every other child is untouched. */
  lemma {:induction false} DetachRemovedLinks(remote: seq<RevId>, local: seq<RevId>, i: nat, p: Plan)
    requires i <= |remote|
    requires Elems(remote) <= p.links.Keys && Elems(remote) <= p.txns.Keys
    ensures var r := DetachRemoved(remote, local, i, p);
      r.Ok? ==> forall x :: x in p.links ==>
        r.value.links[x] == if x in remote[i..] && x !in local then None else p.links[x]
    decreases |remote| - i
  {
    if i < |remote| {
      assert remote[i..] == [remote[i]] + remote[i + 1..];
      if remote[i] in local {
        DetachRemovedLinks(remote, local, i + 1, p);
      } else {
        DetachRemovedLinks(remote, local, i + 1, Detach(p, remote[i]));
      }
    }
  }

  /** The first loop records nothing for the revisions it leaves alone. */
  lemma {:induction false} DetachRemovedTxns(remote: seq<RevId>, local: seq<RevId>, i: nat, p: Plan)
    requires i <= |remote|
    requires Elems(remote) <= p.links.Keys && Elems(remote) <= p.txns.Keys
    ensures var r := DetachRemoved(remote, local, i, p);
      r.Ok? ==> forall x :: x in p.txns && (x !in remote[i..] || x in local) ==> r.value.txns[x] == p.txns[x]
    decreases |remote| - i
  {
    if i < |remote| {
      assert remote[i..] == [remote[i]] + remote[i + 1..];
      if remote[i] in local {
        DetachRemovedTxns(remote, local, i + 1, p);
      } else {
        DetachRecords(p, remote[i]);
        DetachRemovedTxns(remote, local, i + 1, Detach(p, remote[i]));
      }
    }
  }

  /** The first loop keeps the lists explaining the map. */
  lemma {:induction false} DetachRemovedTracks(base: LList, remote: seq<RevId>, local: seq<RevId>, i: nat, p: Plan)
    requires i <= |remote|
    requires Elems(remote) <= p.links.Keys && Elems(remote) <= p.txns.Keys
    ensures var r := DetachRemoved(remote, local, i, p);
      r.Ok? && Tracks(base, p) ==> Tracks(base, r.value)
    decreases |remote| - i
  {
    if i < |remote| {
      if remote[i] in local {
        DetachRemovedTracks(base, remote, local, i + 1, p);
      } else {
        if Tracks(base, p) {
          DetachTracks(base, p, remote[i]);
        }
        DetachRemovedTracks(base, remote, local, i + 1, Detach(p, remote[i]));
      }
    }
  }

  /** The local revisions from position `i` on that are missing remotely. */
  function AddedFrom(remote: seq<RevId>, local: seq<RevId>, i: nat): set<RevId>
    requires i <= |local|
  {
    set x | x in local[i..] && x !in remote
  }

  lemma AddedFromStep(remote: seq<RevId>, local: seq<RevId>, i: nat)
    requires i < |local|
    ensures local[i] in remote ==> AddedFrom(remote, local, i) == AddedFrom(remote, local, i + 1)
    ensures local[i] !in remote ==> AddedFrom(remote, local, i) == {local[i]} + AddedFrom(remote, local, i + 1)
  {
  }

  /** The second loop adds exactly the local revisions missing remotely to the
      child map. */
  lemma {:induction false} LinkAddedKeys(remote: seq<RevId>, local: seq<RevId>, target: LList, i: nat, p: Plan)
    requires i <= |local|
    requires Elems(local) <= target.Keys && Elems(local) <= p.txns.Keys
    ensures var r := LinkAdded(remote, local, target, i, p);
      r.Ok? ==> forall x :: x in r.value.links <==> x in p.links || x in AddedFrom(remote, local, i)
    decreases |local| - i
  {
    if i < |local| {
      AddedFromStep(remote, local, i);
      var rev := local[i];
      if rev in remote {
        LinkAddedKeys(remote, local, target, i + 1, p);
      } else if Retarget(p, rev, target[rev]).Ok? {
        LinkAddedKeys(remote, local, target, i + 1, Retarget(p, rev, target[rev]).value);
      }
    }
  }

  /** The second loop: each local revision missing remotely gets its local
      child, and every other child is untouched. */
  lemma {:induction false} LinkAddedLinks(remote: seq<RevId>, local: seq<RevId>, target: LList, i: nat, p: Plan)
    requires i <= |local|
    requires Elems(local) <= target.Keys && Elems(local) <= p.txns.Keys
    ensures var r := LinkAdded(remote, local, target, i, p);
      r.Ok? ==> forall x :: x in r.value.links ==>
        r.value.links[x] == if x in AddedFrom(remote, local, i) then target[x] else Get(p.links, x)
    decreases |local| - i
  {
    if i < |local| {
      AddedFromStep(remote, local, i);
      var rev := local[i];
      if rev in remote {
        LinkAddedLinks(remote, local, target, i + 1, p);
      } else if Retarget(p, rev, target[rev]).Ok? {
        LinkAddedLinks(remote, local, target, i + 1, Retarget(p, rev, target[rev]).value);
      }
    }
  }

  /** The second loop records nothing for the revisions it leaves alone. */
  lemma {:induction false} LinkAddedTxns(remote: seq<RevId>, local: seq<RevId>, target: LList, i: nat, p: Plan)
    requires i <= |local|
    requires Elems(local) <= target.Keys && Elems(local) <= p.txns.Keys
    ensures var r := LinkAdded(remote, local, target, i, p);
      r.Ok? ==> forall x :: x in p.txns && x !in AddedFrom(remote, local, i) ==> r.value.txns[x] == p.txns[x]
    decreases |local| - i
  {
    if i < |local| {
      AddedFromStep(remote, local, i);
      var rev := local[i];
      if rev in remote {
        LinkAddedTxns(remote, local, target, i + 1, p);
      } else if Retarget(p, rev, target[rev]).Ok? {
        LinkAddedTxns(remote, local, target, i + 1, Retarget(p, rev, target[rev]).value);
      }
    }
  }

  /** The second loop keeps the lists explaining the map. */
  lemma {:induction false} LinkAddedTracks(base: LList, remote: seq<RevId>, local: seq<RevId>, target: LList, i: nat, p: Plan)
    requires i <= |local|
    requires Elems(local) <= target.Keys && Elems(local) <= p.txns.Keys
    ensures var r := LinkAdded(remote, local, target, i, p);
      r.Ok? && Tracks(base, p) ==> Tracks(base, r.value)
    decreases |local| - i
  {
    if i < |local| {
      var rev := local[i];
      if rev in remote {
        LinkAddedTracks(base, remote, local, target, i + 1, p);
      } else if Retarget(p, rev, target[rev]).Ok? {
        if Tracks(base, p) {
          RetargetTracks(base, p, rev, target[rev]);
        }
        LinkAddedTracks(base, remote, local, target, i + 1, Retarget(p, rev, target[rev]).value);
      }
    }
  }

  /** The third loop: each revision in both stacks gets its local child, and
      every other child is untouched. */
  lemma {:induction false} RelinkKeptLinks(remote: seq<RevId>, local: seq<RevId>, target: LList, i: nat, p: Plan)
    requires i <= |remote|
    requires Elems(local) <= target.Keys
    requires Elems(remote) <= p.links.Keys && Elems(remote) <= p.txns.Keys
    ensures var r := RelinkKept(remote, local, target, i, p);
      r.Ok? ==>
        && r.value.links.Keys == p.links.Keys
        && (forall x :: x in p.links ==>
              r.value.links[x] == if x in remote[i..] && x in local then target[x] else p.links[x])
    decreases |remote| - i
  {
    if i < |remote| {
      assert remote[i..] == [remote[i]] + remote[i + 1..];
      var rev := remote[i];
      if rev !in local || target[rev] == p.links[rev] {
        RelinkKeptLinks(remote, local, target, i + 1, p);
      } else if Retarget(p, rev, target[rev]).Ok? {
        RelinkKeptLinks(remote, local, target, i + 1, Retarget(p, rev, target[rev]).value);
      }
    }
  }

  /** The third loop records nothing for the revisions it leaves alone. */
  lemma {:induction false} RelinkKeptTxns(remote: seq<RevId>, local: seq<RevId>, target: LList, i: nat, p: Plan)
    requires i <= |remote|
    requires Elems(local) <= target.Keys
    requires Elems(remote) <= p.links.Keys && Elems(remote) <= p.txns.Keys
    ensures var r := RelinkKept(remote, local, target, i, p);
      r.Ok? ==> forall x :: x in p.txns && (x !in remote[i..] || x !in local) ==> r.value.txns[x] == p.txns[x]
    decreases |remote| - i
  {
    if i < |remote| {
      assert remote[i..] == [remote[i]] + remote[i + 1..];
      var rev := remote[i];
      if rev !in local || target[rev] == p.links[rev] {
        RelinkKeptTxns(remote, local, target, i + 1, p);
      } else if Retarget(p, rev, target[rev]).Ok? {
        RelinkKeptTxns(remote, local, target, i + 1, Retarget(p, rev, target[rev]).value);
      }
    }
  }

  /** The third loop keeps the lists explaining the map. */
  lemma {:induction false} RelinkKeptTracks(base: LList, remote: seq<RevId>, local: seq<RevId>, target: LList, i: nat, p: Plan)
    requires i <= |remote|
    requires Elems(local) <= target.Keys
    requires Elems(remote) <= p.links.Keys && Elems(remote) <= p.txns.Keys
    ensures var r := RelinkKept(remote, local, target, i, p);
      r.Ok? && Tracks(base, p) ==> Tracks(base, r.value)
    decreases |remote| - i
  {
    if i < |remote| {
      var rev := remote[i];
      if rev !in local || target[rev] == p.links[rev] {
        RelinkKeptTracks(base, remote, local, target, i + 1, p);
      } else if Retarget(p, rev, target[rev]).Ok? {
        if Tracks(base, p) {
          RetargetTracks(base, p, rev, target[rev]);
        }
        RelinkKeptTracks(base, remote, local, target, i + 1, Retarget(p, rev, target[rev]).value);
      }
    }
  }

  /** The remote revisions from position `i` on that are missing locally. */
  function RemovedFrom(remote: seq<RevId>, local: seq<RevId>, i: nat): set<RevId>
    requires i <= |remote|
  {
    set x | x in remote[i..] && x !in local
  }

  lemma RemovedFromStep(remote: seq<RevId>, local: seq<RevId>, i: nat)
    requires i < |remote|
    ensures remote[i] in local ==> RemovedFrom(remote, local, i) == RemovedFrom(remote, local, i + 1)
    ensures remote[i] !in local ==> RemovedFrom(remote, local, i) == {remote[i]} + RemovedFrom(remote, local, i + 1)
  {
  }

  /** The last loop fails with a `KeyError` exactly on a removed revision no
      longer in the map, and succeeds only when every removed revision is
      still there. */
  lemma {:induction false} AbandonRemovedKeys(remote: seq<RevId>, local: seq<RevId>, i: nat, p: Plan)
    requires i <= |remote|
    requires Elems(remote) <= p.txns.Keys
    ensures var r := AbandonRemoved(remote, local, i, p);
      && (r.Err? && r.error.KeyLookup? ==> r.error.key in RemovedFrom(remote, local, i))
      && (r.Ok? ==> RemovedFrom(remote, local, i) <= p.links.Keys)
    decreases |remote| - i
  {
    if i < |remote| {
      RemovedFromStep(remote, local, i);
      var rev := remote[i];
      if rev in local {
        AbandonRemovedKeys(remote, local, i + 1, p);
      } else if rev in p.links && Checked(Drop(p, rev)).Ok? {
        AbandonRemovedKeys(remote, local, i + 1, Drop(p, rev));
      }
    }
  }

  /** A successful last loop saw no removed revision twice: the second
      `abandon` would have found it gone. */
  lemma {:induction false} AbandonRemovedOnce(remote: seq<RevId>, local: seq<RevId>, i: nat, p: Plan)
    requires i <= |remote|
    requires Elems(remote) <= p.txns.Keys
    ensures var r := AbandonRemoved(remote, local, i, p);
      r.Ok? ==> forall j, k :: i <= j < k < |remote| && remote[j] !in local ==> remote[j] != remote[k]
    decreases |remote| - i
  {
    if i < |remote| {
      var rev := remote[i];
      if rev in local {
        AbandonRemovedOnce(remote, local, i + 1, p);
      } else if rev in p.links && Checked(Drop(p, rev)).Ok? {
        var q := Drop(p, rev);
        AbandonRemovedOnce(remote, local, i + 1, q);
        if AbandonRemoved(remote, local, i + 1, q).Ok? {
          AbandonRemovedKeys(remote, local, i + 1, q);
          forall k | i < k < |remote| ensures remote[k] != rev {
            if remote[k] !in local {
              assert remote[k] in remote[i + 1..];
              assert remote[k] in RemovedFrom(remote, local, i + 1);
            }
          }
        }
      }
    }
  }

  /** The last loop: each remote revision missing locally leaves the map,
      and every other child is untouched. */
  lemma {:induction false} AbandonRemovedLinks(remote: seq<RevId>, local: seq<RevId>, i: nat, p: Plan)
    requires i <= |remote|
    requires Elems(remote) <= p.txns.Keys
    ensures var r := AbandonRemoved(remote, local, i, p);
      r.Ok? ==> r.value.links == p.links - RemovedFrom(remote, local, i)
    decreases |remote| - i
  {
    if i < |remote| {
      RemovedFromStep(remote, local, i);
      var rev := remote[i];
      if rev in local {
        AbandonRemovedLinks(remote, local, i + 1, p);
      } else if rev in p.links {
        AbandonRemovedLinks(remote, local, i + 1, Drop(p, rev));
      }
    }
  }

  /** The last loop appends `abandon` to the list of each remote revision
      missing locally. */
  lemma {:induction false} AbandonRemovedLists(remote: seq<RevId>, local: seq<RevId>, i: nat, p: Plan)
    requires i <= |remote|
    requires Elems(remote) <= p.txns.Keys
    ensures var r := AbandonRemoved(remote, local, i, p);
      r.Ok? ==> forall x :: x in RemovedFrom(remote, local, i) ==> r.value.txns[x] == p.txns[x] + [Abandon]
    decreases |remote| - i
  {
    if i < |remote| {
      RemovedFromStep(remote, local, i);
      var rev := remote[i];
      if rev in local {
        AbandonRemovedLists(remote, local, i + 1, p);
      } else if rev in p.links {
        var q := Drop(p, rev);
        if Checked(q).Ok? && AbandonRemoved(remote, local, i + 1, q).Ok? {
          AbandonRemovedLists(remote, local, i + 1, q);
          AbandonRemovedKeys(remote, local, i + 1, q);
        }
      }
    }
  }

  /** The last loop keeps the lists explaining the map. */
  lemma {:induction false} AbandonRemovedTracks(base: LList, remote: seq<RevId>, local: seq<RevId>, i: nat, p: Plan)
    requires i <= |remote|
    requires Elems(remote) <= p.txns.Keys
    ensures var r := AbandonRemoved(remote, local, i, p);
      r.Ok? && Tracks(base, p) ==> Tracks(base, r.value)
    decreases |remote| - i
  {
    if i < |remote| {
      var rev := remote[i];
      if rev in local {
        AbandonRemovedTracks(base, remote, local, i + 1, p);
      } else if rev in p.links {
        var q := Drop(p, rev);
        if Tracks(base, p) {
          DropTracks(base, p, rev);
        }
        AbandonRemovedTracks(base, remote, local, i + 1, q);
      }
    }
  }

  /** The four loops, from the start: the lists explain the edited map
      relative to the remote stack. */
  lemma PlanEditsTracks(remote: seq<RevId>, local: seq<RevId>)
    ensures PlanEdits(remote, local).Ok? ==> Tracks(ToLList(remote), PlanEdits(remote, local).value)
  {
    var base := ToLList(remote);
    var target := ToLList(local);
    var p0 := StartPlan(remote, local);
    StartTracks(remote, local);
    var r1 := DetachRemoved(remote, local, 0, p0);
    DetachRemovedTracks(base, remote, local, 0, p0);
    if r1.Ok? {
      var r2 := LinkAdded(remote, local, target, 0, r1.value);
      LinkAddedTracks(base, remote, local, target, 0, r1.value);
      if r2.Ok? {
        var r3 := RelinkKept(remote, local, target, 0, r2.value);
        RelinkKeptTracks(base, remote, local, target, 0, r2.value);
        if r3.Ok? {
          assert remote[0..] == remote;
          AbandonRemovedTracks(base, remote, local, 0, r3.value);
        }
      }
    }
  }

  /** Whenever the four loops finish, the edited remote map is the local
      stack's child map, whatever the stacks: kept and added revisions carry
      their local child and removed ones are deleted. */
  lemma PlanEditsIsLocal(remote: seq<RevId>, local: seq<RevId>)
    ensures PlanEdits(remote, local).Ok? ==> PlanEdits(remote, local).value.links == ToLList(local)
  {
    var target := ToLList(local);
    var p0 := StartPlan(remote, local);
    var r1 := DetachRemoved(remote, local, 0, p0);
    if r1.Ok? {
      var p1 := r1.value;
      var r2 := LinkAdded(remote, local, target, 0, p1);
      LinkAddedKeys(remote, local, target, 0, p1);
      LinkAddedLinks(remote, local, target, 0, p1);
      if r2.Ok? {
        var p2 := r2.value;
        var r3 := RelinkKept(remote, local, target, 0, p2);
        RelinkKeptLinks(remote, local, target, 0, p2);
        if r3.Ok? {
          var p3 := r3.value;
          assert remote[0..] == remote && local[0..] == local;
          AbandonRemovedLinks(remote, local, 0, p3);
          var r4 := AbandonRemoved(remote, local, 0, p3);
          if r4.Ok? {
            EditedKeys(remote, local, p1.links, p2.links, p3.links, r4.value.links);
            EditedValues(remote, local, target, p1.links, p2.links, p3.links, r4.value.links);
            assert r4.value.links == target;
          }
        }
      }
    }
  }

  lemma EditedKeys(remote: seq<RevId>, local: seq<RevId>, m1: LList, m2: LList, m3: LList, m4: LList)
    requires m1.Keys == Elems(remote)
    requires forall x :: x in m2 <==> x in m1 || x in AddedFrom(remote, local, 0)
    requires m3.Keys == m2.Keys
    requires m4 == m3 - RemovedFrom(remote, local, 0)
    ensures m4.Keys == Elems(local)
  {
    assert remote[0..] == remote && local[0..] == local;
  }

  lemma EditedValues(remote: seq<RevId>, local: seq<RevId>, target: LList, m1: LList, m2: LList, m3: LList, m4: LList)
    requires Elems(local) <= target.Keys
    requires forall x :: x in m2 ==>
               m2[x] == if x in AddedFrom(remote, local, 0) then target[x] else Get(m1, x)
    requires m3.Keys == m2.Keys
    requires forall x :: x in m2 ==> m3[x] == if x in remote[0..] && x in local then target[x] else m2[x]
    requires m4 == m3 - RemovedFrom(remote, local, 0)
    ensures forall x :: x in m4 && x in local ==> m4[x] == target[x]
  {
    assert remote[0..] == remote && local[0..] == local;
  }

  /** The list collected for each revision is the one recorded for it. */
  lemma {:induction false} CollectListOf(order: seq<RevId>, txns: map<RevId, seq<Txn>>, y: RevId)
    ensures ListOf(Collect(order, txns), y) == if y in order && y in txns then txns[y] else []
  {
    if order != [] {
      var x := order[0];
      var rest := Collect(order[1..], txns);
      CollectListOf(order[1..], txns, y);
      if x in txns && txns[x] != [] {
        var edits := [(x, txns[x])] + rest;
        assert edits[1..] == rest;
      }
    }
  }

  /** The result is the recorded lists collected in the OrderedDict's order.
      The case split in the body only keeps the solver's work small. */
  lemma StackTransactionsCollected(remote: seq<RevId>, local: seq<RevId>)
    ensures var r := StackTransactions(remote, local);
      r.Ok? ==> (PlanEdits(remote, local).Ok? &&
        r.value == Collect(Unique(remote + local), PlanEdits(remote, local).value.txns))
  {
    var planned := PlanEdits(remote, local);
    if planned.Ok? {
      var walked := WalkLList(planned.value.links, false);
      var expected := WalkLList(ToLList(local), false);
      if walked.Ok? && expected.Ok? {
        assert StackTransactions(remote, local).Ok? ==>
          StackTransactions(remote, local).value == Collect(Unique(remote + local), planned.value.txns);
      }
    }
  }

  /** Applying the returned edits to the remote stack gives, revision by
      revision, the child map `stack_transactions` checked against the local
      stack. */
  lemma StackTransactionsApply(remote: seq<RevId>, local: seq<RevId>)
    ensures var r := StackTransactions(remote, local);
      r.Ok? ==> (PlanEdits(remote, local).Ok? &&
        forall y :: Get(ApplyEdits(ToLList(remote), r.value), y) == Get(PlanEdits(remote, local).value.links, y))
  {
    var r := StackTransactions(remote, local);
    StackTransactionsCollected(remote, local);
    if r.Ok? {
      var planned := PlanEdits(remote, local).value;
      PlanEditsTracks(remote, local);
      var order := Unique(remote + local);
      var edits := Collect(order, planned.txns);
      forall y ensures Get(ApplyEdits(ToLList(remote), edits), y) == Get(planned.links, y) {
        ApplyEditsGet(ToLList(remote), edits, y);
        CollectListOf(order, planned.txns, y);
        assert y in order <==> y in remote + local;
      }
    }
  }

  /** The edits come in the order their revisions first appear in remote
      followed by local, the order of the OrderedDict. */
  lemma StackTransactionsOrder(remote: seq<RevId>, local: seq<RevId>)
    ensures var r := StackTransactions(remote, local);
      r.Ok? ==> forall k, l :: 0 <= k < l < |r.value| ==>
        IndexOf(remote + local, r.value[k].0) < IndexOf(remote + local, r.value[l].0)
  {
    var r := StackTransactions(remote, local);
    StackTransactionsCollected(remote, local);
    if r.Ok? {
      var s := remote + local;
      var order := Unique(s);
      var edits := Collect(order, PlanEdits(remote, local).value.txns);
      UniqueFirstOccurrences(s);
      forall k, l | 0 <= k < l < |edits|
        ensures IndexOf(s, edits[k].0) < IndexOf(s, edits[l].0)
      {
        var a, b := IndexOf(order, edits[k].0), IndexOf(order, edits[l].0);
        assert order[a] == edits[k].0 && order[b] == edits[l].0;
      }
    }
  }

  /** The list sent for each revision is the one the loops recorded for it,
      and revisions of neither stack receive nothing. */
  lemma StackTransactionsLists(remote: seq<RevId>, local: seq<RevId>)
    ensures var r := StackTransactions(remote, local);
      r.Ok? ==> (PlanEdits(remote, local).Ok? &&
        forall y :: ListOf(r.value, y) == if y in remote + local then PlanEdits(remote, local).value.txns[y] else [])
  {
    var r := StackTransactions(remote, local);
    StackTransactionsCollected(remote, local);
    if r.Ok? {
      var txns := PlanEdits(remote, local).value.txns;
      forall y ensures ListOf(r.value, y) == if y in remote + local then txns[y] else [] {
        CollectListOf(Unique(remote + local), txns, y);
      }
    }
  }

  /** `stack_transactions` succeeds exactly when the four loops do and the
      local stack walks with a single head: once the loops finish, the
      final assertion compares two walks of the same map. */
  lemma StackTransactionsOkIff(remote: seq<RevId>, local: seq<RevId>)
    ensures StackTransactions(remote, local).Ok? <==>
              PlanEdits(remote, local).Ok? && WalkLList(ToLList(local), false).Ok?
  {
    PlanEditsIsLocal(remote, local);
  }

  /** For every successful call, applying the returned edits to the remote
      stack gives, revision by revision, the local stack's child map. */
  lemma StackTransactionsEditsReachLocal(remote: seq<RevId>, local: seq<RevId>)
    ensures var r := StackTransactions(remote, local);
      r.Ok? ==> forall y :: Get(ApplyEdits(ToLList(remote), r.value), y) == Get(ToLList(local), y)
  {
    StackTransactionsApply(remote, local);
    PlanEditsIsLocal(remote, local);
  }
}

/** Why stack_transactions never fails on two stacks without repeated
    revisions, and why the edited remote map ends up equal to the local one.

    During the loops every revision is in one of two modes. A revision in
    `lm` already points at its local child; any other revision still points
    at its remote child or at nothing. Ranking local-mode revisions above all
    others, by local position, and the others by remote position, makes every
    child rank below its parent, so each intermediate walk succeeds. */
module TransactionsProof {
  import opened Wrappers
  import opened Revisions
  import opened LinkedList
  import opened Transactions
  import opened EditScript
  import TransactionsEffect

  ghost function Rank(lm: set<RevId>, remote: seq<RevId>, local: seq<RevId>): RevId -> nat {
    x => if x in lm then |remote| + 1 + |local| - IndexOf(local, x)
         else if x in remote then |remote| - IndexOf(remote, x)
         else 0
  }

  /** The loop invariant: keys are remote or local-mode; local-mode revisions
      carry their local child; the others carry nothing or their remote child,
      which is not local-mode. */
  ghost predicate Inv(links: LList, lm: set<RevId>, remote: seq<RevId>, local: seq<RevId>) {
    && (forall x :: x in links ==> x in remote || x in lm)
    && (forall x :: x in lm ==> x in local && x in links && links[x] == ToLList(local)[x])
    && (forall x :: x in links && x !in lm ==>
          links[x] == None || (x in remote && links[x] == ToLList(remote)[x] && links[x].value !in lm))
  }

  /** Revisions missing locally have no child. */
  ghost predicate RemovedDetached(links: LList, local: seq<RevId>) {
    forall x :: x in links && x !in local ==> links[x] == None
  }

  lemma InvRanked(links: LList, lm: set<RevId>, remote: seq<RevId>, local: seq<RevId>)
    requires Distinct(remote) && Distinct(local)
    requires Inv(links, lm, remote, local)
    ensures Ranked(links, Rank(lm, remote, local))
  {
    forall k | k in links && links[k].Some?
      ensures Rank(lm, remote, local)(links[k].value) < Rank(lm, remote, local)(k)
    {
      if k in lm {
        LocalEdgeDescends(lm, remote, local, k);
      } else {
        RemoteEdgeDescends(lm, remote, local, k, links[k].value);
      }
    }
  }

  /** A local-mode revision outranks its local child. */
  lemma LocalEdgeDescends(lm: set<RevId>, remote: seq<RevId>, local: seq<RevId>, k: RevId)
    requires Distinct(local) && k in lm && k in local && ToLList(local)[k].Some?
    ensures Rank(lm, remote, local)(ToLList(local)[k].value) < Rank(lm, remote, local)(k)
  {
    var i := IndexOf(local, k);
    ToLListLinksNext(local, i);
    var c := local[i + 1];
    if c in lm {
      assert IndexOf(local, c) == i + 1;
    }
  }

  /** A revision outranks the remote child it still points at, unless that child is local-mode. */
  lemma RemoteEdgeDescends(lm: set<RevId>, remote: seq<RevId>, local: seq<RevId>, k: RevId, c: RevId)
    requires Distinct(remote) && k !in lm && c !in lm && k in remote && ToLList(remote)[k] == Some(c)
    ensures Rank(lm, remote, local)(c) < Rank(lm, remote, local)(k)
  {
    var j := IndexOf(remote, k);
    ToLListLinksNext(remote, j);
    assert IndexOf(remote, c) == j + 1;
  }

  /** Every walk made while the invariant holds succeeds. */
  lemma InvWalks(links: LList, lm: set<RevId>, remote: seq<RevId>, local: seq<RevId>)
    requires Distinct(remote) && Distinct(local)
    requires Inv(links, lm, remote, local) && links.Keys != {}
    ensures WalkLList(links, true).Ok?
  {
    InvRanked(links, lm, remote, local);
    RankedWalks(links, Rank(lm, remote, local));
  }

  /** The state after the first loop. */
  ghost predicate Detached(r: Result<Plan, StackError>, remote: seq<RevId>, local: seq<RevId>) {
    && r.Ok?
    && r.value.links.Keys == Elems(remote)
    && Inv(r.value.links, {}, remote, local)
    && RemovedDetached(r.value.links, local)
  }

  /** First loop: every remote revision missing locally is detached, and no walk fails. */
  lemma {:induction false} DetachSucceeds(remote: seq<RevId>, local: seq<RevId>, i: nat, p: Plan)
    requires Distinct(remote) && Distinct(local) && i <= |remote|
    requires p.links.Keys == Elems(remote) && Elems(remote) <= p.txns.Keys
    requires Inv(p.links, {}, remote, local)
    requires forall j :: 0 <= j < i && remote[j] !in local ==> p.links[remote[j]] == None
    ensures Detached(DetachRemoved(remote, local, i, p), remote, local)
    decreases |remote| - i, 1
  {
    if i == |remote| {
      DetachedAll(remote, local, p.links);
    } else if remote[i] in local {
      DetachSucceeds(remote, local, i + 1, p);
    } else {
      DetachOne(remote, local, i, p);
    }
  }

  lemma {:induction false} DetachOne(remote: seq<RevId>, local: seq<RevId>, i: nat, p: Plan)
    requires Distinct(remote) && Distinct(local) && i < |remote| && remote[i] !in local
    requires p.links.Keys == Elems(remote) && Elems(remote) <= p.txns.Keys
    requires Inv(p.links, {}, remote, local)
    requires forall j :: 0 <= j < i && remote[j] !in local ==> p.links[remote[j]] == None
    ensures Detached(DetachRemoved(remote, local, i, p), remote, local)
    decreases |remote| - i, 0
  {
    var q := Detach(p, remote[i]);
    DetachStep(remote, local, p.links, remote[i]);
    assert Checked(q) == Ok(q);
    DetachedPrefix(remote, local, i, p.links);
    DetachSucceeds(remote, local, i + 1, q);
  }

  lemma DetachStep(remote: seq<RevId>, local: seq<RevId>, links: LList, rev: RevId)
    requires Distinct(remote) && Distinct(local)
    requires Inv(links, {}, remote, local) && rev in links
    ensures Inv(links[rev := None], {}, remote, local)
    ensures WalkLList(links[rev := None], true).Ok?
  {
    InvWalks(links[rev := None], {}, remote, local);
  }

  lemma DetachedAll(remote: seq<RevId>, local: seq<RevId>, links: LList)
    requires links.Keys == Elems(remote)
    requires forall j :: 0 <= j < |remote| && remote[j] !in local ==> links[remote[j]] == None
    ensures RemovedDetached(links, local)
  {
    forall x | x in links && x !in local ensures links[x] == None {
      var j := IndexOf(remote, x);
    }
  }

  lemma DetachedPrefix(remote: seq<RevId>, local: seq<RevId>, i: nat, links: LList)
    requires Distinct(remote) && i < |remote| && Elems(remote) <= links.Keys
    requires forall j :: 0 <= j < i && remote[j] !in local ==> links[remote[j]] == None
    ensures forall j :: 0 <= j < i + 1 && remote[j] !in local ==> links[remote[i] := None][remote[j]] == None
  {
  }

  /** Local revisions missing remotely among the first `i` local ones. */
  function AddedUpTo(remote: seq<RevId>, local: seq<RevId>, i: nat): set<RevId>
    requires i <= |local|
  {
    set x | x in local[..i] && x !in remote
  }

  lemma AddedStep(remote: seq<RevId>, local: seq<RevId>, i: nat)
    requires i < |local|
    ensures AddedUpTo(remote, local, i + 1) ==
              AddedUpTo(remote, local, i) + (if local[i] in remote then {} else {local[i]})
  {
    assert local[..i + 1] == local[..i] + [local[i]];
  }

  /** The state after the second loop. */
  ghost predicate Added(r: Result<Plan, StackError>, remote: seq<RevId>, local: seq<RevId>) {
    && r.Ok?
    && r.value.links.Keys == Elems(remote) + AddedUpTo(remote, local, |local|)
    && Inv(r.value.links, AddedUpTo(remote, local, |local|), remote, local)
    && RemovedDetached(r.value.links, local)
  }

  /** Second loop: every local revision missing remotely gets its local child. */
  lemma {:induction false} LinkSucceeds(remote: seq<RevId>, local: seq<RevId>, i: nat, p: Plan)
    requires Distinct(remote) && Distinct(local) && i <= |local|
    requires p.links.Keys == Elems(remote) + AddedUpTo(remote, local, i) && Elems(local) <= p.txns.Keys
    requires Inv(p.links, AddedUpTo(remote, local, i), remote, local)
    requires RemovedDetached(p.links, local)
    ensures Added(LinkAdded(remote, local, ToLList(local), i, p), remote, local)
    decreases |local| - i, 1
  {
    if i < |local| {
      AddedStep(remote, local, i);
      if local[i] in remote {
        LinkSucceeds(remote, local, i + 1, p);
      } else {
        LinkOne(remote, local, i, p);
      }
    }
  }

  lemma {:induction false} LinkOne(remote: seq<RevId>, local: seq<RevId>, i: nat, p: Plan)
    requires Distinct(remote) && Distinct(local) && i < |local| && local[i] !in remote
    requires p.links.Keys == Elems(remote) + AddedUpTo(remote, local, i) && Elems(local) <= p.txns.Keys
    requires Inv(p.links, AddedUpTo(remote, local, i), remote, local)
    requires RemovedDetached(p.links, local)
    ensures Added(LinkAdded(remote, local, ToLList(local), i, p), remote, local)
    decreases |local| - i, 0
  {
    var rev := local[i];
    var links := p.links[rev := ToLList(local)[rev]];
    AddedStep(remote, local, i);
    LinkStep(remote, local, p.links, AddedUpTo(remote, local, i), rev);
    InvWalks(links, AddedUpTo(remote, local, i + 1), remote, local);
    var q := Retarget(p, rev, ToLList(local)[rev]).value;
    assert q.links == links && q.txns.Keys == p.txns.Keys;
    assert q.links.Keys == Elems(remote) + AddedUpTo(remote, local, i + 1);
    LinkSucceeds(remote, local, i + 1, q);
  }

  /** Pointing a new revision at its local child keeps the invariant. */
  lemma LinkStep(remote: seq<RevId>, local: seq<RevId>, links: LList, lm: set<RevId>, rev: RevId)
    requires Distinct(remote) && Distinct(local)
    requires rev in local && rev !in remote && rev !in lm
    requires Inv(links, lm, remote, local)
    ensures Inv(links[rev := ToLList(local)[rev]], lm + {rev}, remote, local)
  {
    var links' := links[rev := ToLList(local)[rev]];
    var lm' := lm + {rev};
    forall x | x in links && x !in lm && links[x].Some?
      ensures links[x].value in remote
    {
      ToLListLinksNext(remote, IndexOf(remote, x));
    }
    InvIntro(remote, local, links', lm');
  }

  lemma InvIntro(remote: seq<RevId>, local: seq<RevId>, links: LList, lm: set<RevId>)
    requires forall x :: x in links ==> x in remote || x in lm
    requires forall x :: x in lm ==> x in local && x in links && links[x] == ToLList(local)[x]
    requires forall x :: x in links && x !in lm ==>
               links[x] == None || (x in remote && links[x] == ToLList(remote)[x] && links[x].value !in lm)
    ensures Inv(links, lm, remote, local)
  {
  }

  /** Revisions in both stacks among the first `i` remote ones. */
  function KeptUpTo(remote: seq<RevId>, local: seq<RevId>, i: nat): set<RevId>
    requires i <= |remote|
  {
    set x | x in remote[..i] && x in local
  }

  lemma KeptStep(remote: seq<RevId>, local: seq<RevId>, i: nat)
    requires i < |remote|
    ensures KeptUpTo(remote, local, i + 1) ==
              KeptUpTo(remote, local, i) + (if remote[i] in local then {remote[i]} else {})
  {
    assert remote[..i + 1] == remote[..i] + [remote[i]];
  }

  /** After the third loop every local revision is local-mode. */
  lemma AllLocal(remote: seq<RevId>, local: seq<RevId>)
    ensures AddedUpTo(remote, local, |local|) + KeptUpTo(remote, local, |remote|) == Elems(local)
  {
    assert local[..|local|] == local;
    assert remote[..|remote|] == remote;
  }

  /** The state after the third loop. */
  ghost predicate Relinked(r: Result<Plan, StackError>, remote: seq<RevId>, local: seq<RevId>) {
    && r.Ok?
    && r.value.links.Keys == Elems(remote) + AddedUpTo(remote, local, |local|)
    && Inv(r.value.links, Elems(local), remote, local)
    && RemovedDetached(r.value.links, local)
  }

  /** Third loop: every revision in both stacks ends up with its local child. */
  lemma {:induction false} RelinkSucceeds(remote: seq<RevId>, local: seq<RevId>, i: nat, p: Plan)
    requires Distinct(remote) && Distinct(local) && i <= |remote|
    requires p.links.Keys == Elems(remote) + AddedUpTo(remote, local, |local|) && Elems(remote) <= p.txns.Keys
    requires Inv(p.links, AddedUpTo(remote, local, |local|) + KeptUpTo(remote, local, i), remote, local)
    requires RemovedDetached(p.links, local)
    ensures Relinked(RelinkKept(remote, local, ToLList(local), i, p), remote, local)
    decreases |remote| - i, 1
  {
    if i == |remote| {
      AllLocal(remote, local);
    } else {
      KeptStep(remote, local, i);
      if remote[i] !in local {
        RelinkSucceeds(remote, local, i + 1, p);
      } else {
        RelinkOne(remote, local, i, p);
      }
    }
  }

  lemma {:induction false} RelinkOne(remote: seq<RevId>, local: seq<RevId>, i: nat, p: Plan)
    requires Distinct(remote) && Distinct(local) && i < |remote| && remote[i] in local
    requires p.links.Keys == Elems(remote) + AddedUpTo(remote, local, |local|) && Elems(remote) <= p.txns.Keys
    requires Inv(p.links, AddedUpTo(remote, local, |local|) + KeptUpTo(remote, local, i), remote, local)
    requires RemovedDetached(p.links, local)
    ensures Relinked(RelinkKept(remote, local, ToLList(local), i, p), remote, local)
    decreases |remote| - i, 0
  {
    var rev := remote[i];
    var lm := AddedUpTo(remote, local, |local|) + KeptUpTo(remote, local, i);
    var links := p.links[rev := ToLList(local)[rev]];
    KeptStep(remote, local, i);
    RelinkStep(remote, local, p.links, lm, i);
    if ToLList(local)[rev] == p.links[rev] {
      assert links == p.links;
      RelinkSucceeds(remote, local, i + 1, p);
    } else {
      InvWalks(links, lm + {rev}, remote, local);
      var q := Retarget(p, rev, ToLList(local)[rev]).value;
      RelinkSucceeds(remote, local, i + 1, q);
    }
  }

  /** Pointing a revision of both stacks at its local child keeps the
      invariant: its remote parent, if still remote-mode, was detached. */
  lemma RelinkStep(remote: seq<RevId>, local: seq<RevId>, links: LList, lm: set<RevId>, i: nat)
    requires Distinct(remote) && Distinct(local) && i < |remote| && remote[i] in local
    requires forall j :: 0 <= j < i && remote[j] in local ==> remote[j] in lm
    requires Inv(links, lm, remote, local) && RemovedDetached(links, local)
    ensures Inv(links[remote[i] := ToLList(local)[remote[i]]], lm + {remote[i]}, remote, local)
    ensures RemovedDetached(links[remote[i] := ToLList(local)[remote[i]]], local)
  {
    var rev := remote[i];
    var links' := links[rev := ToLList(local)[rev]];
    forall x | x in links && x !in lm && links[x].Some?
      ensures links[x].value != rev
    {
      assert x in remote && links[x] == ToLList(remote)[x] && x in local;
      NotRelinkedParent(remote, local, lm, i, x);
    }
    InvIntro(remote, local, links', lm + {rev});
  }

  /** A remote-mode revision never points at the revision being relinked:
      the remote parent of `remote[i]` is local-mode if kept locally. */
  lemma NotRelinkedParent(remote: seq<RevId>, local: seq<RevId>, lm: set<RevId>, i: nat, x: RevId)
    requires Distinct(remote) && i < |remote|
    requires forall j :: 0 <= j < i && remote[j] in local ==> remote[j] in lm
    requires x in remote && x in local && x !in lm
    ensures ToLList(remote)[x] != Some(remote[i])
  {
    var j := IndexOf(remote, x);
    ToLListLinksNext(remote, j);
    assert j + 1 < |remote| && remote[j + 1] == remote[i] ==> j + 1 == i;
  }

  /** Revisions missing locally among the remote ones from index `i` on. */
  function Gone(remote: seq<RevId>, local: seq<RevId>, i: nat): set<RevId>
    requires i <= |remote|
  {
    set x | x in remote[i..] && x !in local
  }

  lemma GoneStep(remote: seq<RevId>, local: seq<RevId>, i: nat)
    requires Distinct(remote) && i < |remote|
    ensures Gone(remote, local, i) ==
              Gone(remote, local, i + 1) + (if remote[i] in local then {} else {remote[i]})
    ensures remote[i] !in Gone(remote, local, i + 1)
  {
    assert remote[i..] == [remote[i]] + remote[i + 1..];
  }

  /** The state after the last loop: exactly the local stack's child map. */
  ghost predicate Abandoned(r: Result<Plan, StackError>, local: seq<RevId>) {
    r.Ok? && r.value.links == ToLList(local)
  }

  /** Last loop: the revisions missing locally are deleted, leaving the
      local stack. */
  lemma {:induction false} AbandonSucceeds(remote: seq<RevId>, local: seq<RevId>, i: nat, p: Plan)
    requires Distinct(remote) && Distinct(local) && |local| > 0 && i <= |remote|
    requires p.links.Keys == Elems(local) + Gone(remote, local, i) && Elems(remote) <= p.txns.Keys
    requires Inv(p.links, Elems(local), remote, local)
    ensures Abandoned(AbandonRemoved(remote, local, i, p), local)
    decreases |remote| - i, 1
  {
    if i == |remote| {
      assert Gone(remote, local, i) == {};
      LocalLinks(local, p.links, remote);
    } else {
      GoneStep(remote, local, i);
      if remote[i] in local {
        AbandonSucceeds(remote, local, i + 1, p);
      } else {
        AbandonOne(remote, local, i, p);
      }
    }
  }

  lemma {:induction false} AbandonOne(remote: seq<RevId>, local: seq<RevId>, i: nat, p: Plan)
    requires Distinct(remote) && Distinct(local) && |local| > 0 && i < |remote| && remote[i] !in local
    requires p.links.Keys == Elems(local) + Gone(remote, local, i) && Elems(remote) <= p.txns.Keys
    requires Inv(p.links, Elems(local), remote, local)
    ensures Abandoned(AbandonRemoved(remote, local, i, p), local)
    decreases |remote| - i, 0
  {
    var rev := remote[i];
    GoneStep(remote, local, i);
    var q := Drop(p, rev);
    DropStep(remote, local, p.links, rev);
    InvWalks(q.links, Elems(local), remote, local);
    AbandonSucceeds(remote, local, i + 1, q);
  }

  /** Deleting a revision missing locally keeps the invariant and the local
      revisions. */
  lemma DropStep(remote: seq<RevId>, local: seq<RevId>, links: LList, rev: RevId)
    requires |local| > 0 && rev !in local
    requires Elems(local) <= links.Keys && Inv(links, Elems(local), remote, local)
    ensures Inv(links - {rev}, Elems(local), remote, local)
    ensures (links - {rev}).Keys != {}
  {
    InvIntro(remote, local, links - {rev}, Elems(local));
    assert local[0] in links - {rev};
  }

  /** Once only local-mode revisions remain, the map is the local one. */
  lemma LocalLinks(local: seq<RevId>, links: LList, remote: seq<RevId>)
    requires links.Keys == Elems(local) && Inv(links, Elems(local), remote, local)
    ensures links == ToLList(local)
  {
  }

  /** The invariant holds of the remote stack's own child map. */
  lemma StartInv(remote: seq<RevId>, local: seq<RevId>)
    ensures Inv(ToLList(remote), {}, remote, local)
  {
    InvIntro(remote, local, ToLList(remote), {});
  }

  /** Before the last loop the map holds the local revisions and the remote
      revisions missing locally. */
  lemma BeforeAbandon(remote: seq<RevId>, local: seq<RevId>)
    ensures Elems(remote) + AddedUpTo(remote, local, |local|) == Elems(local) + Gone(remote, local, 0)
  {
    assert local[..|local|] == local;
    assert remote[0..] == remote;
  }

  lemma FirstLoop(remote: seq<RevId>, local: seq<RevId>)
    requires Distinct(remote) && Distinct(local)
    ensures Detached(DetachRemoved(remote, local, 0, StartPlan(remote, local)), remote, local)
    ensures DetachRemoved(remote, local, 0, StartPlan(remote, local)).value.txns.Keys == Elems(remote) + Elems(local)
  {
    assert Elems(remote + local) == Elems(remote) + Elems(local);
    StartInv(remote, local);
    DetachSucceeds(remote, local, 0, StartPlan(remote, local));
  }

  lemma SecondLoop(remote: seq<RevId>, local: seq<RevId>, p: Plan)
    requires Distinct(remote) && Distinct(local)
    requires Detached(Ok(p), remote, local) && Elems(local) <= p.txns.Keys
    ensures Added(LinkAdded(remote, local, ToLList(local), 0, p), remote, local)
  {
    assert local[..0] == [];
    assert AddedUpTo(remote, local, 0) == {};
    LinkSucceeds(remote, local, 0, p);
  }

  lemma ThirdLoop(remote: seq<RevId>, local: seq<RevId>, p: Plan)
    requires Distinct(remote) && Distinct(local)
    requires Added(Ok(p), remote, local) && Elems(remote) <= p.txns.Keys
    ensures Relinked(RelinkKept(remote, local, ToLList(local), 0, p), remote, local)
  {
    assert remote[..0] == [];
    assert KeptUpTo(remote, local, 0) == {};
    RelinkSucceeds(remote, local, 0, p);
  }

  lemma LastLoop(remote: seq<RevId>, local: seq<RevId>, p: Plan)
    requires Distinct(remote) && Distinct(local) && |local| > 0
    requires Relinked(Ok(p), remote, local) && Elems(remote) <= p.txns.Keys
    ensures Abandoned(AbandonRemoved(remote, local, 0, p), local)
  {
    BeforeAbandon(remote, local);
    AbandonSucceeds(remote, local, 0, p);
  }

  /** For two distinct, non-empty stacks the four loops succeed and leave
      exactly the local stack's child map. */
  lemma PlanEditsReachLocal(remote: seq<RevId>, local: seq<RevId>)
    requires Distinct(remote) && Distinct(local) && |local| > 0
    ensures PlanEdits(remote, local).Ok?
    ensures PlanEdits(remote, local).value.links == ToLList(local)
  {
    FirstLoop(remote, local);
    var p1 := DetachRemoved(remote, local, 0, StartPlan(remote, local)).value;
    SecondLoop(remote, local, p1);
    var p2 := LinkAdded(remote, local, ToLList(local), 0, p1).value;
    ThirdLoop(remote, local, p2);
    var p3 := RelinkKept(remote, local, ToLList(local), 0, p2).value;
    LastLoop(remote, local, p3);
  }

  /** stack_transactions never trips its final assertion on two distinct,
      non-empty stacks: the rewritten remote stack walks to the local one. */
  lemma StackTransactionsSucceeds(remote: seq<RevId>, local: seq<RevId>)
    requires Distinct(remote) && Distinct(local) && |local| > 0
    ensures StackTransactions(remote, local).Ok?
  {
    PlanEditsReachLocal(remote, local);
    RoundTrip(local, false);
  }

  /** On two distinct stacks the call succeeds, and its edits turn the
      remote stack into the local one: applied to the remote child map, they
      give every revision its local child and leave a revision missing
      locally without one. */
  lemma StackTransactionsReachLocal(remote: seq<RevId>, local: seq<RevId>)
    requires Distinct(remote) && Distinct(local) && |local| > 0
    ensures StackTransactions(remote, local).Ok?
    ensures forall y :: Get(ApplyEdits(ToLList(remote), StackTransactions(remote, local).value), y) == Get(ToLList(local), y)
  {
    StackTransactionsSucceeds(remote, local);
    PlanEditsReachLocal(remote, local);
    TransactionsEffect.StackTransactionsApply(remote, local);
  }

  lemma {:induction false} DetachIdle(remote: seq<RevId>, local: seq<RevId>, i: nat, p: Plan)
    requires i <= |remote| && Elems(remote) <= p.links.Keys && Elems(remote) <= p.txns.Keys
    requires forall j :: i <= j < |remote| ==> remote[j] in local
    ensures DetachRemoved(remote, local, i, p) == Ok(p)
    decreases |remote| - i
  {
    if i < |remote| {
      DetachIdle(remote, local, i + 1, p);
    }
  }

  lemma {:induction false} LinkIdle(remote: seq<RevId>, local: seq<RevId>, target: LList, i: nat, p: Plan)
    requires i <= |local| && Elems(local) <= target.Keys && Elems(local) <= p.txns.Keys
    requires Elems(local) <= Elems(remote)
    ensures LinkAdded(remote, local, target, i, p) == Ok(p)
    decreases |local| - i
  {
    if i < |local| {
      assert local[i] in Elems(local);
      LinkIdle(remote, local, target, i + 1, p);
    }
  }

  lemma {:induction false} RelinkIdle(remote: seq<RevId>, local: seq<RevId>, target: LList, i: nat, p: Plan)
    requires i <= |remote| && Elems(local) <= target.Keys
    requires Elems(remote) <= p.links.Keys && Elems(remote) <= p.txns.Keys
    requires forall x :: x in remote && x in local ==> target[x] == p.links[x]
    ensures RelinkKept(remote, local, target, i, p) == Ok(p)
    decreases |remote| - i
  {
    if i < |remote| {
      RelinkIdle(remote, local, target, i + 1, p);
    }
  }

  lemma {:induction false} AbandonIdle(remote: seq<RevId>, local: seq<RevId>, i: nat, p: Plan)
    requires i <= |remote| && Elems(remote) <= p.txns.Keys
    requires forall j :: i <= j < |remote| ==> remote[j] in local
    ensures AbandonRemoved(remote, local, i, p) == Ok(p)
    decreases |remote| - i
  {
    if i < |remote| {
      AbandonIdle(remote, local, i + 1, p);
    }
  }

  lemma {:induction false} CollectNothing(order: seq<RevId>, txns: map<RevId, seq<Txn>>)
    requires forall x :: x in txns ==> txns[x] == []
    ensures Collect(order, txns) == []
  {
    if order != [] {
      CollectNothing(order[1..], txns);
    }
  }

  /** An unchanged stack needs no transactions at all. */
  lemma UnchangedStackNeedsNothing(stack: seq<RevId>)
    requires Distinct(stack) && |stack| > 0
    ensures StackTransactions(stack, stack) == Ok([])
  {
    var p0 := StartPlan(stack, stack);
    assert Elems(stack + stack) == Elems(stack);
    DetachIdle(stack, stack, 0, p0);
    LinkIdle(stack, stack, ToLList(stack), 0, p0);
    RelinkIdle(stack, stack, ToLList(stack), 0, p0);
    AbandonIdle(stack, stack, 0, p0);
    assert PlanEdits(stack, stack) == Ok(p0);
    RoundTrip(stack, false);
    CollectNothing(Unique(stack + stack), p0.txns);
  }

  /** Two empty stacks fail like the source: no head is found. */
  lemma EmptyStacksHaveNoHead()
    ensures StackTransactions([], []) == Err(NoHead)
  {
    var p0 := StartPlan([], []);
    assert p0.links == map[];
    assert PlanEdits([], []) == Ok(p0);
  }
}

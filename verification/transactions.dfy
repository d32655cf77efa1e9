/** `stack_transactions` (mozphab/commands/reorganise.py): the edits that turn
    the stack recorded on Phabricator into the local stack. */
module Transactions {
  import opened Wrappers
  import opened Revisions
  import opened LinkedList
  import Text
  import opened EditScript

  /** The loop state: the remote child map as edited so far and the
      transaction lists recorded per revision. */
  datatype Plan = Plan(links: LList, txns: map<RevId, seq<Txn>>)

  function Record(txns: map<RevId, seq<Txn>>, r: RevId, t: Txn): map<RevId, seq<Txn>>
    requires r in txns
  {
    txns[r := txns[r] + [t]]
  }

  /** Whether a transaction list ends with abandoning the revision. */
  predicate EndsWithAbandon(ts: seq<Txn>) {
    |ts| > 0 && ts[|ts| - 1] == Abandon
  }

  /** No transaction list of the plan abandons its revision. */
  predicate NoAbandon(txns: map<RevId, seq<Txn>>) {
    forall x :: x in txns ==> Abandon !in txns[x]
  }

  /** The sequence without repeats, keeping first occurrences: the key order
      of an OrderedDict filled from `s`. */
  function Unique(s: seq<RevId>): (u: seq<RevId>)
    ensures Elems(u) == Elems(s) && Distinct(u)
  {
    if s == [] then []
    else
      var prefix := Unique(s[..|s| - 1]);
      assert Elems(s) == Elems(s[..|s| - 1]) + {s[|s| - 1]} by {
        assert s == s[..|s| - 1] + [s[|s| - 1]];
      }
      if s[|s| - 1] in s[..|s| - 1] then prefix else prefix + [s[|s| - 1]]
  }

  lemma {:induction false} IndexOfSnoc(s: seq<RevId>, y: RevId, x: RevId)
    requires x in s || x == y
    ensures IndexOf(s + [y], x) == if x in s then IndexOf(s, x) else |s|
  {
    if s != [] && s[0] != x {
      assert (s + [y])[1..] == s[1..] + [y];
      IndexOfSnoc(s[1..], y, x);
    }
  }

  /** `Unique` keeps first occurrences: its order is the order in which the
      revisions first appear in `s`. */
  lemma {:induction false} UniqueFirstOccurrences(s: seq<RevId>)
    ensures forall i, j :: 0 <= i < j < |Unique(s)| ==> IndexOf(s, Unique(s)[i]) < IndexOf(s, Unique(s)[j])
  {
    if s != [] {
      var init, last := s[..|s| - 1], s[|s| - 1];
      assert s == init + [last];
      UniqueFirstOccurrences(init);
      var u := Unique(init);
      forall i | 0 <= i < |u| ensures IndexOf(s, u[i]) == IndexOf(init, u[i]) < |init| {
        assert u[i] in Elems(init);
        IndexOfSnoc(init, last, u[i]);
      }
      if last !in init {
        IndexOfSnoc(init, last, last);
      }
    }
  }

  /** The walk after every edit (`walk_llist(remote_list, allow_multiple_heads=True)`):
      only its failure matters. */
  function Checked(p: Plan): (r: Result<Plan, StackError>)
    ensures r.Ok? <==> WalkLList(p.links, true).Ok?
    ensures r.Ok? ==> r.value == p
    ensures r.Err? ==> r.error == WalkLList(p.links, true).error
  {
    match WalkLList(p.links, true)
    case Ok(_) => Ok(p)
    case Err(e) => Err(e)
  }

  /** Points `r` at `child`: `children.set` for a child, `children.remove` of
      the current remote child when the new child is None. */
  function Retarget(p: Plan, r: RevId, child: Option<RevId>): (res: Result<Plan, StackError>)
    requires r in p.txns
    ensures res.Ok? <==> WalkLList(p.links[r := child], true).Ok?
    ensures res.Ok? ==> res.value.links == p.links[r := child] && res.value.txns.Keys == p.txns.Keys
    ensures res.Ok? && NoAbandon(p.txns) ==> NoAbandon(res.value.txns)
    ensures res.Ok? ==> forall x :: x in p.txns && x != r ==> res.value.txns[x] == p.txns[x]
    ensures res.Ok? && child.Some? ==> res.value.txns[r] == p.txns[r] + [ChildrenSet(child.value)]
    ensures res.Ok? && child.None? && Get(p.links, r).Some? ==>
              res.value.txns[r] == p.txns[r] + [ChildrenRemove(Get(p.links, r).value)]
    ensures res.Ok? && child.None? && Get(p.links, r).None? ==> res.value.txns == p.txns
  {
    var txns :=
      match child
      case Some(c) => Record(p.txns, r, ChildrenSet(c))
      case None => if r in p.links && p.links[r].Some? then Record(p.txns, r, ChildrenRemove(p.links[r].value)) else p.txns;
    Checked(Plan(p.links[r := child], txns))
  }

  /** Removes the child of `rev`, recording `children.remove` when it had one. */
  function Detach(p: Plan, rev: RevId): (q: Plan)
    requires rev in p.links && rev in p.txns
    ensures q.links.Keys == p.links.Keys && q.txns.Keys == p.txns.Keys
    ensures NoAbandon(p.txns) ==> NoAbandon(q.txns)
    ensures q.links == p.links[rev := None]
  {
    var txns := match p.links[rev]
      case Some(child) => Record(p.txns, rev, ChildrenRemove(child))
      case None => p.txns;
    Plan(p.links[rev := None], txns)
  }

  /** What `Detach` records: `children.remove` of the old child, if any. */
  lemma DetachRecords(p: Plan, rev: RevId)
    requires rev in p.links && rev in p.txns
    ensures var q := Detach(p, rev);
      && (p.links[rev].Some? ==> q.txns == p.txns[rev := p.txns[rev] + [ChildrenRemove(p.links[rev].value)]])
      && (p.links[rev].None? ==> q.txns == p.txns)
  {
  }

  /** First loop: a remote revision missing locally loses its child. */
  function DetachRemoved(remote: seq<RevId>, local: seq<RevId>, i: nat, p: Plan): (r: Result<Plan, StackError>)
    requires i <= |remote|
    requires Elems(remote) <= p.links.Keys && Elems(remote) <= p.txns.Keys
    ensures r.Ok? ==> r.value.links.Keys == p.links.Keys && r.value.txns.Keys == p.txns.Keys
    ensures r.Ok? && NoAbandon(p.txns) ==> NoAbandon(r.value.txns)
    decreases |remote| - i
  {
    if i == |remote| then Ok(p)
    else if remote[i] in local then DetachRemoved(remote, local, i + 1, p)
    else
      var q :- Checked(Detach(p, remote[i]));
      DetachRemoved(remote, local, i + 1, q)
  }

  /** Second loop: a local revision missing remotely gets its local child. */
  function LinkAdded(remote: seq<RevId>, local: seq<RevId>, target: LList, i: nat, p: Plan)
    : (r: Result<Plan, StackError>)
    requires i <= |local|
    requires Elems(local) <= target.Keys && Elems(local) <= p.txns.Keys
    ensures r.Ok? ==> p.links.Keys <= r.value.links.Keys && r.value.txns.Keys == p.txns.Keys
    ensures r.Ok? && NoAbandon(p.txns) ==> NoAbandon(r.value.txns)
    decreases |local| - i
  {
    if i == |local| then Ok(p)
    else if local[i] in remote then LinkAdded(remote, local, target, i + 1, p)
    else
      var q :- Retarget(p, local[i], target[local[i]]);
      LinkAdded(remote, local, target, i + 1, q)
  }

  /** Third loop: a revision in both stacks whose child differs gets its local child. */
  function RelinkKept(remote: seq<RevId>, local: seq<RevId>, target: LList, i: nat, p: Plan)
    : (r: Result<Plan, StackError>)
    requires i <= |remote|
    requires Elems(local) <= target.Keys
    requires Elems(remote) <= p.links.Keys && Elems(remote) <= p.txns.Keys
    ensures r.Ok? ==> p.links.Keys <= r.value.links.Keys && r.value.txns.Keys == p.txns.Keys
    ensures r.Ok? && NoAbandon(p.txns) ==> NoAbandon(r.value.txns)
    decreases |remote| - i
  {
    if i == |remote| then Ok(p)
    else if remote[i] !in local || target[remote[i]] == p.links[remote[i]] then
      RelinkKept(remote, local, target, i + 1, p)
    else
      var q :- Retarget(p, remote[i], target[remote[i]]);
      RelinkKept(remote, local, target, i + 1, q)
  }

  /** Abandons `rev` and deletes it from the child map. */
  function Drop(p: Plan, rev: RevId): (q: Plan)
    requires rev in p.txns
    ensures q.links.Keys == p.links.Keys - {rev}
    ensures q.txns.Keys == p.txns.Keys && EndsWithAbandon(q.txns[rev])
    ensures q.txns[rev] == p.txns[rev] + [Abandon] && rev !in q.links
    ensures forall x :: x in p.links && x != rev ==> q.links[x] == p.links[x]
    ensures forall x :: x in p.txns && x != rev ==> q.txns[x] == p.txns[x]
  {
    Plan(p.links - {rev}, Record(p.txns, rev, Abandon))
  }

  /** Last loop: a remote revision missing locally is abandoned and dropped
      from the map; dropping it twice is a KeyError. */
  function AbandonRemoved(remote: seq<RevId>, local: seq<RevId>, i: nat, p: Plan): (r: Result<Plan, StackError>)
    requires i <= |remote|
    requires Elems(remote) <= p.txns.Keys
    ensures r.Ok? ==> r.value.txns.Keys == p.txns.Keys
    ensures r.Ok? ==> forall x :: x in p.txns ==>
              if x in remote[i..] && x !in local then EndsWithAbandon(r.value.txns[x])
              else r.value.txns[x] == p.txns[x]
    decreases |remote| - i
  {
    if i == |remote| then Ok(p)
    else if remote[i] in local then
      assert forall x :: x in remote[i..] && x != remote[i] ==> x in remote[i + 1..];
      AbandonRemoved(remote, local, i + 1, p)
    else
      var rev := remote[i];
      if rev !in p.links then Err(KeyLookup(rev))
      else
        var q :- Checked(Drop(p, rev));
        var r := AbandonRemoved(remote, local, i + 1, q);
        assert forall x :: x in remote[i..] && x != rev ==> x in remote[i + 1..];
        r
  }

  /** The promises of stack_transactions about its result: every listed
      revision is listed once and has transactions; revisions missing locally
      end with `abandon`; local revisions are never abandoned. */
  predicate WellFormedEdits(edits: Edits, remote: seq<RevId>, local: seq<RevId>) {
    && (forall k :: 0 <= k < |edits| ==> edits[k].1 != [])
    && (forall k, l :: 0 <= k < l < |edits| ==> edits[k].0 != edits[l].0)
    && (forall k :: 0 <= k < |edits| ==> edits[k].0 in remote || edits[k].0 in local)
    && (forall k :: 0 <= k < |edits| && edits[k].0 !in local ==> EndsWithAbandon(edits[k].1))
    && (forall k :: 0 <= k < |edits| && edits[k].0 in local ==> Abandon !in edits[k].1)
    && (forall x :: x in remote && x !in local ==> x in EditedRevisions(edits))
  }

  /** The non-empty transaction lists, in `order`. */
  function Collect(order: seq<RevId>, txns: map<RevId, seq<Txn>>): (edits: Edits)
    ensures forall k :: 0 <= k < |edits| ==>
              edits[k].0 in order && edits[k].0 in txns && edits[k].1 == txns[edits[k].0] && edits[k].1 != []
    ensures forall x :: x in order && x in txns && txns[x] != [] ==> x in EditedRevisions(edits)
    ensures Distinct(order) ==> forall k, l :: 0 <= k < l < |edits| ==> edits[k].0 != edits[l].0
    ensures Distinct(order) ==> forall k, l :: 0 <= k < l < |edits| ==> IndexOf(order, edits[k].0) < IndexOf(order, edits[l].0)
  {
    if order == [] then []
    else
      var x := order[0];
      var rest := Collect(order[1..], txns);
      if x in txns && txns[x] != [] then
        CollectCons(order, txns, rest);
        CollectConsOrder(order, (x, txns[x]), rest);
        [(x, txns[x])] + rest
      else rest
  }

  lemma CollectWellFormed(remote: seq<RevId>, local: seq<RevId>, txns: map<RevId, seq<Txn>>)
    requires txns.Keys == Elems(remote + local)
    requires forall x :: x in txns ==> if x in remote && x !in local then EndsWithAbandon(txns[x]) else Abandon !in txns[x]
    ensures WellFormedEdits(Collect(Unique(remote + local), txns), remote, local)
  {
  }

  /** The plan before the loops: the remote child map and an empty list for
      every revision of either stack. */
  function StartPlan(remote: seq<RevId>, local: seq<RevId>): Plan {
    Plan(ToLList(remote), map x | x in Elems(remote + local) :: [])
  }

  /** The four loops of stack_transactions, run in order on the remote map. */
  function PlanEdits(remote: seq<RevId>, local: seq<RevId>): (r: Result<Plan, StackError>)
    ensures r.Ok? ==> r.value.txns.Keys == Elems(remote + local)
    ensures r.Ok? ==> forall x :: x in r.value.txns ==>
              if x in remote && x !in local then EndsWithAbandon(r.value.txns[x]) else Abandon !in r.value.txns[x]
  {
    var localList := ToLList(local);
    var p1 :- DetachRemoved(remote, local, 0, StartPlan(remote, local));
    var p2 :- LinkAdded(remote, local, localList, 0, p1);
    var p3 :- RelinkKept(remote, local, localList, 0, p2);
    assert remote[0..] == remote;
    AbandonRemoved(remote, local, 0, p3)
  }

  lemma CollectCons(order: seq<RevId>, txns: map<RevId, seq<Txn>>, rest: Edits)
    requires order != [] && order[0] in txns && txns[order[0]] != []
    requires forall k :: 0 <= k < |rest| ==>
               rest[k].0 in order[1..] && rest[k].0 in txns && rest[k].1 == txns[rest[k].0] && rest[k].1 != []
    requires forall x :: x in order[1..] && x in txns && txns[x] != [] ==> x in EditedRevisions(rest)
    requires Distinct(order[1..]) ==> forall k, l :: 0 <= k < l < |rest| ==> rest[k].0 != rest[l].0
    ensures var edits := [(order[0], txns[order[0]])] + rest;
      && (forall k :: 0 <= k < |edits| ==>
            edits[k].0 in order && edits[k].0 in txns && edits[k].1 == txns[edits[k].0] && edits[k].1 != [])
      && (forall x :: x in order && x in txns && txns[x] != [] ==> x in EditedRevisions(edits))
      && (Distinct(order) ==> forall k, l :: 0 <= k < l < |edits| ==> edits[k].0 != edits[l].0)
  {
    var x := order[0];
    var edits := [(x, txns[x])] + rest;
    assert forall k :: 1 <= k < |edits| ==> edits[k] == rest[k - 1];
    assert EditedRevisions(edits) == {x} + EditedRevisions(rest) by {
      forall y | y in EditedRevisions(rest) ensures y in EditedRevisions(edits) {
        var k :| 0 <= k < |rest| && rest[k].0 == y;
        assert edits[k + 1].0 == y;
      }
      forall y | y in EditedRevisions(edits) ensures y == x || y in EditedRevisions(rest) {
        var k :| 0 <= k < |edits| && edits[k].0 == y;
        if k > 0 {
          assert rest[k - 1].0 == y;
        }
      }
      assert edits[0].0 == x;
    }
    if Distinct(order) {
      assert Distinct(order[1..]);
      forall k | 0 <= k < |rest| ensures rest[k].0 != x {
        var j :| 0 <= j < |order[1..]| && order[1..][j] == rest[k].0;
        assert order[j + 1] == rest[k].0;
      }
    }
  }

  /** Putting the first revision of `order` in front keeps the edits in
      `order`'s order. */
  lemma CollectConsOrder(order: seq<RevId>, head: (RevId, seq<Txn>), rest: Edits)
    requires order != [] && head.0 == order[0]
    requires forall k :: 0 <= k < |rest| ==> rest[k].0 in order[1..]
    requires Distinct(order[1..]) ==>
               forall k, l :: 0 <= k < l < |rest| ==> IndexOf(order[1..], rest[k].0) < IndexOf(order[1..], rest[l].0)
    ensures var edits := [head] + rest;
      Distinct(order) ==> forall k, l :: 0 <= k < l < |edits| ==> IndexOf(order, edits[k].0) < IndexOf(order, edits[l].0)
  {
  }

  /** stack_transactions: plans the edits, checks that the edited remote map
      walks to the local order, and returns the non-empty transaction lists. */
  function StackTransactions(remote: seq<RevId>, local: seq<RevId>): (r: Result<Edits, StackError>)
    ensures r.Ok? ==> WellFormedEdits(r.value, remote, local)
  {
    var planned :- PlanEdits(remote, local);
    var walked :- WalkLList(planned.links, false);
    var expected :- WalkLList(ToLList(local), false);
    if Text.Join(walked, ":") != Text.Join(expected, ":") then Err(AssertionFailed)
    else
      CollectWellFormed(remote, local, planned.txns);
      Ok(Collect(Unique(remote + local), planned.txns))
  }
}

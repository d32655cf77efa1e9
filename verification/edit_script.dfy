/** The transactions `stack_transactions` prepares for Phabricator's
    `differential.revision.edit` (mozphab/commands/reorganise.py), and what
    they do to a stack's child map once applied. */
module EditScript {
  import opened Wrappers
  import opened Revisions

  /** One entry of a revision's list: `children.set` or `children.remove`,
      each with a one-element child list, or `abandon` with the value True. */
  datatype Txn = ChildrenSet(child: RevId) | ChildrenRemove(child: RevId) | Abandon

  /** Revisions with their transaction lists, in the order they are sent. */
  type Edits = seq<(RevId, seq<Txn>)>

  /** What one transaction does to a revision's child: `children.set [c]`
      makes `c` the child, `children.remove [c]` removes `c` when it is the
      child, and `abandon` takes the revision out of the stack. */
  function Step(child: Option<RevId>, t: Txn): Option<RevId> {
    match t
    case ChildrenSet(c) => Some(c)
    case ChildrenRemove(c) => if child == Some(c) then None else child
    case Abandon => None
  }

  /** A revision's transaction list applied in order to its child. */
  function Apply(child: Option<RevId>, ts: seq<Txn>): Option<RevId> {
    if ts == [] then child else Step(Apply(child, ts[..|ts| - 1]), ts[|ts| - 1])
  }

  lemma ApplySnoc(child: Option<RevId>, ts: seq<Txn>, t: Txn)
    ensures Apply(child, ts + [t]) == Step(Apply(child, ts), t)
  {
  }

  /** One transaction of `rev` applied to a child map: `abandon` deletes the
      revision, the others rewrite its child. No other revision changes. */
  function ApplyTxn(llist: LList, rev: RevId, t: Txn): (m: LList)
    ensures Get(m, rev) == Step(Get(llist, rev), t)
    ensures forall y :: y != rev ==> Get(m, y) == Get(llist, y)
    ensures t == Abandon ==> rev !in m
  {
    if t == Abandon then llist - {rev} else llist[rev := Step(Get(llist, rev), t)]
  }

  /** The whole list of `rev` applied to a child map. */
  function ApplyTxns(llist: LList, rev: RevId, ts: seq<Txn>): (m: LList)
    ensures Get(m, rev) == Apply(Get(llist, rev), ts)
    ensures forall y :: y != rev ==> Get(m, y) == Get(llist, y)
  {
    if ts == [] then llist
    else ApplyTxn(ApplyTxns(llist, rev, ts[..|ts| - 1]), rev, ts[|ts| - 1])
  }

  /** The revisions that receive transactions. */
  function EditedRevisions(edits: Edits): set<RevId> {
    set k | 0 <= k < |edits| :: edits[k].0
  }

  /** The list sent for `rev`: the first one in the edits, or nothing. */
  function ListOf(edits: Edits, rev: RevId): (ts: seq<Txn>)
    ensures rev !in EditedRevisions(edits) ==> ts == []
  {
    if edits == [] then []
    else if edits[0].0 == rev then edits[0].1
    else
      assert forall k :: 0 <= k < |edits[1..]| ==> edits[1..][k] == edits[k + 1];
      ListOf(edits[1..], rev)
  }

  /** The edits applied one revision after another, in the order sent. */
  function ApplyEdits(llist: LList, edits: Edits): LList
    decreases |edits|
  {
    if edits == [] then llist
    else ApplyEdits(ApplyTxns(llist, edits[0].0, edits[0].1), edits[1..])
  }

  /** When no revision is listed twice, each revision ends with its own list
      applied to its child, whatever the order of the edits. */
  lemma {:induction false} ApplyEditsGet(llist: LList, edits: Edits, y: RevId)
    requires forall k, l :: 0 <= k < l < |edits| ==> edits[k].0 != edits[l].0
    ensures Get(ApplyEdits(llist, edits), y) == Apply(Get(llist, y), ListOf(edits, y))
    decreases |edits|
  {
    if edits != [] {
      var rest := edits[1..];
      assert forall k :: 0 <= k < |rest| ==> rest[k] == edits[k + 1];
      var m := ApplyTxns(llist, edits[0].0, edits[0].1);
      ApplyEditsGet(m, rest, y);
      if y == edits[0].0 {
        assert y !in EditedRevisions(rest);
      }
    }
  }
}

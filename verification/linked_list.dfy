/** `to_llist` and `walk_llist` (mozphab/commands/reorganise.py): a stack of
    revisions as a child map, and the walk that recovers the order from it. */
module LinkedList {
  import opened Wrappers
  import opened Revisions

  /** The child of the revision at index `i`: the next one, or None for the last. */
  function NextOf(revisions: seq<RevId>, i: nat): Option<RevId>
    requires i < |revisions|
  {
    if i + 1 < |revisions| then Some(revisions[i + 1]) else None
  }

  /** Builds the child map of an ordered stack. A repeated id keeps the child
      of its last occurrence, as the later dict assignment wins. */
  function ToLList(revisions: seq<RevId>): (llist: LList)
    ensures llist.Keys == Elems(revisions)
    ensures forall i {:trigger llist[revisions[i]]} :: 0 <= i < |revisions| && revisions[i] !in revisions[i + 1..] ==>
              llist[revisions[i]] == NextOf(revisions, i)
  {
    if revisions == [] then map[]
    else
      var rest := ToLList(revisions[1..]);
      var llist := map[revisions[0] := NextOf(revisions, 0)] + rest;
      assert forall i {:trigger llist[revisions[i]]} :: 0 <= i < |revisions| && revisions[i] !in revisions[i + 1..] ==>
               llist[revisions[i]] == NextOf(revisions, i) by {
        forall i | 0 <= i < |revisions| && revisions[i] !in revisions[i + 1..]
          ensures llist[revisions[i]] == NextOf(revisions, i)
        {
          if i == 0 {
            assert revisions[0] !in rest;
          } else {
            assert revisions[1..][i - 1] == revisions[i];
            assert revisions[1..][i..] == revisions[i + 1..];
          }
        }
      }
      llist
  }

  /** Revisions named as some key's child. */
  function Children(llist: LList): set<RevId> {
    set k | k in llist && llist[k].Some? :: llist[k].value
  }

  /** Keys no other key names as its child: the candidate heads. */
  function Heads(llist: LList): set<RevId> {
    llist.Keys - Children(llist)
  }

  /** Every id the walk can reach: keys and children. */
  function Universe(llist: LList): set<RevId> {
    llist.Keys + Children(llist)
  }

  /** `xs` follows the child map from its first element to an element with no child. */
  predicate IsChain(llist: LList, xs: seq<RevId>) {
    && |xs| > 0
    && (forall i :: 0 <= i < |xs| - 1 ==> Get(llist, xs[i]) == Some(xs[i + 1]))
    && Get(llist, xs[|xs| - 1]) == None
  }

  /** The head search of walk_llist: the sorted-first key that is nobody's child. */
  function FindHead(llist: LList, allowMultipleHeads: bool): (r: Result<RevId, StackError>)
    ensures r == Err(NoHead) <==> forall k :: k in llist ==> k in Children(llist)
    ensures r == Err(MultipleHeads) <==>
              !allowMultipleHeads && exists h1, h2 :: h1 in Heads(llist) && h2 in Heads(llist) && h1 != h2
    ensures r.Err? ==> r.error == NoHead || r.error == MultipleHeads
    ensures r.Ok? ==> r.value in llist && r.value !in Children(llist)
    ensures r.Ok? ==> forall k :: k in Heads(llist) && k != r.value ==> allowMultipleHeads && StrLess(r.value, k)
  {
    var heads := Heads(llist);
    if heads == {} then
      assert forall k :: k in llist ==> k in Children(llist) by {
        forall k | k in llist ensures k in Children(llist) {
          assert k !in heads;
        }
      }
      Err(NoHead)
    else
      var head := Least(heads);
      if !allowMultipleHeads && heads != {head} then
        var other :| other in heads && other != head;
        Err(MultipleHeads)
      else
        Ok(head)
  }

  /** The loop of walk_llist: appends `cur`, then moves to its child unless the
      child was already walked. */
  function Walk(llist: LList, cur: RevId, nodes: seq<RevId>): (r: Result<seq<RevId>, StackError>)
    requires cur in Universe(llist) && cur !in nodes
    requires Distinct(nodes)
    ensures r.Err? ==> r.error == DependencyLoop
    ensures r.Ok? ==> |r.value| > |nodes| && r.value[..|nodes|] == nodes && r.value[|nodes|] == cur
    ensures r.Ok? ==> Distinct(r.value) && IsChain(llist, r.value[|nodes|..])
    decreases |Universe(llist) - Elems(nodes)|
  {
    var visited := nodes + [cur];
    VisitShrinks(Universe(llist), nodes, cur);
    assert Distinct(visited);
    match Get(llist, cur)
    case None =>
      assert visited[|nodes|..] == [cur];
      Ok(visited)
    case Some(child) =>
      if child in visited then Err(DependencyLoop)
      else
        assert child in Universe(llist);
        var r := Walk(llist, child, visited);
        if r.Ok? then
          ChainExtends(llist, nodes, cur, r.value);
          r
        else r
  }

  lemma VisitShrinks(u: set<RevId>, nodes: seq<RevId>, cur: RevId)
    requires cur in u && cur !in nodes
    ensures |u - Elems(nodes + [cur])| < |u - Elems(nodes)|
  {
    assert u - Elems(nodes + [cur]) == (u - Elems(nodes)) - {cur};
  }

  /** One step of the walk: prepending `cur` to the chain found from its child. */
  lemma ChainExtends(llist: LList, nodes: seq<RevId>, cur: RevId, ys: seq<RevId>)
    requires |ys| > |nodes| + 1 && ys[..|nodes| + 1] == nodes + [cur]
    requires Get(llist, cur) == Some(ys[|nodes| + 1])
    requires IsChain(llist, ys[|nodes| + 1..])
    ensures ys[..|nodes|] == nodes && ys[|nodes|] == cur
    ensures IsChain(llist, ys[|nodes|..])
  {
    assert ys[..|nodes|] == ys[..|nodes| + 1][..|nodes|];
    assert ys[|nodes|] == ys[..|nodes| + 1][|nodes|];
    var tail := ys[|nodes|..];
    forall i | 0 <= i < |tail| - 1
      ensures Get(llist, tail[i]) == Some(tail[i + 1])
    {
      if i > 0 {
        assert tail[i] == ys[|nodes| + 1..][i - 1] && tail[i + 1] == ys[|nodes| + 1..][i];
      }
    }
    assert tail[|tail| - 1] == ys[|nodes| + 1..][|ys[|nodes| + 1..]| - 1];
  }

  /** walk_llist: the stack order recorded in a child map. */
  function WalkLList(llist: LList, allowMultipleHeads: bool): (r: Result<seq<RevId>, StackError>)
    ensures r == Err(NoHead) <==> forall k :: k in llist ==> k in Children(llist)
    ensures r == Err(MultipleHeads) <==>
              !allowMultipleHeads && exists h1, h2 :: h1 in Heads(llist) && h2 in Heads(llist) && h1 != h2
    ensures r.Ok? ==> IsChain(llist, r.value) && Distinct(r.value)
    ensures r.Ok? ==> FindHead(llist, allowMultipleHeads) == Ok(r.value[0])
  {
    var head :- FindHead(llist, allowMultipleHeads);
    Walk(llist, head, [])
  }

  /** Walking a distinct chain from its first element reproduces it. */
  lemma {:induction false} WalkFollowsChain(llist: LList, xs: seq<RevId>, k: nat)
    requires IsChain(llist, xs) && Distinct(xs) && xs[0] in llist
    requires k < |xs|
    ensures xs[k] in Universe(llist) && xs[k] !in xs[..k] && Distinct(xs[..k])
    ensures Walk(llist, xs[k], xs[..k]) == Ok(xs)
    decreases |xs| - k
  {
    if k > 0 {
      assert Get(llist, xs[k - 1]) == Some(xs[k]);
      assert xs[k] in Children(llist);
    }
    var visited := xs[..k] + [xs[k]];
    assert visited == xs[..k + 1];
    if k == |xs| - 1 {
      assert visited == xs;
    } else {
      assert Get(llist, xs[k]) == Some(xs[k + 1]);
      assert xs[k + 1] !in visited;
      WalkFollowsChain(llist, xs, k + 1);
    }
  }

  /** The converse of WalkLList's contract: a distinct chain starting at the
      head the search selects is exactly what the walk returns. */
  lemma WalkFindsChain(llist: LList, allowMultipleHeads: bool, xs: seq<RevId>)
    requires IsChain(llist, xs) && Distinct(xs)
    requires FindHead(llist, allowMultipleHeads) == Ok(xs[0])
    ensures WalkLList(llist, allowMultipleHeads) == Ok(xs)
  {
    WalkFollowsChain(llist, xs, 0);
    assert xs[..0] == [];
  }

  /** "Dependency loop" is raised exactly when no loop-free chain leads from
      the selected head to a revision without a child. */
  lemma LoopIffNoChain(llist: LList, allowMultipleHeads: bool)
    requires FindHead(llist, allowMultipleHeads).Ok?
    ensures WalkLList(llist, allowMultipleHeads) == Err(DependencyLoop) <==>
              !exists xs :: IsChain(llist, xs) && Distinct(xs) && xs[0] == FindHead(llist, allowMultipleHeads).value
  {
    var head := FindHead(llist, allowMultipleHeads).value;
    var r := WalkLList(llist, allowMultipleHeads);
    if r.Ok? {
      assert IsChain(llist, r.value) && Distinct(r.value) && r.value[0] == head;
    } else {
      forall xs | IsChain(llist, xs) && Distinct(xs) && xs[0] == head
        ensures false
      {
        WalkFindsChain(llist, allowMultipleHeads, xs);
      }
    }
  }

  /** For a stack without repeats, every revision maps to the next one and the
      last to None. */
  lemma ToLListLinksNext(revisions: seq<RevId>, i: nat)
    requires Distinct(revisions) && i < |revisions|
    ensures ToLList(revisions)[revisions[i]] == NextOf(revisions, i)
  {
    assert revisions[i] !in revisions[i + 1..] by {
      forall j | i + 1 <= j < |revisions| ensures revisions[j] != revisions[i] { }
    }
  }

  /** The children of a stack's child map are all its revisions but the first. */
  lemma ToLListChildren(revisions: seq<RevId>)
    requires Distinct(revisions) && |revisions| > 0
    ensures Children(ToLList(revisions)) == Elems(revisions[1..])
    ensures Heads(ToLList(revisions)) == {revisions[0]}
  {
    ChildrenAreSuccessors(revisions);
    SuccessorsAreChildren(revisions);
  }

  lemma ChildrenAreSuccessors(revisions: seq<RevId>)
    requires Distinct(revisions)
    ensures forall k :: k in Children(ToLList(revisions)) ==> k in revisions[1..]
  {
    var llist := ToLList(revisions);
    forall k | k in Children(llist) ensures k in revisions[1..] {
      var p :| p in llist && llist[p].Some? && llist[p].value == k;
      var i :| 0 <= i < |revisions| && revisions[i] == p;
      ToLListLinksNext(revisions, i);
      assert revisions[1..][i] == k;
    }
  }

  lemma SuccessorsAreChildren(revisions: seq<RevId>)
    requires Distinct(revisions) && |revisions| > 0
    ensures forall k :: k in revisions[1..] ==> k in Children(ToLList(revisions))
  {
    var llist := ToLList(revisions);
    forall j | 1 <= j < |revisions| ensures revisions[j] in Children(llist) {
      ToLListLinksNext(revisions, j - 1);
    }
  }

  /** Round trip: the walk of a stack's child map is the stack itself. */
  lemma RoundTrip(revisions: seq<RevId>, allowMultipleHeads: bool)
    requires Distinct(revisions) && |revisions| > 0
    ensures WalkLList(ToLList(revisions), allowMultipleHeads) == Ok(revisions)
  {
    var llist := ToLList(revisions);
    ToLListChildren(revisions);
    assert Least({revisions[0]}) == revisions[0];
    forall i | 0 <= i < |revisions| ensures Get(llist, revisions[i]) == NextOf(revisions, i) {
      ToLListLinksNext(revisions, i);
    }
    assert IsChain(llist, revisions);
    WalkFindsChain(llist, allowMultipleHeads, revisions);
  }

  /** `rank` strictly decreases from every revision to its child, so the map
      has no loops. */
  ghost predicate Ranked(llist: LList, rank: RevId -> nat) {
    forall k :: k in llist && llist[k].Some? ==> rank(llist[k].value) < rank(k)
  }

  lemma MaxRank(keys: set<RevId>, rank: RevId -> nat) returns (m: RevId)
    requires keys != {}
    ensures m in keys && forall k :: k in keys ==> rank(k) <= rank(m)
    decreases keys
  {
    var y :| y in keys;
    if keys == {y} {
      m := y;
    } else {
      var m' := MaxRank(keys - {y}, rank);
      m := if rank(y) <= rank(m') then m' else y;
    }
  }

  lemma {:induction false} RankedWalk(llist: LList, rank: RevId -> nat, cur: RevId, nodes: seq<RevId>)
    requires cur in Universe(llist) && cur !in nodes && Distinct(nodes)
    requires Ranked(llist, rank)
    requires forall n :: n in nodes ==> rank(cur) < rank(n)
    ensures Walk(llist, cur, nodes).Ok?
    decreases |Universe(llist) - Elems(nodes)|
  {
    var visited := nodes + [cur];
    VisitShrinks(Universe(llist), nodes, cur);
    match Get(llist, cur)
    case None =>
    case Some(child) =>
      assert rank(child) < rank(cur);
      assert child !in visited;
      assert child in Children(llist);
      RankedWalk(llist, rank, child, visited);
  }

  /** A non-empty map without loops always walks, whichever head is chosen. */
  lemma RankedWalks(llist: LList, rank: RevId -> nat)
    requires Ranked(llist, rank) && llist.Keys != {}
    ensures WalkLList(llist, true).Ok?
  {
    var top := MaxRank(llist.Keys, rank);
    assert forall p :: p in llist && llist[p].Some? ==> llist[p].value != top;
    assert top in Heads(llist);
    var head := FindHead(llist, true).value;
    RankedWalk(llist, rank, head, []);
  }
}

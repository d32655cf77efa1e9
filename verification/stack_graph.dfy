/** `convert_stackgraph_to_linear` (mozphab/commands/reorganise.py): turns
    Phabricator's stackGraph, which maps each revision to the list of its
    predecessors, into a child map, rejecting a revision with two children. */
module StackGraph {
  import opened Wrappers
  import opened Revisions
  import LinkedList

  /** The stackGraph dict as its items in iteration order: each successor
      with the list of its predecessors. */
  type Graph = seq<(RevId, seq<RevId>)>

  /** The (predecessor, successor) pairs in the order the nested loops visit them. */
  function Edges(graph: Graph): seq<(RevId, RevId)> {
    if graph == [] then []
    else
      var preds := graph[0].1;
      seq(|preds|, j requires 0 <= j < |preds| => (preds[j], graph[0].0)) + Edges(graph[1..])
  }

  /** A pair is visited exactly when its predecessor is listed under its successor. */
  lemma {:induction false} EdgesListed(graph: Graph)
    ensures forall p, s :: (p, s) in Edges(graph) <==>
              exists k :: 0 <= k < |graph| && graph[k].0 == s && p in graph[k].1
  {
    if graph != [] {
      var succ := graph[0].0;
      var preds := graph[0].1;
      var first := seq(|preds|, j requires 0 <= j < |preds| => (preds[j], succ));
      assert forall p, s :: (p, s) in first <==> s == succ && p in preds by {
        forall p | p in preds ensures (p, succ) in first {
          var j :| 0 <= j < |preds| && preds[j] == p;
          assert first[j] == (p, succ);
        }
      }
      EdgesListed(graph[1..]);
      forall p, s | (p, s) in Edges(graph[1..])
        ensures exists k :: 1 <= k < |graph| && graph[k].0 == s && p in graph[k].1
      {
        var k :| 0 <= k < |graph[1..]| && graph[1..][k].0 == s && p in graph[1..][k].1;
        assert graph[k + 1] == graph[1..][k];
      }
      forall p, s, k | 1 <= k < |graph| && graph[k].0 == s && p in graph[k].1
        ensures (p, s) in Edges(graph[1..])
      {
        assert graph[1..][k - 1] == graph[k];
      }
    }
  }

  function Predecessors(edges: seq<(RevId, RevId)>): (preds: seq<RevId>)
    ensures |preds| == |edges| && forall j :: 0 <= j < |edges| ==> preds[j] == edges[j].0
  {
    seq(|edges|, j requires 0 <= j < |edges| => edges[j].0)
  }

  /** The error raised for a predecessor seen twice: the revision id looked
      up in `phid_to_id`, or a KeyError when it is missing there. */
  function RepeatError(pred: RevId, phidToId: map<RevId, int>): StackError {
    if pred in phidToId then MultipleChildren(phidToId[pred]) else KeyLookup(pred)
  }

  /** Position `j` holds the first predecessor that was already seen. */
  predicate FirstRepeatAt(preds: seq<RevId>, j: int) {
    0 <= j < |preds| && preds[j] in preds[..j] && Distinct(preds[..j])
  }

  /** The first loop, from edge `i` on, with `acc` the map built so far. */
  function LinkEdges(edges: seq<(RevId, RevId)>, phidToId: map<RevId, int>, i: nat, acc: LList)
    : (r: Result<LList, StackError>)
    requires i <= |edges|
    requires acc.Keys == Elems(Predecessors(edges)[..i]) && Distinct(Predecessors(edges)[..i])
    ensures r.Ok? ==> r.value.Keys == Elems(Predecessors(edges))
    ensures r.Ok? ==> forall k :: k in acc ==> r.value[k] == acc[k]
    ensures r.Ok? ==> forall j :: i <= j < |edges| ==> r.value[edges[j].0] == Some(edges[j].1)
    decreases |edges| - i
  {
    var preds := Predecessors(edges);
    if i == |edges| then
      assert preds[..i] == preds;
      Ok(acc)
    else
      var (pred, succ) := edges[i];
      if pred in acc then
        RepeatFound(preds, i);
        Err(RepeatError(pred, phidToId))
      else
        FreshExtends(preds, i);
        var r := LinkEdges(edges, phidToId, i + 1, acc[pred := Some(succ)]);
        assert r.Ok? ==> r.value[edges[i].0] == Some(edges[i].1);
        r
  }

  /** The first loop succeeds exactly when no predecessor repeats, and
      otherwise fails on the first repeat. */
  lemma {:induction false} LinkEdgesOutcome(edges: seq<(RevId, RevId)>, phidToId: map<RevId, int>, i: nat, acc: LList)
    requires i <= |edges|
    requires acc.Keys == Elems(Predecessors(edges)[..i]) && Distinct(Predecessors(edges)[..i])
    ensures var r := LinkEdges(edges, phidToId, i, acc);
      && (r.Ok? <==> Distinct(Predecessors(edges)))
      && (r.Err? ==> exists j :: FirstRepeatAt(Predecessors(edges), j) &&
                                 r.error == RepeatError(Predecessors(edges)[j], phidToId))
    decreases |edges| - i
  {
    var preds := Predecessors(edges);
    if i == |edges| {
      assert preds[..i] == preds;
    } else {
      var (pred, succ) := edges[i];
      if pred in acc {
        RepeatFound(preds, i);
      } else {
        FreshExtends(preds, i);
        LinkEdgesOutcome(edges, phidToId, i + 1, acc[pred := Some(succ)]);
      }
    }
  }

  lemma RepeatFound(preds: seq<RevId>, i: nat)
    requires i < |preds| && preds[i] in Elems(preds[..i]) && Distinct(preds[..i])
    ensures FirstRepeatAt(preds, i) && !Distinct(preds)
  {
    var j :| 0 <= j < i && preds[..i][j] == preds[i];
    assert preds[j] == preds[i];
  }

  lemma FreshExtends(preds: seq<RevId>, i: nat)
    requires i < |preds| && preds[i] !in Elems(preds[..i]) && Distinct(preds[..i])
    ensures Distinct(preds[..i + 1]) && Elems(preds[..i + 1]) == Elems(preds[..i]) + {preds[i]}
  {
    assert preds[..i + 1] == preds[..i] + [preds[i]];
  }

  /** `m` is the linear form of `edges`: every predecessor maps to its
      successor, exactly the successors that are never a predecessor map to
      None, and every key occurs in some edge. */
  ghost predicate LinearOf(m: LList, edges: seq<(RevId, RevId)>) {
    && (forall p, s :: (p, s) in edges ==> p in m && m[p] == Some(s))
    && (forall k :: k in m && m[k] == None <==> (exists p :: (p, k) in edges) && !(exists s :: (k, s) in edges))
    && (forall k :: k in m <==> exists e :: e in edges && (e.0 == k || e.1 == k))
  }

  /** convert_stackgraph_to_linear. */
  function ConvertStackGraphToLinear(graph: Graph, phidToId: map<RevId, int>): (r: Result<LList, StackError>)
    ensures r.Ok? <==> Distinct(Predecessors(Edges(graph)))
    ensures r.Err? ==> exists j :: FirstRepeatAt(Predecessors(Edges(graph)), j) &&
                                   r.error == RepeatError(Predecessors(Edges(graph))[j], phidToId)
    ensures r.Ok? ==> LinearOf(r.value, Edges(graph))
  {
    var edges := Edges(graph);
    assert Predecessors(edges)[..0] == [];
    LinkEdgesOutcome(edges, phidToId, 0, map[]);
    match LinkEdges(edges, phidToId, 0, map[])
    case Err(e) => Err(e)
    case Ok(linear) =>
      var heads := map s | s in LinkedList.Children(linear) && s !in linear :: None;
      HeadsCompleteLinks(edges, linear, heads);
      Ok(linear + heads)
  }

  /** The second loop of convert_stackgraph_to_linear: revisions that are a
      successor but never a predecessor get no child. */
  lemma HeadsCompleteLinks(edges: seq<(RevId, RevId)>, linear: LList, heads: LList)
    requires linear.Keys == Elems(Predecessors(edges))
    requires forall j :: 0 <= j < |edges| ==> linear[edges[j].0] == Some(edges[j].1)
    requires heads == map s | s in LinkedList.Children(linear) && s !in linear :: None
    ensures LinearOf(linear + heads, edges)
  {
  }
}

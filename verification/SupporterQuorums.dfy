/**
 When the set that `findQuorum` reports is a quorum for every value it leaves, by a condition on the
 messages alone (consensus/scp/src/quorum_set_ext.rs).
 */
module SupporterQuorums {
  import opened Machine
  import opened QuorumSearch

  // ----- self-sufficient, unanimous sets -----

  /** Every node of `all` not among the `given` finds a slice of its own in `all`. */
  ghost predicate SelfSufficient(all: set<NodeId>, msgs: Messages, given: set<NodeId>) {
    forall m :: m in all && m !in given ==> m in msgs && Satisfies(msgs[m].quorumSet, all)
  }

  /** Two stages, each self-sufficient over what it was given, are so together. */
  lemma Stages(msgs: Messages, nodes: set<NodeId>, nodes1: set<NodeId>, nodes2: set<NodeId>)
    requires nodes1 <= nodes2
    requires SelfSufficient(nodes1, msgs, nodes) && SelfSufficient(nodes2, msgs, nodes1)
    ensures SelfSufficient(nodes2, msgs, nodes)
  {
    forall m | m in nodes2 && m !in nodes ensures m in msgs && Satisfies(msgs[m].quorumSet, nodes2) {
      if m in nodes1 {
        CountMonotone(msgs[m].quorumSet.members, nodes1, nodes2);
      }
    }
  }

  /** Whoever was added finds a slice of its own among the nodes returned and is behind every value left. */
  ghost predicate Upright(msgs: Messages, nodes: set<NodeId>, r: (Option<set<Value>>, set<NodeId>)) {
    r.0.Some? ==> SelfSufficient(r.1, msgs, nodes) && Unanimous(r.1 - nodes, msgs, r.0.value)
  }

  lemma UprightStages(msgs: Messages, nodes: set<NodeId>, nodes1: set<NodeId>, p1: set<Value>,
                      r: (Option<set<Value>>, set<NodeId>))
    requires r.0.Some? && r.0.value <= p1 && nodes1 <= r.1 && Upright(msgs, nodes1, r)
    requires SelfSufficient(nodes1, msgs, nodes) && Unanimous(nodes1 - nodes, msgs, p1)
    ensures Upright(msgs, nodes, r)
  {
    Stages(msgs, nodes, nodes1, r.1);
    forall m | m in r.1 - nodes ensures m in msgs && r.0.value <= msgs[m].supports {
      assert m in nodes1 - nodes || m in r.1 - nodes1;
    }
  }

  /** The explored node itself, on top of what its exploration added. */
  lemma ExploredIsUpright(msgs: Messages, n: NodeId, p: set<Value>, nodes: set<NodeId>, p1: set<Value>,
                          nodes1: set<NodeId>)
    requires n in msgs && p1 <= p * msgs[n].supports && nodes + {n} <= nodes1 && Satisfies(msgs[n].quorumSet, nodes1)
    requires SelfSufficient(nodes1, msgs, nodes + {n}) && Unanimous(nodes1 - (nodes + {n}), msgs, p1)
    ensures SelfSufficient(nodes1, msgs, nodes) && Unanimous(nodes1 - nodes, msgs, p1)
  {
    forall m | m in nodes1 - nodes ensures m in msgs && p1 <= msgs[m].supports {
      assert m == n || m in nodes1 - (nodes + {n});
    }
  }

  /** Seen from the local node, an upright result is a quorum for every value left. */
  lemma UprightIsQuorum(msgs: Messages, local: NodeId, r: (Option<set<Value>>, set<NodeId>), v: Value)
    requires r.0.Some? && Upright(msgs, {local}, r) && v in r.0.value
    ensures IsQuorumFor(r.1, msgs, v, {local})
  {
    forall n | n in r.1 && n != local ensures v in msgs[n].supports {
      assert n in r.1 - {local};
    }
  }

  // ----- supporters that suffice for each other -----

  /** All that stand behind some value of the predicate, and the local node. */
  function Camp(local: NodeId, msgs: Messages, p: set<Value>): set<NodeId> {
    Supporters(msgs, p) + {local}
  }

  /** The search so far stays within a camp that is a quorum for `v`, and still has `v`. */
  ghost predicate InCamp(camp: set<NodeId>, local: NodeId, msgs: Messages, p: set<Value>, v: Value,
                         nodes: set<NodeId>) {
    && v in p && Supporters(msgs, p) <= camp
    && local in nodes && nodes <= camp
    && IsQuorumFor(camp, msgs, v, {local})
  }

  lemma InCampOn(camp: set<NodeId>, local: NodeId, msgs: Messages, p: set<Value>, v: Value, nodes: set<NodeId>,
                 p1: set<Value>, nodes1: set<NodeId>)
    requires InCamp(camp, local, msgs, p, v, nodes) && v in p1 && p1 <= p && local in nodes1 && nodes1 <= camp
    ensures InCamp(camp, local, msgs, p1, v, nodes1)
  {
    SupportersMonotone(msgs, p1, p);
  }

  /** Within such a camp a search succeeds exactly when the camp satisfies what is searched for. */
  lemma CampDecides(threshold: nat, ms: seq<Member>, camp: set<NodeId>, local: NodeId, msgs: Messages,
                    p: set<Value>, v: Value, nodes: set<NodeId>)
    requires InCamp(camp, local, msgs, p, v, nodes)
    ensures var r := Search(threshold, ms, msgs, p, nodes);
            && (r.0.Some? <==> Count(ms, camp) >= threshold)
            && r.1 <= camp
            && (r.0.Some? ==> InCamp(camp, local, msgs, r.0.value, v, r.1))
  {
    var r := Search(threshold, ms, msgs, p, nodes);
    SearchDelivers(threshold, ms, msgs, p, nodes);
    assert r.1 <= camp;
    CountMonotone(ms, r.1, camp);
    assert Guarded(msgs, p, v, nodes, camp);
    SearchKeeps(threshold, ms, msgs, p, v, nodes, camp);
    if Count(ms, camp) >= threshold {
      assert camp + nodes == camp;
      SearchComplete(threshold, ms, msgs, p, v, nodes, camp, camp);
    }
    if r.0.Some? {
      InCampOn(camp, local, msgs, p, v, nodes, r.0.value, r.1);
    }
  }

  /** If the rest fails with one member fewer to find, so it does with all of them to find. */
  lemma RetryFails(threshold: nat, ms: seq<Member>, camp: set<NodeId>, local: NodeId, msgs: Messages, v: Value,
                   p1: set<Value>, nodes1: set<NodeId>, p: set<Value>, left: set<NodeId>)
    requires InCamp(camp, local, msgs, p1, v, nodes1) && InCamp(camp, local, msgs, p, v, left) && threshold > 0
    ensures Search(threshold - 1, ms, msgs, p1, nodes1).0.None? ==> Search(threshold, ms, msgs, p, left).0.None?
  {
    CampDecides(threshold - 1, ms, camp, local, msgs, p1, v, nodes1);
    CampDecides(threshold, ms, camp, local, msgs, p, v, left);
  }

  /** Within such a camp every node the search adds finds a slice of its own among the nodes returned and
      is behind every value left. */
  lemma {:induction false} CampIsUpright(threshold: nat, ms: seq<Member>, camp: set<NodeId>, local: NodeId,
                                         msgs: Messages, p: set<Value>, v: Value, nodes: set<NodeId>)
    requires InCamp(camp, local, msgs, p, v, nodes)
    ensures Upright(msgs, nodes, Search(threshold, ms, msgs, p, nodes))
    decreases msgs.Keys - nodes, Size(ms), 1
  {
    if 0 < threshold <= |ms| {
      match ms[0]
      case Node(n) =>
        if n in nodes {
          CampIsUpright(threshold - 1, ms[1..], camp, local, msgs, p, v, nodes);
        } else if Supports(msgs, n, p) {
          CampNodeIsUpright(threshold, ms, camp, local, msgs, p, v, nodes);
        } else {
          CampIsUpright(threshold, ms[1..], camp, local, msgs, p, v, nodes);
        }
      case Inner(q) =>
        CampInnerIsUpright(threshold, ms, camp, local, msgs, p, v, nodes);
      case Absent =>
        CampIsUpright(threshold, ms[1..], camp, local, msgs, p, v, nodes);
    }
  }

  lemma {:induction false} CampNodeIsUpright(threshold: nat, ms: seq<Member>, camp: set<NodeId>, local: NodeId,
                                             msgs: Messages, p: set<Value>, v: Value, nodes: set<NodeId>)
    requires InCamp(camp, local, msgs, p, v, nodes)
    requires 0 < threshold <= |ms| && ms[0].Node? && ms[0].id !in nodes && Supports(msgs, ms[0].id, p)
    ensures Upright(msgs, nodes, TryNode(threshold, ms, msgs, p, nodes))
    decreases msgs.Keys - nodes, Size(ms), 0
  {
    var n := ms[0].id;
    var q, narrowed := msgs[n].quorumSet, p * msgs[n].supports;
    assert n in Supporters(msgs, p);
    InCampOn(camp, local, msgs, p, v, nodes, narrowed, nodes + {n});
    CampDecides(q.threshold, q.members, camp, local, msgs, narrowed, v, nodes + {n});
    SearchDelivers(q.threshold, q.members, msgs, narrowed, nodes + {n});
    CampIsUpright(q.threshold, q.members, camp, local, msgs, narrowed, v, nodes + {n});
    var (p1, nodes1) := Search(q.threshold, q.members, msgs, narrowed, nodes + {n});
    ExploredIsUpright(msgs, n, p, nodes, p1.value, nodes1);
    CampDecides(threshold - 1, ms[1..], camp, local, msgs, p1.value, v, nodes1);
    CampIsUpright(threshold - 1, ms[1..], camp, local, msgs, p1.value, v, nodes1);
    var r := Search(threshold - 1, ms[1..], msgs, p1.value, nodes1);
    if r.0.Some? {
      SearchDelivers(threshold - 1, ms[1..], msgs, p1.value, nodes1);
      UprightStages(msgs, nodes, nodes1, p1.value, r);
    } else {
      InCampOn(camp, local, msgs, p, v, nodes, p, r.1 - {n});
      RetryFails(threshold, ms[1..], camp, local, msgs, v, p1.value, nodes1, p, r.1 - {n});
    }
  }

  lemma {:induction false} CampInnerIsUpright(threshold: nat, ms: seq<Member>, camp: set<NodeId>, local: NodeId,
                                              msgs: Messages, p: set<Value>, v: Value, nodes: set<NodeId>)
    requires InCamp(camp, local, msgs, p, v, nodes)
    requires 0 < threshold <= |ms| && ms[0].Inner?
    ensures Upright(msgs, nodes, TryInner(threshold, ms, msgs, p, nodes))
    decreases msgs.Keys - nodes, Size(ms), 0
  {
    var q := ms[0].inner;
    CampDecides(q.threshold, q.members, camp, local, msgs, p, v, nodes);
    CampIsUpright(q.threshold, q.members, camp, local, msgs, p, v, nodes);
    CampIsUpright(threshold, ms[1..], camp, local, msgs, p, v, nodes);
    var (p1, nodes1) := Search(q.threshold, q.members, msgs, p, nodes);
    if p1.Some? {
      CampIsUpright(threshold - 1, ms[1..], camp, local, msgs, p1.value, v, nodes1);
      var r := Search(threshold - 1, ms[1..], msgs, p1.value, nodes1);
      if r.0.Some? {
        SearchDelivers(threshold - 1, ms[1..], msgs, p1.value, nodes1);
        UprightStages(msgs, nodes, nodes1, p1.value, r);
      }
    }
  }

  // ----- exactness -----

  /** The supporters decide the answer, and what is found is a quorum for every value left, of which there
      is at least one. */
  ghost predicate Exact(q: QuorumSet, local: NodeId, msgs: Messages, p: set<Value>) {
    var (nodes, left) := FindQuorum(q, local, msgs, p);
    && (nodes != {} <==> Satisfies(q, Camp(local, msgs, p)))
    && (nodes != {} ==>
          && left != {} && Satisfies(q, nodes)
          && (forall v :: v in left ==> IsQuorumFor(nodes, msgs, v, {local})))
  }

  lemma CampIsExact(q: QuorumSet, local: NodeId, msgs: Messages, p: set<Value>, v: Value)
    requires v in p && IsQuorumFor(Camp(local, msgs, p), msgs, v, {local})
    ensures Exact(q, local, msgs, p)
    ensures FindQuorum(q, local, msgs, p).0 != {} ==> v in FindQuorum(q, local, msgs, p).1
  {
    var camp, r := Camp(local, msgs, p), Search(q.threshold, q.members, msgs, p, {local});
    assert InCamp(camp, local, msgs, p, v, {local});
    SearchDelivers(q.threshold, q.members, msgs, p, {local});
    CampDecides(q.threshold, q.members, camp, local, msgs, p, v, {local});
    CampIsUpright(q.threshold, q.members, camp, local, msgs, p, v, {local});
    assert local in r.1;
    if r.0.Some? {
      forall w | w in r.0.value ensures IsQuorumFor(r.1, msgs, w, {local}) {
        UprightIsQuorum(msgs, local, r, w);
      }
    }
  }

  /** The answer is exact for every quorum set asked about if and only if all who are behind the predicate
      are, with the local node, a quorum for one of its values. */
  lemma ExactIff(local: NodeId, msgs: Messages, p: set<Value>)
    requires p != {}
    ensures (forall q :: Exact(q, local, msgs, p)) <==>
            (exists v :: v in p && IsQuorumFor(Camp(local, msgs, p), msgs, v, {local}))
  {
    var camp := Camp(local, msgs, p);
    if v :| v in p && IsQuorumFor(camp, msgs, v, {local}) {
      forall q ensures Exact(q, local, msgs, p) {
        CampIsExact(q, local, msgs, p, v);
      }
    }
    if forall q :: Exact(q, local, msgs, p) {
      var ids := Listed(camp);
      assert Exact(Everyone(ids), local, msgs, p);
      AskedForEveryone(ids, local, msgs, p);
    }
  }

  /** For one value: if and only if all who are behind it suffice for each other. */
  lemma ExactForOneIff(local: NodeId, msgs: Messages, v: Value)
    ensures (forall q :: Exact(q, local, msgs, {v})) <==> IsQuorumFor(Camp(local, msgs, {v}), msgs, v, {local})
  {
    ExactIff(local, msgs, {v});
    if w :| w in {v} && IsQuorumFor(Camp(local, msgs, {v}), msgs, w, {local}) {
      assert w == v;
    }
    assert v in {v};
  }

  /** A quorum set that only a set holding all of `ids` satisfies, whatever their number. */
  function Everyone(ids: seq<NodeId>): QuorumSet {
    if ids == [] then QuorumSet(0, []) else QuorumSet(2, [Node(ids[0]), Inner(Everyone(ids[1..]))])
  }

  lemma {:induction false} EveryoneIff(ids: seq<NodeId>, nodes: set<NodeId>)
    ensures Satisfies(Everyone(ids), nodes) <==> forall n :: n in ids ==> n in nodes
  {
    if ids != [] {
      var ms := Everyone(ids).members;
      EveryoneIff(ids[1..], nodes);
      assert ms[1..] == [Inner(Everyone(ids[1..]))] && ms[1..][1..] == [];
      assert ms[0] == Node(ids[0]) && ms[1..][0] == Inner(Everyone(ids[1..]));
      assert Count(ms[1..], nodes) == (if Satisfied(ms[1..][0], nodes) then 1 else 0) + Count(ms[1..][1..], nodes);
      assert Count(ms, nodes) == (if Satisfied(ms[0], nodes) then 1 else 0) + Count(ms[1..], nodes);
      assert forall n :: n in ids <==> n == ids[0] || n in ids[1..];
    }
  }

  lemma {:induction false} Listed(nodes: set<NodeId>) returns (ids: seq<NodeId>)
    ensures forall n :: n in ids <==> n in nodes
  {
    ids := [];
    if nodes != {} {
      var x :| x in nodes;
      var rest := Listed(nodes - {x});
      ids := [x] + rest;
    }
  }

  /** Asking for the whole camp finds the whole camp. */
  lemma AskedForEveryone(ids: seq<NodeId>, local: NodeId, msgs: Messages, p: set<Value>)
    requires p != {} && (forall n :: n in ids <==> n in Camp(local, msgs, p)) && Exact(Everyone(ids), local, msgs, p)
    ensures exists v :: v in p && IsQuorumFor(Camp(local, msgs, p), msgs, v, {local})
  {
    var q, camp := Everyone(ids), Camp(local, msgs, p);
    var (nodes, left) := FindQuorum(q, local, msgs, p);
    EveryoneIff(ids, camp);
    EveryoneIff(ids, nodes);
    SearchDelivers(q.threshold, q.members, msgs, p, {local});
    assert nodes == camp;
    var v :| v in left;
    assert v in p;
  }

  /** Whatever satisfies `q` satisfies `r`. */
  ghost predicate AtLeastAsStrict(q: QuorumSet, r: QuorumSet) {
    forall nodes :: Satisfies(q, nodes) ==> Satisfies(r, nodes)
  }

  /** In particular when everyone else behind the predicate is behind one value and declares no stricter
      quorum set than the local one, as in a cluster in recommended mode. */
  lemma FindQuorumExact(q: QuorumSet, local: NodeId, msgs: Messages, p: set<Value>, v: Value)
    requires v in p
    requires forall n :: n in Supporters(msgs, p) && n != local ==>
               v in msgs[n].supports && AtLeastAsStrict(q, msgs[n].quorumSet)
    ensures Exact(q, local, msgs, p)
  {
    var camp := Camp(local, msgs, p);
    if Satisfies(q, camp) {
      forall n | n in camp && n != local
        ensures n in msgs && v in msgs[n].supports && Satisfies(msgs[n].quorumSet, camp)
      {
        assert AtLeastAsStrict(q, msgs[n].quorumSet);
      }
      CampIsExact(q, local, msgs, p, v);
    } else {
      SearchDelivers(q.threshold, q.members, msgs, p, {local});
      CountMonotone(q.members, FindQuorum(q, local, msgs, p).0, camp);
    }
  }

  // ----- only the nodes that can be reached matter -----

  /** `reach` holds every other node with a message that is named by a node in it. */
  ghost predicate Closed(reach: set<NodeId>, msgs: Messages, local: NodeId) {
    forall n :: n in reach && n in msgs ==> Names(msgs[n].quorumSet.members) * msgs.Keys <= reach + {local}
  }

  function Within(msgs: Messages, reach: set<NodeId>): Messages {
    map n | n in msgs && n in reach :: msgs[n]
  }

  /** The search reads no message of a node that cannot be reached by name, nor that of the local node. */
  lemma {:induction false} SearchReadsReach(threshold: nat, ms: seq<Member>, msgs: Messages, p: set<Value>,
                                            nodes: set<NodeId>, reach: set<NodeId>, local: NodeId)
    requires Closed(reach, msgs, local) && Names(ms) * msgs.Keys <= reach + {local} && local in nodes
    ensures Search(threshold, ms, msgs, p, nodes) == Search(threshold, ms, Within(msgs, reach), p, nodes)
    decreases msgs.Keys - nodes, Size(ms), 1
  {
    if 0 < threshold <= |ms| {
      match ms[0]
      case Node(n) =>
        if n in nodes {
          SearchReadsReach(threshold - 1, ms[1..], msgs, p, nodes, reach, local);
        } else if Supports(msgs, n, p) {
          NodeReadsReach(threshold, ms, msgs, p, nodes, reach, local);
        } else {
          SearchReadsReach(threshold, ms[1..], msgs, p, nodes, reach, local);
        }
      case Inner(q) =>
        InnerReadsReach(threshold, ms, msgs, p, nodes, reach, local);
      case Absent =>
        SearchReadsReach(threshold, ms[1..], msgs, p, nodes, reach, local);
    }
  }

  lemma {:induction false} NodeReadsReach(threshold: nat, ms: seq<Member>, msgs: Messages, p: set<Value>,
                                          nodes: set<NodeId>, reach: set<NodeId>, local: NodeId)
    requires 0 < threshold <= |ms| && ms[0].Node? && ms[0].id !in nodes && Supports(msgs, ms[0].id, p)
    requires Closed(reach, msgs, local) && Names(ms) * msgs.Keys <= reach + {local} && local in nodes
    ensures Supports(Within(msgs, reach), ms[0].id, p)
    ensures TryNode(threshold, ms, msgs, p, nodes) == TryNode(threshold, ms, Within(msgs, reach), p, nodes)
    decreases msgs.Keys - nodes, Size(ms), 0
  {
    var n := ms[0].id;
    assert n in Names(ms) * msgs.Keys;
    var q, narrowed := msgs[n].quorumSet, p * msgs[n].supports;
    SearchReadsReach(q.threshold, q.members, msgs, narrowed, nodes + {n}, reach, local);
    var (p1, nodes1) := Search(q.threshold, q.members, msgs, narrowed, nodes + {n});
    if p1.Some? {
      SearchReadsReach(threshold - 1, ms[1..], msgs, p1.value, nodes1, reach, local);
      var nodes2 := Search(threshold - 1, ms[1..], msgs, p1.value, nodes1).1;
      SearchReadsReach(threshold, ms[1..], msgs, p, nodes2 - {n}, reach, local);
    } else {
      SearchReadsReach(threshold, ms[1..], msgs, p, nodes1 - {n}, reach, local);
    }
  }

  lemma {:induction false} InnerReadsReach(threshold: nat, ms: seq<Member>, msgs: Messages, p: set<Value>,
                                           nodes: set<NodeId>, reach: set<NodeId>, local: NodeId)
    requires 0 < threshold <= |ms| && ms[0].Inner?
    requires Closed(reach, msgs, local) && Names(ms) * msgs.Keys <= reach + {local} && local in nodes
    ensures TryInner(threshold, ms, msgs, p, nodes) == TryInner(threshold, ms, Within(msgs, reach), p, nodes)
    decreases msgs.Keys - nodes, Size(ms), 0
  {
    var q := ms[0].inner;
    SearchReadsReach(q.threshold, q.members, msgs, p, nodes, reach, local);
    SearchReadsReach(threshold, ms[1..], msgs, p, nodes, reach, local);
    var (p1, nodes1) := Search(q.threshold, q.members, msgs, p, nodes);
    if p1.Some? {
      SearchReadsReach(threshold - 1, ms[1..], msgs, p1.value, nodes1, reach, local);
    }
  }

  /** So only the reachable part of the camp has to be a quorum. */
  lemma ReachIsExact(q: QuorumSet, local: NodeId, msgs: Messages, p: set<Value>, v: Value, reach: set<NodeId>)
    requires Closed(reach, msgs, local) && Names(q.members) * msgs.Keys <= reach + {local}
    requires v in p && IsQuorumFor(Camp(local, msgs, p) * (reach + {local}), msgs, v, {local})
    ensures Exact(q, local, msgs, p)
  {
    var view, camp := Within(msgs, reach), Camp(local, msgs, p);
    var part := Camp(local, view, p);
    ReachableCamp(local, msgs, p, reach);
    CampIsExact(q, local, view, p, v);
    SearchReadsReach(q.threshold, q.members, msgs, p, {local}, reach, local);
    assert Names(q.members) * camp <= part;
    CountNamed(q.members, camp, part);
    CountMonotone(q.members, part, camp);
  }

  lemma ReachableCamp(local: NodeId, msgs: Messages, p: set<Value>, reach: set<NodeId>)
    ensures Camp(local, Within(msgs, reach), p) == Camp(local, msgs, p) * (reach + {local})
  {
    var view := Within(msgs, reach);
    forall n ensures n in Supporters(view, p) <==> n in Supporters(msgs, p) && n in reach {
    }
  }
}

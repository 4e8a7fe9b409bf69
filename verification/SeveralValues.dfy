/**
 The quorum search for a predicate that still holds several values, as nomination calls it
 (consensus/scp/src/slot.rs:1750-1797).  Exploring a node settles on the values its own quorum set was
 found for, and that choice is not revisited.
 */
module SeveralValues {
  import opened Machine
  import opened QuorumSearch

  // ----- when a value cannot be lost -----

  /** Whatever the call, if a quorum for `v` exists the search succeeds with `v` among the values left. */
  ghost predicate NeverLoses(msgs: Messages, p: set<Value>, v: Value) {
    forall threshold, ms, nodes, quorum ::
      IsQuorumFor(quorum, msgs, v, nodes) && Count(ms, quorum + nodes) >= threshold ==>
        FindsValue(threshold, ms, msgs, p, v, nodes)
  }

  /** Some set of nodes satisfies `q`. */
  predicate Satisfiable(q: QuorumSet) {
    Satisfies(q, Names(q.members))
  }

  /** Every node behind the predicate, if its own set can be satisfied at all, is behind `v`. */
  ghost predicate AllBehind(msgs: Messages, p: set<Value>, v: Value) {
    forall n :: n in Supporters(msgs, p) && Satisfiable(msgs[n].quorumSet) ==> v in msgs[n].supports
  }

  /** A value is safe in every call exactly when everyone behind the predicate is behind it. */
  lemma NeverLosesIff(msgs: Messages, p: set<Value>, v: Value)
    requires v in p
    ensures NeverLoses(msgs, p, v) <==> AllBehind(msgs, p, v)
  {
    if AllBehind(msgs, p, v) {
      forall threshold: nat, ms, nodes, quorum
        | IsQuorumFor(quorum, msgs, v, nodes) && Count(ms, quorum + nodes) >= threshold
        ensures FindsValue(threshold, ms, msgs, p, v, nodes)
      {
        var pool := Supporters(msgs, p) + nodes;
        BehindMeansBacked(msgs, p, v, nodes, pool);
        SearchComplete(threshold, ms, msgs, p, v, nodes, pool, quorum);
      }
    }
    if NeverLoses(msgs, p, v) {
      forall n | n in Supporters(msgs, p) && Satisfiable(msgs[n].quorumSet) ensures v in msgs[n].supports {
        DissenterTakesOver(msgs, p, v, n);
        assert IsQuorumFor({}, msgs, v, Names(msgs[n].quorumSet.members) - {n});
      }
    }
  }

  lemma BehindMeansBacked(msgs: Messages, p: set<Value>, v: Value, counted: set<NodeId>, pool: set<NodeId>)
    requires AllBehind(msgs, p, v)
    ensures Backed(msgs, p, v, counted, pool)
  {
    forall n | n in Supporters(msgs, p) && Satisfies(msgs[n].quorumSet, pool) ensures v in msgs[n].supports {
      CountNamed(msgs[n].quorumSet.members, pool, Names(msgs[n].quorumSet.members));
    }
  }

  /** With every name already counted, a search succeeds exactly when the count suffices, and adds nothing. */
  lemma {:induction false} Settled(threshold: nat, ms: seq<Member>, msgs: Messages, p: set<Value>, nodes: set<NodeId>)
    requires Names(ms) <= nodes
    ensures Count(ms, nodes) >= threshold ==> Search(threshold, ms, msgs, p, nodes) == (Some(p), nodes)
    ensures Count(ms, nodes) < threshold ==> Search(threshold, ms, msgs, p, nodes).0.None?
    decreases Size(ms)
  {
    CountBound(ms, nodes);
    SearchDelivers(threshold, ms, msgs, p, nodes);
    CountNamed(ms, Search(threshold, ms, msgs, p, nodes).1, nodes);
    if 0 < threshold <= |ms| {
      if ms[0].Inner? {
        Settled(ms[0].inner.threshold, ms[0].inner.members, msgs, p, nodes);
      }
      Settled(threshold - 1, ms[1..], msgs, p, nodes);
      Settled(threshold, ms[1..], msgs, p, nodes);
    }
  }

  /** Either the first member or a set that asks for nothing. */
  function OneOrNothing(n: NodeId): seq<Member> {
    [Node(n), Inner(QuorumSet(0, []))]
  }

  /** A node behind other values, met first, narrows `v` away. */
  lemma DissenterTakesOver(msgs: Messages, p: set<Value>, v: Value, n: NodeId)
    requires n in Supporters(msgs, p) && Satisfiable(msgs[n].quorumSet)
    ensures var nodes := Names(msgs[n].quorumSet.members) - {n};
            && Count(OneOrNothing(n), {} + nodes) >= 1
            && (v !in msgs[n].supports ==> !FindsValue(1, OneOrNothing(n), msgs, p, v, nodes))
  {
    var q, narrowed := msgs[n].quorumSet, p * msgs[n].supports;
    var nodes, ms := Names(q.members) - {n}, OneOrNothing(n);
    assert ms[1..] == [Inner(QuorumSet(0, []))] && ms[1..][0] == Inner(QuorumSet(0, []));
    assert Count([], {} + nodes) == 0;
    assert Count(ms[1..], {} + nodes) >= 1;
    CountMonotone(q.members, Names(q.members), nodes + {n});
    Settled(q.threshold, q.members, msgs, narrowed, nodes + {n});
    assert Search(0, ms[1..], msgs, narrowed, nodes + {n}) == (Some(narrowed), nodes + {n});
    assert TryNode(1, ms, msgs, p, nodes) == (Some(narrowed), nodes + {n});
  }

  // ----- one value standing for several -----

  /** Everyone behind the predicate and not yet counted is behind `v`. */
  ghost predicate AllFor(msgs: Messages, p: set<Value>, v: Value, counted: set<NodeId>) {
    v in p && forall n :: n in Supporters(msgs, p) && n !in counted ==> v in msgs[n].supports
  }

  lemma AllForOn(msgs: Messages, p: set<Value>, p1: set<Value>, v: Value, counted: set<NodeId>, more: set<NodeId>)
    requires AllFor(msgs, p, v, counted) && v in p1 && p1 <= p && counted <= more
    ensures AllFor(msgs, p1, v, more)
  {
    SupportersMonotone(msgs, p1, p);
  }

  lemma SameSupport(msgs: Messages, p: set<Value>, v: Value, counted: set<NodeId>, n: NodeId)
    requires AllFor(msgs, p, v, counted) && n !in counted
    ensures Supports(msgs, n, p) <==> Supports(msgs, n, {v})
    ensures Supports(msgs, n, p) ==> v in p * msgs[n].supports && {v} * msgs[n].supports == {v}
  {
    if Supports(msgs, n, p) {
      assert n in Supporters(msgs, p);
      assert v in {v} * msgs[n].supports;
    }
    if Supports(msgs, n, {v}) {
      assert v in p * msgs[n].supports;
    }
  }

  /** The two results agree on success and on the nodes, and `v` is left in the wider one. */
  ghost predicate Agrees(v: Value, p: set<Value>, wide: (Option<set<Value>>, set<NodeId>),
                         narrow: (Option<set<Value>>, set<NodeId>)) {
    && wide.1 == narrow.1
    && (wide.0.Some? <==> narrow.0.Some?)
    && (wide.0.Some? ==> v in wide.0.value && wide.0.value <= p && narrow.0.value == {v})
  }

  /** Then the search for the predicate is the search for `v`, step by step. */
  lemma {:induction false} SameSearch(threshold: nat, ms: seq<Member>, msgs: Messages, p: set<Value>, v: Value,
                                      nodes: set<NodeId>)
    requires AllFor(msgs, p, v, nodes)
    ensures Agrees(v, p, Search(threshold, ms, msgs, p, nodes), Search(threshold, ms, msgs, {v}, nodes))
    decreases msgs.Keys - nodes, Size(ms), 1
  {
    if 0 < threshold <= |ms| {
      match ms[0]
      case Node(n) =>
        if n in nodes {
          SameSearch(threshold - 1, ms[1..], msgs, p, v, nodes);
        } else {
          SameSupport(msgs, p, v, nodes, n);
          if Supports(msgs, n, p) {
            SameNode(threshold, ms, msgs, p, v, nodes);
          } else {
            SameSearch(threshold, ms[1..], msgs, p, v, nodes);
          }
        }
      case Inner(q) =>
        SameInner(threshold, ms, msgs, p, v, nodes);
      case Absent =>
        SameSearch(threshold, ms[1..], msgs, p, v, nodes);
    }
  }

  lemma {:induction false} SameNode(threshold: nat, ms: seq<Member>, msgs: Messages, p: set<Value>, v: Value,
                                    nodes: set<NodeId>)
    requires 0 < threshold <= |ms| && ms[0].Node? && ms[0].id !in nodes && AllFor(msgs, p, v, nodes)
    requires Supports(msgs, ms[0].id, p) && Supports(msgs, ms[0].id, {v})
    ensures Agrees(v, p, TryNode(threshold, ms, msgs, p, nodes), TryNode(threshold, ms, msgs, {v}, nodes))
    decreases msgs.Keys - nodes, Size(ms), 0
  {
    var n := ms[0].id;
    var q, narrowed := msgs[n].quorumSet, p * msgs[n].supports;
    SameSupport(msgs, p, v, nodes, n);
    AllForOn(msgs, p, narrowed, v, nodes, nodes + {n});
    SameSearch(q.threshold, q.members, msgs, narrowed, v, nodes + {n});
    var (p1, nodes1) := Search(q.threshold, q.members, msgs, narrowed, nodes + {n});
    if p1.Some? {
      AllForOn(msgs, p, p1.value, v, nodes, nodes1);
      SameSearch(threshold - 1, ms[1..], msgs, p1.value, v, nodes1);
      var nodes2 := Search(threshold - 1, ms[1..], msgs, p1.value, nodes1).1;
      AllForOn(msgs, p, p, v, nodes, nodes2 - {n});
      SameSearch(threshold, ms[1..], msgs, p, v, nodes2 - {n});
    } else {
      AllForOn(msgs, p, p, v, nodes, nodes1 - {n});
      SameSearch(threshold, ms[1..], msgs, p, v, nodes1 - {n});
    }
  }

  lemma {:induction false} SameInner(threshold: nat, ms: seq<Member>, msgs: Messages, p: set<Value>, v: Value,
                                     nodes: set<NodeId>)
    requires 0 < threshold <= |ms| && ms[0].Inner? && AllFor(msgs, p, v, nodes)
    ensures Agrees(v, p, TryInner(threshold, ms, msgs, p, nodes), TryInner(threshold, ms, msgs, {v}, nodes))
    decreases msgs.Keys - nodes, Size(ms), 0
  {
    var q := ms[0].inner;
    SameSearch(q.threshold, q.members, msgs, p, v, nodes);
    SameSearch(threshold, ms[1..], msgs, p, v, nodes);
    var (p1, nodes1) := Search(q.threshold, q.members, msgs, p, nodes);
    if p1.Some? {
      AllForOn(msgs, p, p1.value, v, nodes, nodes1);
      SameSearch(threshold - 1, ms[1..], msgs, p1.value, v, nodes1);
    }
  }

  /** Everything proved of the search for one value then holds of the search for several. */
  lemma FindsAsForOne(q: QuorumSet, local: NodeId, msgs: Messages, p: set<Value>, v: Value)
    requires AllFor(msgs, p, v, {local})
    ensures FindQuorum(q, local, msgs, p).0 == FindQuorum(q, local, msgs, {v}).0
    ensures v in FindQuorum(q, local, msgs, p).1
  {
    SameSearch(q.threshold, q.members, msgs, p, v, {local});
  }

  // ----- a quorum that is missed -----

  function SplitMessages(): Messages {
    map[1 := Msg(QuorumSet(1, [Node(2), Node(3)]), {0, 1}),
        2 := Msg(QuorumSet(1, [Node(2)]), {1}),
        3 := Msg(QuorumSet(1, [Node(3)]), {0}),
        4 := Msg(QuorumSet(1, [Node(4)]), {0})]
  }

  const BOTH_ONE_AND_FOUR: QuorumSet := QuorumSet(2, [Node(1), Node(4)])

  /** Exploring node 1 settles on value 1 by way of node 2; node 4 is behind value 0 only.  The search
      for both values finds nothing, although a quorum for value 0 exists and the search for it alone
      finds one. */
  lemma SeveralValuesMissQuorum()
    ensures FindQuorum(BOTH_ONE_AND_FOUR, 0, SplitMessages(), {0, 1}).0 == {}
    ensures IsQuorumFor({1, 3, 4}, SplitMessages(), 0, {0}) && Satisfies(BOTH_ONE_AND_FOUR, {1, 3, 4} + {0})
    ensures FindQuorum(BOTH_ONE_AND_FOUR, 0, SplitMessages(), {0}).0 != {}
  {
    SplitRun();
    SplitQuorum();
    FindQuorumCompleteForOne(BOTH_ONE_AND_FOUR, 0, SplitMessages(), 0, {1, 3, 4});
  }

  lemma SplitQuorum()
    ensures IsQuorumFor({1, 3, 4}, SplitMessages(), 0, {0}) && Satisfies(BOTH_ONE_AND_FOUR, {1, 3, 4} + {0})
  {
    var quorum: set<NodeId> := {1, 3, 4};
    CountTwo(2, 3, quorum);
    CountTwo(3, 4, quorum);
    CountTwo(1, 4, quorum + {0});
  }

  lemma SplitRun()
    ensures Search(2, [Node(1), Node(4)], SplitMessages(), {0, 1}, {0}).0 == None
  {
    var msgs := SplitMessages();
    var both, one: set<Value> := {0, 1}, {1};
    assert both * {0, 1} == both && both * {1} == one && one * {0} == {} && both * {0} == {0};
    assert [Node(1), Node(4)][1..] == [Node(4)] && [Node(2), Node(3)][1..] == [Node(3)];
    assert {0} + {1} == {0, 1} && {0, 1} + {2} == {0, 1, 2};
    assert Search(1, [Node(2)], msgs, one, {0, 1, 2}) == (Some(one), {0, 1, 2});
    assert TryNode(1, [Node(2), Node(3)], msgs, both, {0, 1}) == (Some(one), {0, 1, 2});
    assert Search(1, [Node(2), Node(3)], msgs, both, {0, 1}) == (Some(one), {0, 1, 2});
    assert Search(1, [Node(4)], msgs, one, {0, 1, 2}) == (None, {0, 1, 2});
    assert Search(2, [Node(4)], msgs, both, {0, 1, 2} - {1}) == (None, {0, 1, 2} - {1});
    assert TryNode(2, [Node(1), Node(4)], msgs, both, {0}).0 == None;
  }
}

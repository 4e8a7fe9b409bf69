/**
 What the quorum search owes to its backtracking: when a failed call hands its nodes back unchanged, as
 its documentation says, and what follows for the sets it finds
 (consensus/scp/src/quorum_set_ext.rs).
 */
module Backtracking {
  import opened Machine
  import opened QuorumSearch
  import opened SupporterQuorums

  // ----- when failed calls restore -----

  ghost predicate RestoredAfter(threshold: nat, ms: seq<Member>, msgs: Messages, p: set<Value>, nodes: set<NodeId>) {
    var r := Search(threshold, ms, msgs, p, nodes);
    r.0.None? ==> r.1 == nodes
  }

  /** Every failed search over these messages leaves its nodes as they were. */
  ghost predicate AlwaysRestores(msgs: Messages) {
    forall threshold, ms, p, nodes :: RestoredAfter(threshold, ms, msgs, p, nodes)
  }

  /** Exploring the quorum set that `n` declares succeeds by bringing in further nodes. */
  ghost predicate Recruits(msgs: Messages, n: NodeId, p: set<Value>, nodes: set<NodeId>) {
    && n !in nodes && Supports(msgs, n, p)
    && var q := msgs[n].quorumSet;
       var r := Search(q.threshold, q.members, msgs, p * msgs[n].supports, nodes + {n});
       r.0.Some? && r.1 != nodes + {n}
  }

  ghost predicate NoneRecruits(msgs: Messages) {
    forall n, p, nodes :: !Recruits(msgs, n, p, nodes)
  }

  /** The documented restoration holds exactly when no node's own quorum set ever brings in another. */
  lemma RestoresIff(msgs: Messages)
    ensures AlwaysRestores(msgs) <==> NoneRecruits(msgs)
  {
    if NoneRecruits(msgs) {
      forall threshold, ms, p, nodes ensures RestoredAfter(threshold, ms, msgs, p, nodes) {
        SearchRestores(threshold, ms, msgs, p, nodes);
      }
    }
    if AlwaysRestores(msgs) {
      forall n, p, nodes ensures !Recruits(msgs, n, p, nodes) {
        if Recruits(msgs, n, p, nodes) {
          RecruitStays(msgs, n, p, nodes);
        }
      }
    }
  }

  /** A recruit outlives the failure of the node that brought it in. */
  lemma RecruitStays(msgs: Messages, n: NodeId, p: set<Value>, nodes: set<NodeId>)
    requires Recruits(msgs, n, p, nodes)
    ensures !RestoredAfter(2, [Node(n), Absent], msgs, p, nodes)
  {
    var ms, q := [Node(n), Absent], msgs[n].quorumSet;
    assert ms[1..] == [Absent];
    var r := Search(q.threshold, q.members, msgs, p * msgs[n].supports, nodes + {n});
    OnlyAbsent(1, msgs, r.0.value, r.1);
    OnlyAbsent(2, msgs, p, r.1 - {n});
    assert Search(2, ms, msgs, p, nodes) == TryNode(2, ms, msgs, p, nodes) == (None, r.1 - {n});
    var m :| m in r.1 && m !in nodes + {n};
    assert m in r.1 - {n};
  }

  lemma OnlyAbsent(threshold: nat, msgs: Messages, p: set<Value>, nodes: set<NodeId>)
    requires threshold > 0
    ensures Search(threshold, [Absent], msgs, p, nodes) == (None, nodes)
  {
    assert [Absent][1..] == [];
    assert Search(threshold, [], msgs, p, nodes) == (None, nodes);
  }

  lemma {:induction false} SearchRestores(threshold: nat, ms: seq<Member>, msgs: Messages, p: set<Value>,
                                          nodes: set<NodeId>)
    requires NoneRecruits(msgs)
    ensures RestoredAfter(threshold, ms, msgs, p, nodes)
    decreases msgs.Keys - nodes, Size(ms), 1
  {
    if 0 < threshold <= |ms| {
      match ms[0]
      case Node(n) =>
        if n in nodes {
          SearchRestores(threshold - 1, ms[1..], msgs, p, nodes);
        } else if Supports(msgs, n, p) {
          NodeRestores(threshold, ms, msgs, p, nodes);
        } else {
          SearchRestores(threshold, ms[1..], msgs, p, nodes);
        }
      case Inner(q) =>
        SearchRestores(threshold, ms[1..], msgs, p, nodes);
      case Absent =>
        SearchRestores(threshold, ms[1..], msgs, p, nodes);
    }
  }

  lemma {:induction false} NodeRestores(threshold: nat, ms: seq<Member>, msgs: Messages, p: set<Value>,
                                        nodes: set<NodeId>)
    requires NoneRecruits(msgs)
    requires 0 < threshold <= |ms| && ms[0].Node? && ms[0].id !in nodes && Supports(msgs, ms[0].id, p)
    ensures var r := TryNode(threshold, ms, msgs, p, nodes);
            r.0.None? ==> r.1 == nodes
    decreases msgs.Keys - nodes, Size(ms), 0
  {
    var n := ms[0].id;
    var q := msgs[n].quorumSet;
    var (p1, nodes1) := Search(q.threshold, q.members, msgs, p * msgs[n].supports, nodes + {n});
    SearchRestores(q.threshold, q.members, msgs, p * msgs[n].supports, nodes + {n});
    assert !Recruits(msgs, n, p, nodes);
    assert nodes1 == nodes + {n} && nodes1 - {n} == nodes;
    SearchRestores(threshold, ms[1..], msgs, p, nodes);
    if p1.Some? {
      SearchRestores(threshold - 1, ms[1..], msgs, p1.value, nodes1);
    }
  }

  /** No node declares a quorum set that names another node with a message. */
  ghost predicate SelfReliant(msgs: Messages) {
    forall n :: n in msgs ==> Names(msgs[n].quorumSet.members) * msgs.Keys <= {n}
  }

  /** A condition on the messages alone under which failed calls restore. */
  lemma SelfReliantRestores(msgs: Messages)
    requires SelfReliant(msgs)
    ensures AlwaysRestores(msgs)
  {
    forall n, p, nodes ensures !Recruits(msgs, n, p, nodes) {
      if Supports(msgs, n, p) {
        var q := msgs[n].quorumSet;
        NothingToAdd(q.threshold, q.members, msgs, p * msgs[n].supports, nodes + {n});
      }
    }
    RestoresIff(msgs);
  }

  /** When every named node with a message is already counted, nothing is added. */
  lemma {:induction false} NothingToAdd(threshold: nat, ms: seq<Member>, msgs: Messages, p: set<Value>,
                                        nodes: set<NodeId>)
    requires Names(ms) * msgs.Keys <= nodes
    ensures Search(threshold, ms, msgs, p, nodes).1 == nodes
    decreases Size(ms)
  {
    if 0 < threshold <= |ms| {
      NothingToAdd(threshold, ms[1..], msgs, p, nodes);
      NothingToAdd(threshold - 1, ms[1..], msgs, p, nodes);
      match ms[0]
      case Node(n) =>
        assert n in Names(ms);
      case Inner(q) =>
        NothingToAdd(q.threshold, q.members, msgs, p, nodes);
        var p1 := Search(q.threshold, q.members, msgs, p, nodes).0;
        if p1.Some? {
          NothingToAdd(threshold - 1, ms[1..], msgs, p1.value, nodes);
        }
      case Absent =>
    }
  }

  // ----- what a search that left nothing behind has found -----

  /** Whatever this search gave up on the way to its result, it handed back. */
  ghost predicate Clean(threshold: nat, ms: seq<Member>, msgs: Messages, p: set<Value>, nodes: set<NodeId>)
    decreases msgs.Keys - nodes, Size(ms), 1
  {
    0 < threshold <= |ms| ==>
      match ms[0]
      case Node(n) =>
        if n in nodes then Clean(threshold - 1, ms[1..], msgs, p, nodes)
        else if Supports(msgs, n, p) then CleanNode(threshold, ms, msgs, p, nodes)
        else Clean(threshold, ms[1..], msgs, p, nodes)
      case Inner(_) => CleanInner(threshold, ms, msgs, p, nodes)
      case Absent => Clean(threshold, ms[1..], msgs, p, nodes)
  }

  ghost predicate CleanNode(threshold: nat, ms: seq<Member>, msgs: Messages, p: set<Value>, nodes: set<NodeId>)
    requires 0 < threshold <= |ms| && ms[0].Node? && ms[0].id !in nodes && Supports(msgs, ms[0].id, p)
    decreases msgs.Keys - nodes, Size(ms), 0
  {
    var n := ms[0].id;
    var q := msgs[n].quorumSet;
    var (p1, nodes1) := Search(q.threshold, q.members, msgs, p * msgs[n].supports, nodes + {n});
    if p1.Some? then
      var (p2, nodes2) := Search(threshold - 1, ms[1..], msgs, p1.value, nodes1);
      if p2.Some? then
        && Clean(q.threshold, q.members, msgs, p * msgs[n].supports, nodes + {n})
        && Clean(threshold - 1, ms[1..], msgs, p1.value, nodes1)
      else
        nodes2 - {n} == nodes && Clean(threshold, ms[1..], msgs, p, nodes)
    else
      nodes1 - {n} == nodes && Clean(threshold, ms[1..], msgs, p, nodes)
  }

  ghost predicate CleanInner(threshold: nat, ms: seq<Member>, msgs: Messages, p: set<Value>, nodes: set<NodeId>)
    requires 0 < threshold <= |ms| && ms[0].Inner?
    decreases msgs.Keys - nodes, Size(ms), 0
  {
    var q := ms[0].inner;
    var (p1, nodes1) := Search(q.threshold, q.members, msgs, p, nodes);
    if p1.Some? && Search(threshold - 1, ms[1..], msgs, p1.value, nodes1).0.Some? then
      && Clean(q.threshold, q.members, msgs, p, nodes)
      && Clean(threshold - 1, ms[1..], msgs, p1.value, nodes1)
    else Clean(threshold, ms[1..], msgs, p, nodes)
  }

  lemma {:induction false} CleanIsUpright(threshold: nat, ms: seq<Member>, msgs: Messages, p: set<Value>,
                                          nodes: set<NodeId>)
    requires Clean(threshold, ms, msgs, p, nodes)
    ensures Upright(msgs, nodes, Search(threshold, ms, msgs, p, nodes))
    decreases msgs.Keys - nodes, Size(ms), 1
  {
    if 0 < threshold <= |ms| {
      match ms[0]
      case Node(n) =>
        if n in nodes {
          CleanIsUpright(threshold - 1, ms[1..], msgs, p, nodes);
        } else if Supports(msgs, n, p) {
          CleanNodeIsUpright(threshold, ms, msgs, p, nodes);
        } else {
          CleanIsUpright(threshold, ms[1..], msgs, p, nodes);
        }
      case Inner(q) =>
        CleanInnerIsUpright(threshold, ms, msgs, p, nodes);
      case Absent =>
        CleanIsUpright(threshold, ms[1..], msgs, p, nodes);
    }
  }

  lemma {:induction false} CleanNodeIsUpright(threshold: nat, ms: seq<Member>, msgs: Messages, p: set<Value>,
                                              nodes: set<NodeId>)
    requires 0 < threshold <= |ms| && ms[0].Node? && ms[0].id !in nodes && Supports(msgs, ms[0].id, p)
    requires CleanNode(threshold, ms, msgs, p, nodes)
    ensures Upright(msgs, nodes, TryNode(threshold, ms, msgs, p, nodes))
    decreases msgs.Keys - nodes, Size(ms), 0
  {
    var n := ms[0].id;
    var q, narrowed := msgs[n].quorumSet, p * msgs[n].supports;
    var (p1, nodes1) := Search(q.threshold, q.members, msgs, narrowed, nodes + {n});
    if p1.Some? && Search(threshold - 1, ms[1..], msgs, p1.value, nodes1).0.Some? {
      CleanIsUpright(q.threshold, q.members, msgs, narrowed, nodes + {n});
      SearchDelivers(q.threshold, q.members, msgs, narrowed, nodes + {n});
      ExploredIsUpright(msgs, n, p, nodes, p1.value, nodes1);
      CleanIsUpright(threshold - 1, ms[1..], msgs, p1.value, nodes1);
      SearchDelivers(threshold - 1, ms[1..], msgs, p1.value, nodes1);
      UprightStages(msgs, nodes, nodes1, p1.value, Search(threshold - 1, ms[1..], msgs, p1.value, nodes1));
    } else {
      CleanIsUpright(threshold, ms[1..], msgs, p, nodes);
    }
  }

  lemma {:induction false} CleanInnerIsUpright(threshold: nat, ms: seq<Member>, msgs: Messages, p: set<Value>,
                                               nodes: set<NodeId>)
    requires 0 < threshold <= |ms| && ms[0].Inner?
    requires CleanInner(threshold, ms, msgs, p, nodes)
    ensures Upright(msgs, nodes, TryInner(threshold, ms, msgs, p, nodes))
    decreases msgs.Keys - nodes, Size(ms), 0
  {
    var q := ms[0].inner;
    var (p1, nodes1) := Search(q.threshold, q.members, msgs, p, nodes);
    if p1.Some? && Search(threshold - 1, ms[1..], msgs, p1.value, nodes1).0.Some? {
      CleanIsUpright(q.threshold, q.members, msgs, p, nodes);
      CleanIsUpright(threshold - 1, ms[1..], msgs, p1.value, nodes1);
      SearchDelivers(threshold - 1, ms[1..], msgs, p1.value, nodes1);
      UprightStages(msgs, nodes, nodes1, p1.value, Search(threshold - 1, ms[1..], msgs, p1.value, nodes1));
    } else {
      CleanIsUpright(threshold, ms[1..], msgs, p, nodes);
    }
  }

  /** If no node's own quorum set brings in another, no search leaves anything behind. */
  lemma {:induction false} NoneRecruitsIsClean(threshold: nat, ms: seq<Member>, msgs: Messages, p: set<Value>,
                                               nodes: set<NodeId>)
    requires NoneRecruits(msgs)
    ensures Clean(threshold, ms, msgs, p, nodes)
    decreases msgs.Keys - nodes, Size(ms), 1
  {
    if 0 < threshold <= |ms| {
      match ms[0]
      case Node(n) =>
        if n in nodes {
          NoneRecruitsIsClean(threshold - 1, ms[1..], msgs, p, nodes);
        } else if Supports(msgs, n, p) {
          NoneRecruitsNodeIsClean(threshold, ms, msgs, p, nodes);
        } else {
          NoneRecruitsIsClean(threshold, ms[1..], msgs, p, nodes);
        }
      case Inner(q) =>
        NoneRecruitsIsClean(q.threshold, q.members, msgs, p, nodes);
        NoneRecruitsIsClean(threshold, ms[1..], msgs, p, nodes);
        var (p1, nodes1) := Search(q.threshold, q.members, msgs, p, nodes);
        if p1.Some? {
          NoneRecruitsIsClean(threshold - 1, ms[1..], msgs, p1.value, nodes1);
        }
      case Absent =>
        NoneRecruitsIsClean(threshold, ms[1..], msgs, p, nodes);
    }
  }

  lemma {:induction false} NoneRecruitsNodeIsClean(threshold: nat, ms: seq<Member>, msgs: Messages, p: set<Value>,
                                                   nodes: set<NodeId>)
    requires NoneRecruits(msgs)
    requires 0 < threshold <= |ms| && ms[0].Node? && ms[0].id !in nodes && Supports(msgs, ms[0].id, p)
    ensures CleanNode(threshold, ms, msgs, p, nodes)
    decreases msgs.Keys - nodes, Size(ms), 0
  {
    var n := ms[0].id;
    var q, narrowed := msgs[n].quorumSet, p * msgs[n].supports;
    var (p1, nodes1) := Search(q.threshold, q.members, msgs, narrowed, nodes + {n});
    SearchRestores(q.threshold, q.members, msgs, narrowed, nodes + {n});
    assert !Recruits(msgs, n, p, nodes);
    assert nodes1 == nodes + {n} && nodes1 - {n} == nodes;
    NoneRecruitsIsClean(q.threshold, q.members, msgs, narrowed, nodes + {n});
    NoneRecruitsIsClean(threshold, ms[1..], msgs, p, nodes);
    if p1.Some? {
      SearchRestores(threshold - 1, ms[1..], msgs, p1.value, nodes1);
      NoneRecruitsIsClean(threshold - 1, ms[1..], msgs, p1.value, nodes1);
    }
  }

  /** For any predicate: what a search that left nothing behind has found is a quorum for every value
      it leaves, and it leaves some. */
  lemma CleanSearchIsUnanimous(q: QuorumSet, local: NodeId, msgs: Messages, p: set<Value>)
    requires Clean(q.threshold, q.members, msgs, p, {local}) && p != {}
    ensures var (nodes, left) := FindQuorum(q, local, msgs, p);
            nodes != {} ==>
              && Satisfies(q, nodes) && {} < left <= p
              && Unanimous(nodes - {local}, msgs, left)
              && (forall v :: v in left ==> IsQuorumFor(nodes, msgs, v, {local}))
  {
    CleanIsUpright(q.threshold, q.members, msgs, p, {local});
    SearchDelivers(q.threshold, q.members, msgs, p, {local});
    var (nodes, left) := FindQuorum(q, local, msgs, p);
    if nodes != {} {
      forall v | v in left ensures IsQuorumFor(nodes, msgs, v, {local}) {
        forall n | n in nodes && n != local ensures v in msgs[n].supports {
          assert n in nodes - {local};
        }
      }
    }
  }

  /** So with self-reliant messages the set found is a quorum for every value left, for any predicate. */
  lemma SelfReliantIsUnanimous(q: QuorumSet, local: NodeId, msgs: Messages, p: set<Value>)
    requires SelfReliant(msgs) && p != {}
    ensures var (nodes, left) := FindQuorum(q, local, msgs, p);
            nodes != {} ==>
              && Satisfies(q, nodes) && {} < left <= p
              && (forall v :: v in left ==> IsQuorumFor(nodes, msgs, v, {local}))
  {
    SelfReliantRestores(msgs);
    RestoresIff(msgs);
    NoneRecruitsIsClean(q.threshold, q.members, msgs, p, {local});
    CleanSearchIsUnanimous(q, local, msgs, p);
  }

  ghost predicate HasQuorum(q: QuorumSet, local: NodeId, msgs: Messages, v: Value) {
    exists quorum :: IsQuorumFor(quorum, msgs, v, {local}) && Satisfies(q, quorum + {local})
  }

  /** With nothing left behind the answer is exact: a set is found if and only if a quorum for the value
      exists, and what is found is one. */
  lemma CleanSearchIsExact(q: QuorumSet, local: NodeId, msgs: Messages, v: Value)
    requires Clean(q.threshold, q.members, msgs, {v}, {local})
    ensures var nodes := FindQuorum(q, local, msgs, {v}).0;
            && (nodes != {} ==> IsQuorumFor(nodes, msgs, v, {local}) && Satisfies(q, nodes))
            && (nodes != {} <==> HasQuorum(q, local, msgs, v))
  {
    FindQuorumGuarantee(q, local, msgs, v);
    CleanSearchIsUnanimous(q, local, msgs, {v});
    var (nodes, left) := FindQuorum(q, local, msgs, {v});
    if nodes != {} {
      SingletonLeft(left, v);
      assert v in left;
      assert nodes + {local} == nodes;
    }
    if HasQuorum(q, local, msgs, v) {
      var quorum :| IsQuorumFor(quorum, msgs, v, {local}) && Satisfies(q, quorum + {local});
      FindQuorumCompleteForOne(q, local, msgs, v, quorum);
    }
  }

  // ----- and one that did not -----

  function DissentMessages(): Messages {
    map[1 := Msg(QuorumSet(2, [Node(2), Node(4)]), {0, 1}),
        2 := Msg(QuorumSet(1, [Node(3)]), {0, 1}),
        3 := Msg(QuorumSet(1, [Node(1)]), {1})]
  }

  /** A node left behind need not be behind the values left: node 3 is returned, and value 0 with it. */
  lemma StrayNodeDissents()
    ensures FindQuorum(QuorumSet(1, [Node(1), Node(2)]), 0, DissentMessages(), {0, 1}) == ({0, 2, 3}, {0, 1})
    ensures !Unanimous({0, 2, 3} - {0}, DissentMessages(), {0, 1})
  {
    var msgs := DissentMessages();
    DissentFails();
    var both: set<Value> := {0, 1};
    assert both * {0, 1} == both;
    assert [Node(1), Node(2)][1..] == [Node(2)];
    assert {0} + {1} == {0, 1} && {0, 1, 3} - {1} == {0, 3} && {0, 3} + {2} == {0, 2, 3};
    assert Search(1, [Node(3)], msgs, both, {0, 2, 3}) == (Some(both), {0, 2, 3});
    assert TryNode(1, [Node(2)], msgs, both, {0, 3}) == (Some(both), {0, 2, 3});
    assert 3 in {0, 2, 3} - {0} && 0 !in msgs[3].supports;
  }

  lemma DissentFails()
    ensures Search(2, [Node(2), Node(4)], DissentMessages(), {0, 1}, {0, 1}) == (None, {0, 1, 3})
  {
    var msgs := DissentMessages();
    var both, one: set<Value> := {0, 1}, {1};
    assert both * {0, 1} == both && both * {1} == one;
    var start: set<NodeId> := {0, 1};
    assert [Node(2), Node(4)][1..] == [Node(4)];
    assert Search(1, [Node(1)], msgs, one, start + {2} + {3}) == (Some(one), start + {2} + {3});
    assert TryNode(1, [Node(3)], msgs, both, start + {2}) == (Some(one), start + {2} + {3});
    assert Search(1, [Node(3)], msgs, both, start + {2}) == (Some(one), start + {2} + {3});
    assert Search(1, [Node(4)], msgs, one, start + {2} + {3}) == (None, start + {2} + {3});
    assert start + {2} + {3} - {2} == {0, 1, 3};
    assert Search(2, [Node(4)], msgs, both, {0, 1, 3}) == (None, {0, 1, 3});
  }
}

/**
 The search federated voting rests on: `findQuorum` over nested quorum sets
 (consensus/scp/src/quorum_set_ext.rs).

 A search carries a predicate, modelled as the set of values still possible; testing it on a message
 narrows it to the values that message supports and fails when none is left.  A singleton set is the
 source's plain yes-or-no predicate.  `nodes_so_far`, mutated in place by the source, is threaded
 through as a value.
 */
module QuorumSearch {
  import opened Machine
  import opened Sequences
  import Quorum

  type NodeId = nat
  type Value = nat

  datatype Member = Node(id: NodeId) | Inner(inner: QuorumSet) | Absent

  datatype QuorumSet = QuorumSet(threshold: U32, members: seq<Member>)

  /** The newest message of a node: the quorum set it declares and the values it supports. */
  datatype Msg = Msg(quorumSet: QuorumSet, supports: set<Value>)

  type Messages = map<NodeId, Msg>

  /** A measure for recursion through nested sets. */
  function Size(ms: seq<Member>): nat {
    if ms == [] then 0 else MemberSize(ms[0]) + Size(ms[1..])
  }

  function MemberSize(m: Member): (r: nat)
    ensures r >= 1
    ensures m.Inner? ==> r > Size(m.inner.members)
  {
    1 + if m.Inner? then Size(m.inner.members) else 0
  }

  // ----- what a set of nodes satisfies -----

  predicate Satisfied(m: Member, nodes: set<NodeId>) {
    match m
    case Node(id) => id in nodes
    case Inner(q) => Count(q.members, nodes) >= q.threshold
    case Absent => false
  }

  /** How many of the members `nodes` satisfies. */
  function Count(ms: seq<Member>, nodes: set<NodeId>): nat {
    if ms == [] then 0 else (if Satisfied(ms[0], nodes) then 1 else 0) + Count(ms[1..], nodes)
  }

  /** `nodes` contains a slice of `q`. */
  predicate Satisfies(q: QuorumSet, nodes: set<NodeId>) {
    Count(q.members, nodes) >= q.threshold
  }

  lemma {:induction false} CountMonotone(ms: seq<Member>, a: set<NodeId>, b: set<NodeId>)
    requires a <= b
    ensures Count(ms, a) <= Count(ms, b)
    decreases Size(ms)
  {
    if ms != [] {
      if ms[0].Inner? {
        CountMonotone(ms[0].inner.members, a, b);
      }
      CountMonotone(ms[1..], a, b);
    }
  }

  /** Every node named at any depth. */
  function Names(ms: seq<Member>): set<NodeId>
    decreases Size(ms)
  {
    if ms == [] then {}
    else (match ms[0]
          case Node(id) => {id}
          case Inner(q) => Names(q.members)
          case Absent => {}) + Names(ms[1..])
  }

  /** Only named nodes count. */
  lemma {:induction false} CountNamed(ms: seq<Member>, a: set<NodeId>, b: set<NodeId>)
    requires Names(ms) * a <= b
    ensures Count(ms, a) <= Count(ms, b)
    decreases Size(ms)
  {
    if ms != [] {
      if ms[0].Inner? {
        CountNamed(ms[0].inner.members, a, b);
      }
      CountNamed(ms[1..], a, b);
    }
  }

  // ----- the quorum search -----

  /** `findQuorumHelperMut`: the narrowed predicate on success, and the nodes as the call leaves them. */
  function Search(threshold: nat, ms: seq<Member>, msgs: Messages, p: set<Value>, nodes: set<NodeId>)
    : (r: (Option<set<Value>>, set<NodeId>))
    ensures nodes <= r.1 <= nodes + msgs.Keys
    decreases msgs.Keys - nodes, Size(ms), 1
  {
    if threshold == 0 then (Some(p), nodes)
    else if threshold > |ms| then (None, nodes)
    else
      match ms[0]
      case Node(n) =>
        if n in nodes then Search(threshold - 1, ms[1..], msgs, p, nodes)
        else if Supports(msgs, n, p) then TryNode(threshold, ms, msgs, p, nodes)
        else Search(threshold, ms[1..], msgs, p, nodes)
      case Inner(_) => TryInner(threshold, ms, msgs, p, nodes)
      case Absent => Search(threshold, ms[1..], msgs, p, nodes)
  }

  /** The predicate accepts the message of `n`. */
  predicate Supports(msgs: Messages, n: NodeId, p: set<Value>) {
    n in msgs && p * msgs[n].supports != {}
  }

  /** Add a supporting node, look for its own slice, then for the other members; on failure take back
      only the node itself. */
  function TryNode(threshold: nat, ms: seq<Member>, msgs: Messages, p: set<Value>, nodes: set<NodeId>)
    : (r: (Option<set<Value>>, set<NodeId>))
    requires 0 < threshold <= |ms| && ms[0].Node? && ms[0].id !in nodes && Supports(msgs, ms[0].id, p)
    ensures nodes <= r.1 <= nodes + msgs.Keys
    decreases msgs.Keys - nodes, Size(ms), 0
  {
    var n := ms[0].id;
    var q := msgs[n].quorumSet;
    var (p1, nodes1) := Search(q.threshold, q.members, msgs, p * msgs[n].supports, nodes + {n});
    if p1.Some? then
      var (p2, nodes2) := Search(threshold - 1, ms[1..], msgs, p1.value, nodes1);
      if p2.Some? then (p2, nodes2)
      else Search(threshold, ms[1..], msgs, p, nodes2 - {n})
    else Search(threshold, ms[1..], msgs, p, nodes1 - {n})
  }

  /** An inner set is tried whole; on failure the snapshot is restored. */
  function TryInner(threshold: nat, ms: seq<Member>, msgs: Messages, p: set<Value>, nodes: set<NodeId>)
    : (r: (Option<set<Value>>, set<NodeId>))
    requires 0 < threshold <= |ms| && ms[0].Inner?
    ensures nodes <= r.1 <= nodes + msgs.Keys
    decreases msgs.Keys - nodes, Size(ms), 0
  {
    var q := ms[0].inner;
    var (p1, nodes1) := Search(q.threshold, q.members, msgs, p, nodes);
    if p1.Some? then
      var (p2, nodes2) := Search(threshold - 1, ms[1..], msgs, p1.value, nodes1);
      if p2.Some? then (p2, nodes2)
      else Search(threshold, ms[1..], msgs, p, nodes)
    else Search(threshold, ms[1..], msgs, p, nodes)
  }

  /** `findQuorum`: empty when there is none. */
  function FindQuorum(q: QuorumSet, local: NodeId, msgs: Messages, p: set<Value>): (set<NodeId>, set<Value>) {
    var (p1, nodes) := Search(q.threshold, q.members, msgs, p, {local});
    if p1.Some? then (nodes, p1.value) else ({}, p)
  }

  /** Nodes whose message supports some value of `p`. */
  function Supporters(msgs: Messages, p: set<Value>): set<NodeId> {
    set n | n in msgs && Supports(msgs, n, p)
  }

  /** Every node supports every value left. */
  ghost predicate Unanimous(nodes: set<NodeId>, msgs: Messages, p: set<Value>) {
    forall n :: n in nodes ==> n in msgs && p <= msgs[n].supports
  }

  lemma SupportersMonotone(msgs: Messages, p1: set<Value>, p: set<Value>)
    requires p1 <= p
    ensures Supporters(msgs, p1) <= Supporters(msgs, p)
  {
    forall n | n in Supporters(msgs, p1) ensures n in Supporters(msgs, p) {
      assert p1 * msgs[n].supports <= p * msgs[n].supports;
    }
  }

  lemma SingletonLeft(p: set<Value>, v: Value)
    ensures p <= {v} && p != {} ==> p == {v}
  {
    if p <= {v} && p != {} {
      var x :| x in p;
      assert x in {v};
    }
  }

  /** Every node added supports a value of the predicate; success satisfies `threshold` of `ms` and leaves
      a narrower, non-empty predicate. */
  ghost predicate Delivers(threshold: nat, ms: seq<Member>, msgs: Messages, p: set<Value>, nodes: set<NodeId>,
                           r: (Option<set<Value>>, set<NodeId>)) {
    && r.1 <= nodes + Supporters(msgs, p)
    && (r.0.Some? ==> r.0.value <= p && (p != {} ==> r.0.value != {}) && Count(ms, r.1) >= threshold)
  }

  /** Whatever the input, a search delivers. */
  lemma {:induction false} SearchDelivers(threshold: nat, ms: seq<Member>, msgs: Messages, p: set<Value>,
                                          nodes: set<NodeId>)
    ensures Delivers(threshold, ms, msgs, p, nodes, Search(threshold, ms, msgs, p, nodes))
    decreases msgs.Keys - nodes, Size(ms), 2
  {
    if 0 < threshold <= |ms| {
      match ms[0]
      case Node(n) =>
        if n in nodes {
          SearchDelivers(threshold - 1, ms[1..], msgs, p, nodes);
        } else if Supports(msgs, n, p) {
          NodeDelivers(threshold, ms, msgs, p, nodes);
        } else {
          Skipped(threshold, ms, msgs, p, nodes, nodes);
        }
      case Inner(q) =>
        InnerDelivers(threshold, ms, msgs, p, nodes);
      case Absent =>
        Skipped(threshold, ms, msgs, p, nodes, nodes);
    }
  }

  /** Giving up on the first member, with whatever nodes are left behind. */
  lemma {:induction false} Skipped(threshold: nat, ms: seq<Member>, msgs: Messages, p: set<Value>, nodes: set<NodeId>,
                                   left: set<NodeId>)
    requires ms != [] && nodes <= left <= nodes + Supporters(msgs, p)
    ensures Delivers(threshold, ms, msgs, p, nodes, Search(threshold, ms[1..], msgs, p, left))
    decreases msgs.Keys - nodes, Size(ms), 0
  {
    SearchDelivers(threshold, ms[1..], msgs, p, left);
  }

  lemma {:induction false} NodeDelivers(threshold: nat, ms: seq<Member>, msgs: Messages, p: set<Value>,
                                        nodes: set<NodeId>)
    requires 0 < threshold <= |ms| && ms[0].Node? && ms[0].id !in nodes && Supports(msgs, ms[0].id, p)
    ensures Delivers(threshold, ms, msgs, p, nodes, TryNode(threshold, ms, msgs, p, nodes))
    decreases msgs.Keys - nodes, Size(ms), 1
  {
    var n := ms[0].id;
    var q := msgs[n].quorumSet;
    var narrowed, sup := p * msgs[n].supports, Supporters(msgs, p);
    SearchDelivers(q.threshold, q.members, msgs, narrowed, nodes + {n});
    SupportersMonotone(msgs, narrowed, p);
    var (p1, nodes1) := Search(q.threshold, q.members, msgs, narrowed, nodes + {n});
    assert nodes1 <= nodes + sup;
    if p1.Some? {
      SearchDelivers(threshold - 1, ms[1..], msgs, p1.value, nodes1);
      SupportersMonotone(msgs, p1.value, p);
      var (p2, nodes2) := Search(threshold - 1, ms[1..], msgs, p1.value, nodes1);
      assert nodes2 <= nodes + sup;
      if p2.None? {
        Skipped(threshold, ms, msgs, p, nodes, nodes2 - {n});
      }
    } else {
      Skipped(threshold, ms, msgs, p, nodes, nodes1 - {n});
    }
  }

  lemma {:induction false} InnerDelivers(threshold: nat, ms: seq<Member>, msgs: Messages, p: set<Value>,
                                         nodes: set<NodeId>)
    requires 0 < threshold <= |ms| && ms[0].Inner?
    ensures Delivers(threshold, ms, msgs, p, nodes, TryInner(threshold, ms, msgs, p, nodes))
    decreases msgs.Keys - nodes, Size(ms), 1
  {
    var q, sup := ms[0].inner, Supporters(msgs, p);
    SearchDelivers(q.threshold, q.members, msgs, p, nodes);
    var (p1, nodes1) := Search(q.threshold, q.members, msgs, p, nodes);
    if p1.Some? {
      SearchDelivers(threshold - 1, ms[1..], msgs, p1.value, nodes1);
      SupportersMonotone(msgs, p1.value, p);
      var (p2, nodes2) := Search(threshold - 1, ms[1..], msgs, p1.value, nodes1);
      assert nodes2 <= nodes + sup;
      CountMonotone(q.members, nodes1, nodes2);
      if p2.None? {
        Skipped(threshold, ms, msgs, p, nodes, nodes);
      }
    } else {
      Skipped(threshold, ms, msgs, p, nodes, nodes);
    }
  }

  // ----- completeness -----

  /** `quorum` supports `v` and every member not already counted finds a slice of its own in it. */
  ghost predicate IsQuorumFor(quorum: set<NodeId>, msgs: Messages, v: Value, counted: set<NodeId>) {
    forall n :: n in quorum && n !in counted ==>
      n in msgs && v in msgs[n].supports && Satisfies(msgs[n].quorumSet, quorum)
  }

  lemma {:induction false} CountBound(ms: seq<Member>, nodes: set<NodeId>)
    ensures Count(ms, nodes) <= |ms|
  {
    if ms != [] {
      CountBound(ms[1..], nodes);
    }
  }

  lemma QuorumSupports(quorum: set<NodeId>, msgs: Messages, p: set<Value>, v: Value, nodes: set<NodeId>, n: NodeId)
    requires IsQuorumFor(quorum, msgs, v, nodes) && v in p
    ensures n in quorum && n !in nodes ==> Supports(msgs, n, p)
  {
    if n in quorum && n !in nodes {
      assert v in p * msgs[n].supports;
    }
  }

  /** Among the nodes behind the predicate and not yet counted, whoever can be satisfied within `pool` is
      behind `v`. */
  ghost predicate Backed(msgs: Messages, p: set<Value>, v: Value, counted: set<NodeId>, pool: set<NodeId>) {
    forall n :: n in Supporters(msgs, p) && n !in counted && Satisfies(msgs[n].quorumSet, pool) ==>
      v in msgs[n].supports
  }

  /** What a search for `p` must be given never to lose the value `v`. */
  ghost predicate Guarded(msgs: Messages, p: set<Value>, v: Value, nodes: set<NodeId>, pool: set<NodeId>) {
    v in p && nodes <= pool && Supporters(msgs, p) <= pool && Backed(msgs, p, v, nodes, pool)
  }

  lemma GuardedOn(msgs: Messages, p: set<Value>, v: Value, nodes: set<NodeId>, pool: set<NodeId>, p1: set<Value>,
                  nodes1: set<NodeId>)
    requires Guarded(msgs, p, v, nodes, pool) && p1 <= p && v in p1
    requires nodes <= nodes1 <= nodes + Supporters(msgs, p)
    ensures Guarded(msgs, p1, v, nodes1, pool)
  {
    SupportersMonotone(msgs, p1, p);
  }

  /** A node whose own set was found to be satisfied is behind `v`. */
  lemma ExploredBacks(msgs: Messages, p: set<Value>, v: Value, nodes: set<NodeId>, pool: set<NodeId>, n: NodeId)
    requires Guarded(msgs, p, v, nodes, pool) && Supports(msgs, n, p) && n !in nodes
    ensures var q := msgs[n].quorumSet;
            Search(q.threshold, q.members, msgs, p * msgs[n].supports, nodes + {n}).0.Some? ==>
              v in p * msgs[n].supports
  {
    var q, narrowed := msgs[n].quorumSet, p * msgs[n].supports;
    var r := Search(q.threshold, q.members, msgs, narrowed, nodes + {n});
    SearchDelivers(q.threshold, q.members, msgs, narrowed, nodes + {n});
    SupportersMonotone(msgs, narrowed, p);
    assert n in Supporters(msgs, p);
    if r.0.Some? {
      CountMonotone(q.members, r.1, pool);
    }
  }

  /** A guarded search that succeeds still has `v`. */
  lemma {:induction false} SearchKeeps(threshold: nat, ms: seq<Member>, msgs: Messages, p: set<Value>, v: Value,
                                       nodes: set<NodeId>, pool: set<NodeId>)
    requires Guarded(msgs, p, v, nodes, pool)
    ensures var r := Search(threshold, ms, msgs, p, nodes);
            r.0.Some? ==> v in r.0.value && Guarded(msgs, r.0.value, v, r.1, pool)
    decreases msgs.Keys - nodes, Size(ms), 2
  {
    if 0 < threshold <= |ms| {
      match ms[0]
      case Node(n) =>
        if n in nodes {
          SearchKeeps(threshold - 1, ms[1..], msgs, p, v, nodes, pool);
        } else if Supports(msgs, n, p) {
          NodeKeeps(threshold, ms, msgs, p, v, nodes, pool);
        } else {
          SearchKeeps(threshold, ms[1..], msgs, p, v, nodes, pool);
        }
      case Inner(q) =>
        InnerKeeps(threshold, ms, msgs, p, v, nodes, pool);
      case Absent =>
        SearchKeeps(threshold, ms[1..], msgs, p, v, nodes, pool);
    }
  }

  lemma {:induction false} NodeKeeps(threshold: nat, ms: seq<Member>, msgs: Messages, p: set<Value>, v: Value,
                                     nodes: set<NodeId>, pool: set<NodeId>)
    requires 0 < threshold <= |ms| && ms[0].Node? && ms[0].id !in nodes && Supports(msgs, ms[0].id, p)
    requires Guarded(msgs, p, v, nodes, pool)
    ensures var r := TryNode(threshold, ms, msgs, p, nodes);
            r.0.Some? ==> v in r.0.value && Guarded(msgs, r.0.value, v, r.1, pool)
    decreases msgs.Keys - nodes, Size(ms), 1
  {
    var n := ms[0].id;
    var q, narrowed := msgs[n].quorumSet, p * msgs[n].supports;
    ExploredBacks(msgs, p, v, nodes, pool, n);
    SearchDelivers(q.threshold, q.members, msgs, narrowed, nodes + {n});
    SupportersMonotone(msgs, narrowed, p);
    assert n in Supporters(msgs, p);
    var (p1, nodes1) := Search(q.threshold, q.members, msgs, narrowed, nodes + {n});
    if p1.Some? {
      GuardedOn(msgs, p, v, nodes, pool, narrowed, nodes + {n});
      SearchKeeps(q.threshold, q.members, msgs, narrowed, v, nodes + {n}, pool);
      SearchKeeps(threshold - 1, ms[1..], msgs, p1.value, v, nodes1, pool);
      SearchDelivers(threshold - 1, ms[1..], msgs, p1.value, nodes1);
      SupportersMonotone(msgs, p1.value, p);
      GuardedOn(msgs, p, v, nodes, pool, p, Search(threshold - 1, ms[1..], msgs, p1.value, nodes1).1 - {n});
      SearchKeeps(threshold, ms[1..], msgs, p, v, Search(threshold - 1, ms[1..], msgs, p1.value, nodes1).1 - {n}, pool);
    } else {
      GuardedOn(msgs, p, v, nodes, pool, p, nodes1 - {n});
      SearchKeeps(threshold, ms[1..], msgs, p, v, nodes1 - {n}, pool);
    }
  }

  lemma {:induction false} InnerKeeps(threshold: nat, ms: seq<Member>, msgs: Messages, p: set<Value>, v: Value,
                                      nodes: set<NodeId>, pool: set<NodeId>)
    requires 0 < threshold <= |ms| && ms[0].Inner? && Guarded(msgs, p, v, nodes, pool)
    ensures var r := TryInner(threshold, ms, msgs, p, nodes);
            r.0.Some? ==> v in r.0.value && Guarded(msgs, r.0.value, v, r.1, pool)
    decreases msgs.Keys - nodes, Size(ms), 1
  {
    var q := ms[0].inner;
    SearchKeeps(q.threshold, q.members, msgs, p, v, nodes, pool);
    SearchKeeps(threshold, ms[1..], msgs, p, v, nodes, pool);
    var (p1, nodes1) := Search(q.threshold, q.members, msgs, p, nodes);
    if p1.Some? {
      SearchKeeps(threshold - 1, ms[1..], msgs, p1.value, v, nodes1, pool);
    }
  }

  /** Success with `v` among the values left. */
  ghost predicate FindsValue(threshold: nat, ms: seq<Member>, msgs: Messages, p: set<Value>, v: Value,
                             nodes: set<NodeId>) {
    var r := Search(threshold, ms, msgs, p, nodes).0;
    r.Some? && v in r.value
  }

  /** If a quorum for `v` exists a guarded search finds one, whatever it tries and abandons first. */
  lemma {:induction false} SearchComplete(threshold: nat, ms: seq<Member>, msgs: Messages, p: set<Value>, v: Value,
                                          nodes: set<NodeId>, pool: set<NodeId>, quorum: set<NodeId>)
    requires Guarded(msgs, p, v, nodes, pool)
    requires IsQuorumFor(quorum, msgs, v, nodes) && Count(ms, quorum + nodes) >= threshold
    ensures FindsValue(threshold, ms, msgs, p, v, nodes)
    decreases msgs.Keys - nodes, Size(ms), 2
  {
    CountBound(ms, quorum + nodes);
    if threshold > 0 {
      match ms[0]
      case Node(n) =>
        if n in nodes {
          SearchComplete(threshold - 1, ms[1..], msgs, p, v, nodes, pool, quorum);
        } else if Supports(msgs, n, p) {
          NodeComplete(threshold, ms, msgs, p, v, nodes, pool, quorum);
        } else {
          QuorumSupports(quorum, msgs, p, v, nodes, n);
          SearchComplete(threshold, ms[1..], msgs, p, v, nodes, pool, quorum);
        }
      case Inner(q) =>
        InnerComplete(threshold, ms, msgs, p, v, nodes, pool, quorum);
      case Absent =>
        SearchComplete(threshold, ms[1..], msgs, p, v, nodes, pool, quorum);
    }
  }

  /** The rest of the members, after the first has been tried: more nodes only help. */
  lemma {:induction false} RestComplete(threshold: nat, ms: seq<Member>, msgs: Messages, p: set<Value>, v: Value,
                                        nodes: set<NodeId>, more: set<NodeId>, pool: set<NodeId>, quorum: set<NodeId>)
    requires ms != [] && nodes <= more && Guarded(msgs, p, v, more, pool)
    requires IsQuorumFor(quorum, msgs, v, nodes) && Count(ms[1..], quorum + nodes) >= threshold
    ensures FindsValue(threshold, ms[1..], msgs, p, v, more)
    decreases msgs.Keys - nodes, Size(ms), 0
  {
    CountMonotone(ms[1..], quorum + nodes, quorum + more);
    SearchComplete(threshold, ms[1..], msgs, p, v, more, pool, quorum);
  }

  lemma {:induction false} NodeComplete(threshold: nat, ms: seq<Member>, msgs: Messages, p: set<Value>, v: Value,
                                        nodes: set<NodeId>, pool: set<NodeId>, quorum: set<NodeId>)
    requires 0 < threshold <= |ms| && ms[0].Node? && ms[0].id !in nodes && Supports(msgs, ms[0].id, p)
    requires Guarded(msgs, p, v, nodes, pool)
    requires IsQuorumFor(quorum, msgs, v, nodes) && Count(ms, quorum + nodes) >= threshold
    ensures var r := TryNode(threshold, ms, msgs, p, nodes).0;
            r.Some? && v in r.value
    decreases msgs.Keys - nodes, Size(ms), 1
  {
    var n := ms[0].id;
    var q, narrowed := msgs[n].quorumSet, p * msgs[n].supports;
    ExploredBacks(msgs, p, v, nodes, pool, n);
    SearchDelivers(q.threshold, q.members, msgs, narrowed, nodes + {n});
    SupportersMonotone(msgs, narrowed, p);
    assert n in Supporters(msgs, p);
    if v in narrowed {
      GuardedOn(msgs, p, v, nodes, pool, narrowed, nodes + {n});
    }
    if n in quorum {
      CountMonotone(q.members, quorum, quorum + (nodes + {n}));
      SearchComplete(q.threshold, q.members, msgs, narrowed, v, nodes + {n}, pool, quorum);
    }
    var (p1, nodes1) := Search(q.threshold, q.members, msgs, narrowed, nodes + {n});
    if p1.Some? {
      SearchKeeps(q.threshold, q.members, msgs, narrowed, v, nodes + {n}, pool);
      RestComplete(threshold - 1, ms, msgs, p1.value, v, nodes, nodes1, pool, quorum);
    } else {
      GuardedOn(msgs, p, v, nodes, pool, p, nodes1 - {n});
      RestComplete(threshold, ms, msgs, p, v, nodes, nodes1 - {n}, pool, quorum);
    }
  }

  lemma {:induction false} InnerComplete(threshold: nat, ms: seq<Member>, msgs: Messages, p: set<Value>, v: Value,
                                         nodes: set<NodeId>, pool: set<NodeId>, quorum: set<NodeId>)
    requires 0 < threshold <= |ms| && ms[0].Inner? && Guarded(msgs, p, v, nodes, pool)
    requires IsQuorumFor(quorum, msgs, v, nodes) && Count(ms, quorum + nodes) >= threshold
    ensures var r := TryInner(threshold, ms, msgs, p, nodes).0;
            r.Some? && v in r.value
    decreases msgs.Keys - nodes, Size(ms), 1
  {
    var q := ms[0].inner;
    InnerFound(q, ms, msgs, p, v, nodes, pool, quorum);
    SearchKeeps(q.threshold, q.members, msgs, p, v, nodes, pool);
    var (p1, nodes1) := Search(q.threshold, q.members, msgs, p, nodes);
    if p1.Some? {
      RestComplete(threshold - 1, ms, msgs, p1.value, v, nodes, nodes1, pool, quorum);
    } else {
      RestComplete(threshold, ms, msgs, p, v, nodes, nodes, pool, quorum);
    }
  }

  /** An inner set that the quorum satisfies is found. */
  lemma {:induction false} InnerFound(q: QuorumSet, ms: seq<Member>, msgs: Messages, p: set<Value>, v: Value,
                                      nodes: set<NodeId>, pool: set<NodeId>, quorum: set<NodeId>)
    requires ms != [] && ms[0] == Inner(q) && Guarded(msgs, p, v, nodes, pool) && IsQuorumFor(quorum, msgs, v, nodes)
    ensures Count(q.members, quorum + nodes) >= q.threshold ==> Search(q.threshold, q.members, msgs, p, nodes).0.Some?
    decreases msgs.Keys - nodes, Size(ms), 0
  {
    if Count(q.members, quorum + nodes) >= q.threshold {
      SearchComplete(q.threshold, q.members, msgs, p, v, nodes, pool, quorum);
    }
  }

  /** No quorum for `v` is missed, and `v` is not lost on the way, as long as every other node behind the
      predicate whose own set the supporters can satisfy is behind `v`. */
  lemma FindQuorumComplete(q: QuorumSet, local: NodeId, msgs: Messages, p: set<Value>, v: Value, quorum: set<NodeId>)
    requires v in p && Backed(msgs, p, v, {local}, Supporters(msgs, p) + {local})
    requires IsQuorumFor(quorum, msgs, v, {local}) && Satisfies(q, quorum + {local})
    ensures var (nodes, left) := FindQuorum(q, local, msgs, p);
            nodes != {} && v in left
  {
    SearchComplete(q.threshold, q.members, msgs, p, v, {local}, Supporters(msgs, p) + {local}, quorum);
    assert local in Search(q.threshold, q.members, msgs, p, {local}).1;
  }

  /** With one value nothing stands in the way. */
  lemma OneValueIsBacked(msgs: Messages, v: Value, counted: set<NodeId>, pool: set<NodeId>)
    ensures Backed(msgs, {v}, v, counted, pool)
  {
    forall n | n in Supporters(msgs, {v}) ensures v in msgs[n].supports {
      assert {v} * msgs[n].supports != {};
    }
  }

  lemma FindQuorumCompleteForOne(q: QuorumSet, local: NodeId, msgs: Messages, v: Value, quorum: set<NodeId>)
    requires IsQuorumFor(quorum, msgs, v, {local}) && Satisfies(q, quorum + {local})
    ensures FindQuorum(q, local, msgs, {v}).0 != {}
  {
    OneValueIsBacked(msgs, v, {local}, Supporters(msgs, {v}) + {local});
    FindQuorumComplete(q, local, msgs, {v}, v, quorum);
  }

  /** What is found always satisfies the local quorum set with nodes that support the value. */
  lemma FindQuorumGuarantee(q: QuorumSet, local: NodeId, msgs: Messages, v: Value)
    ensures var nodes := FindQuorum(q, local, msgs, {v}).0;
            nodes != {} ==> local in nodes && nodes <= {local} + Supporters(msgs, {v}) && Satisfies(q, nodes)
  {
    SearchDelivers(q.threshold, q.members, msgs, {v}, {local});
  }

  // ----- what the helper's backtracking leaves behind -----

  function StrayMessages(): Messages {
    map[1 := Msg(QuorumSet(2, [Node(2), Node(4)]), {0}),
        2 := Msg(QuorumSet(1, [Node(3)]), {0}),
        3 := Msg(QuorumSet(1, [Node(1)]), {0})]
  }

  /** A failed search does not always hand its nodes back unchanged: node 3, added while exploring node 2,
      stays. */
  lemma FailedSearchKeepsNode()
    ensures Search(2, [Node(2), Node(4)], StrayMessages(), {0}, {0, 1}) == (None, {0, 1, 3})
  {
    var msgs, p := StrayMessages(), {0};
    assert p * {0} == p;
    var start: set<NodeId> := {0, 1};
    assert [Node(2), Node(4)][1..] == [Node(4)];
    assert Search(0, [Node(1)][1..], msgs, p, start + {2} + {3}) == (Some(p), start + {2} + {3});
    assert Search(1, [Node(1)], msgs, p, start + {2} + {3}) == (Some(p), start + {2} + {3});
    assert TryNode(1, [Node(3)], msgs, p, start + {2}) == (Some(p), start + {2} + {3});
    assert Search(1, [Node(3)], msgs, p, start + {2}) == (Some(p), start + {2} + {3});
    assert Search(1, [Node(4)], msgs, p, start + {2} + {3}) == (None, start + {2} + {3});
    assert start + {2} + {3} - {2} == {0, 1, 3};
    assert Search(2, [Node(4)], msgs, p, {0, 1, 3}) == (None, {0, 1, 3});
  }

  /** A set is then reported although no quorum exists: node 3 is counted, and relies on node 1, which
      was taken back. */
  lemma StrayNodeIsNoQuorum(quorum: set<NodeId>)
    ensures FindQuorum(QuorumSet(1, [Node(1), Node(2)]), 0, StrayMessages(), {0}).0 == {0, 2, 3}
    ensures !(IsQuorumFor(quorum, StrayMessages(), 0, {0}) && Satisfies(QuorumSet(1, [Node(1), Node(2)]), quorum + {0}))
  {
    StrayRun();
    if IsQuorumFor(quorum, StrayMessages(), 0, {0}) {
      NoStrayQuorum(quorum);
      CountTwo(1, 2, quorum + {0});
    }
  }

  lemma StrayRun()
    ensures Search(1, [Node(1), Node(2)], StrayMessages(), {0}, {0}) == (Some({0}), {0, 2, 3})
  {
    var msgs, p := StrayMessages(), {0};
    assert p * {0} == p;
    FailedSearchKeepsNode();
    assert [Node(1), Node(2)][1..] == [Node(2)];
    assert {0} + {1} == {0, 1} && {0, 1, 3} - {1} == {0, 3} && {0, 3} + {2} == {0, 2, 3};
    assert Search(1, [Node(3)], msgs, p, {0, 2, 3}) == (Some(p), {0, 2, 3});
    assert TryNode(1, [Node(2)], msgs, p, {0, 3}) == (Some(p), {0, 2, 3});
  }

  lemma CountTwo(a: NodeId, b: NodeId, nodes: set<NodeId>)
    ensures Count([Node(b)], nodes) == if b in nodes then 1 else 0
    ensures Count([Node(a), Node(b)], nodes) == (if a in nodes then 1 else 0) + if b in nodes then 1 else 0
  {
    var one, two := [Node(b)], [Node(a), Node(b)];
    assert two[1..] == one && one[1..] == [];
    assert Count(one, nodes) == (if b in nodes then 1 else 0) + Count(one[1..], nodes);
    assert Count(two, nodes) == (if a in nodes then 1 else 0) + Count(two[1..], nodes);
  }

  lemma NoStrayQuorum(quorum: set<NodeId>)
    requires IsQuorumFor(quorum, StrayMessages(), 0, {0})
    ensures 1 !in quorum && 2 !in quorum
  {
    CountTwo(2, 4, quorum);
    CountTwo(2, 1, quorum);
    CountTwo(2, 3, quorum);
  }

  // ----- agreement -----

  function Flat(ids: seq<NodeId>): seq<Member> {
    if ids == [] then [] else [Node(ids[0])] + Flat(ids[1..])
  }

  function IdSet(ids: seq<NodeId>): set<NodeId> {
    set x | x in ids
  }

  lemma {:induction false} FlatCount(ids: seq<NodeId>, nodes: set<NodeId>)
    requires NoRepeats(ids)
    ensures Count(Flat(ids), nodes) == |IdSet(ids) * nodes|
    ensures |IdSet(ids)| == |ids|
  {
    if ids == [] {
      assert IdSet(ids) == {};
    } else {
      FlatCount(ids[1..], nodes);
      FlatStep(ids, nodes);
      OneMore(ids[0], IdSet(ids[1..]), nodes);
    }
  }

  lemma FlatStep(ids: seq<NodeId>, nodes: set<NodeId>)
    requires NoRepeats(ids) && ids != []
    ensures Count(Flat(ids), nodes) == (if ids[0] in nodes then 1 else 0) + Count(Flat(ids[1..]), nodes)
    ensures IdSet(ids) == {ids[0]} + IdSet(ids[1..]) && ids[0] !in IdSet(ids[1..])
  {
    assert Flat(ids)[1..] == Flat(ids[1..]);
    assert ids == [ids[0]] + ids[1..];
  }

  lemma OneMore(x: NodeId, rest: set<NodeId>, nodes: set<NodeId>)
    requires x !in rest
    ensures |({x} + rest) * nodes| == (if x in nodes then 1 else 0) + |rest * nodes|
  {
    if x in nodes {
      assert ({x} + rest) * nodes == {x} + rest * nodes;
    } else {
      assert ({x} + rest) * nodes == rest * nodes;
    }
  }

  /** `n` stands behind `v` in the view of `local`, who stands behind it itself. */
  predicate StandsBehind(n: NodeId, v: Value, local: NodeId, msgs: Messages) {
    n == local || (n in msgs && v in msgs[n].supports)
  }

  /** Agreement: two nodes of one Byzantine-tolerant cluster that each find a quorum, for `v` and for `w`,
      have found it for the same value, as long as at most f nodes are faulty and no other node stands
      behind two values.  Nothing is assumed of the quorum sets the messages declare. */
  lemma QuorumsAgree(ids: seq<NodeId>, a: NodeId, msgsA: Messages, v: Value, b: NodeId, msgsB: Messages, w: Value,
                     byzantine: set<NodeId>)
    requires NoRepeats(ids) && 1 <= |ids| <= U32_MAX && |byzantine| <= Quorum.Faults(|ids|)
    requires forall n :: n !in byzantine && StandsBehind(n, v, a, msgsA) && StandsBehind(n, w, b, msgsB) ==> v == w
    requires var q := QuorumSet(Quorum.Threshold(Quorum.Bft, |ids|), Flat(ids));
             FindQuorum(q, a, msgsA, {v}).0 != {} && FindQuorum(q, b, msgsB, {w}).0 != {}
    ensures v == w
  {
    var q := QuorumSet(Quorum.Threshold(Quorum.Bft, |ids|), Flat(ids));
    var nodesA, nodesB := FindQuorum(q, a, msgsA, {v}).0, FindQuorum(q, b, msgsB, {w}).0;
    FindQuorumGuarantee(q, a, msgsA, v);
    FindQuorumGuarantee(q, b, msgsB, w);
    FlatCount(ids, nodesA);
    FlatCount(ids, nodesB);
    var quorumA, quorumB := IdSet(ids) * nodesA, IdSet(ids) * nodesB;
    Quorum.BftSafety(IdSet(ids), byzantine, quorumA, quorumB);
    var n :| n in quorumA * quorumB - byzantine;
    Backs(n, v, a, msgsA, nodesA);
    Backs(n, w, b, msgsB, nodesB);
  }

  lemma Backs(n: NodeId, v: Value, local: NodeId, msgs: Messages, nodes: set<NodeId>)
    requires n in nodes && nodes <= {local} + Supporters(msgs, {v})
    ensures StandsBehind(n, v, local, msgs)
  {
    if n != local {
      assert {v} * msgs[n].supports != {};
    }
  }
}

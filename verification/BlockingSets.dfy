/**
 The search for blocking sets, sets that every slice of a quorum set meets
 (consensus/scp/src/quorum_set_ext.rs).  Predicates are modelled as in QuorumSearch.
 */
module BlockingSets {
  import opened QuorumSearch
  import opened SeveralValues

  /** Every inner set can be satisfied by its members; with a larger threshold the source's unsigned
      subtraction overflows. */
  predicate Valid(ms: seq<Member>)
    decreases Size(ms)
  {
    ms != [] ==>
      && (ms[0].Inner? ==> ms[0].inner.threshold <= |ms[0].inner.members| && Valid(ms[0].inner.members))
      && Valid(ms[1..])
  }

  predicate ValidSet(q: QuorumSet) {
    q.threshold <= |q.members| && Valid(q.members)
  }

  /** How many members must refuse for the set to be out of reach; 0 stands in for the overflow. */
  function Needed(q: QuorumSet): (r: nat)
    ensures q.threshold <= |q.members| ==> r >= 1
  {
    if q.threshold <= |q.members| then |q.members| - q.threshold + 1 else 0
  }

  /** `findBlockingSetHelper`. */
  function Search(needed: nat, ms: seq<Member>, msgs: Messages, p: set<Value>, nodes: set<NodeId>): (set<NodeId>,
                  set<Value>)
    decreases Size(ms), 1
  {
    if needed == 0 then (nodes, p)
    else if needed > |ms| then ({}, p)
    else
      match ms[0]
      case Node(n) =>
        if Supports(msgs, n, p) then Search(needed - 1, ms[1..], msgs, p * msgs[n].supports, nodes + {n})
        else Search(needed, ms[1..], msgs, p, nodes)
      case Inner(_) => SearchInner(needed, ms, msgs, p, nodes)
      case Absent => Search(needed, ms[1..], msgs, p, nodes)
  }

  function SearchInner(needed: nat, ms: seq<Member>, msgs: Messages, p: set<Value>, nodes: set<NodeId>): (set<NodeId>,
                       set<Value>)
    requires 0 < needed <= |ms| && ms[0].Inner?
    decreases Size(ms), 0
  {
    var q := ms[0].inner;
    var (nodes1, p1) := Search(Needed(q), q.members, msgs, p, nodes);
    if nodes1 != {} then Search(needed - 1, ms[1..], msgs, p1, nodes1)
    else Search(needed, ms[1..], msgs, p, nodes)
  }

  /** `findBlockingSet`. */
  function FindBlockingSet(q: QuorumSet, msgs: Messages, p: set<Value>): (set<NodeId>, set<Value>)
    requires ValidSet(q)
  {
    Search(Needed(q), q.members, msgs, p, {})
  }

  // ----- what blocking means -----

  predicate Blocked(m: Member, nodes: set<NodeId>) {
    match m
    case Node(id) => id in nodes
    case Inner(q) => CountBlocked(q.members, nodes) > |q.members| - q.threshold
    case Absent => false
  }

  /** How many of the members `nodes` blocks. */
  function CountBlocked(ms: seq<Member>, nodes: set<NodeId>): nat {
    if ms == [] then 0 else (if Blocked(ms[0], nodes) then 1 else 0) + CountBlocked(ms[1..], nodes)
  }

  predicate Blocks(q: QuorumSet, nodes: set<NodeId>) {
    CountBlocked(q.members, nodes) > |q.members| - q.threshold
  }

  lemma {:induction false} BlockedMonotone(ms: seq<Member>, a: set<NodeId>, b: set<NodeId>)
    requires a <= b
    ensures CountBlocked(ms, a) <= CountBlocked(ms, b) <= |ms|
    decreases Size(ms)
  {
    if ms != [] {
      if ms[0].Inner? {
        BlockedMonotone(ms[0].inner.members, a, b);
      }
      BlockedMonotone(ms[1..], a, b);
    }
  }

  /** No member is both blocked by a set and satisfied without it. */
  lemma {:induction false} BlockedOrSatisfied(ms: seq<Member>, blocking: set<NodeId>, others: set<NodeId>)
    requires blocking * others == {}
    ensures CountBlocked(ms, blocking) + Count(ms, others) <= |ms|
    decreases Size(ms)
  {
    if ms != [] {
      assert ms[0].Node? ==> ms[0].id !in blocking * others;
      if ms[0].Inner? {
        BlockedOrSatisfied(ms[0].inner.members, blocking, others);
      }
      BlockedOrSatisfied(ms[1..], blocking, others);
    }
  }

  predicate NoneAbsent(ms: seq<Member>)
    decreases Size(ms)
  {
    ms != [] ==>
      && !ms[0].Absent?
      && (ms[0].Inner? ==> NoneAbsent(ms[0].inner.members))
      && NoneAbsent(ms[1..])
  }

  /** Every member is blocked by a set or satisfied by the rest. */
  lemma {:induction false} OneOrTheOther(ms: seq<Member>, blocking: set<NodeId>, others: set<NodeId>)
    requires NoneAbsent(ms) && Names(ms) <= blocking + others
    ensures CountBlocked(ms, blocking) + Count(ms, others) >= |ms|
    decreases Size(ms)
  {
    if ms != [] {
      if ms[0].Inner? {
        OneOrTheOther(ms[0].inner.members, blocking, others);
      }
      OneOrTheOther(ms[1..], blocking, others);
    }
  }

  /** A blocking set meets every slice. */
  lemma BlockingMeetsSlices(q: QuorumSet, blocking: set<NodeId>, slice: set<NodeId>)
    requires Blocks(q, blocking) && Satisfies(q, slice)
    ensures blocking * slice != {}
  {
    if blocking * slice == {} {
      BlockedOrSatisfied(q.members, blocking, slice);
    }
  }

  ghost predicate MeetsEverySlice(q: QuorumSet, nodes: set<NodeId>) {
    forall slice :: Satisfies(q, slice) ==> nodes * slice != {}
  }

  /** Counting and meeting every slice are the same, as long as no member is absent. */
  lemma BlocksIff(q: QuorumSet, nodes: set<NodeId>)
    requires NoneAbsent(q.members)
    ensures Blocks(q, nodes) <==> MeetsEverySlice(q, nodes)
  {
    if Blocks(q, nodes) {
      forall slice | Satisfies(q, slice) ensures nodes * slice != {} {
        BlockingMeetsSlices(q, nodes, slice);
      }
    }
    var others := Names(q.members) - nodes;
    OneOrTheOther(q.members, nodes, others);
    assert nodes * others == {};
  }

  /** An absent member breaks the equivalence: nothing satisfies the set, and nothing is said to block it. */
  lemma AbsentIsNeverBlocked(nodes: set<NodeId>)
    ensures MeetsEverySlice(QuorumSet(1, [Absent]), nodes) && !Blocks(QuorumSet(1, [Absent]), nodes)
  {
    var q := QuorumSet(1, [Absent]);
    assert q.members[1..] == [];
    forall slice ensures Count(q.members, slice) == 0 {
      assert Count(q.members, slice) == 0 + Count(q.members[1..], slice);
    }
    assert CountBlocked(q.members, nodes) == 0 + CountBlocked(q.members[1..], nodes);
  }

  // ----- the search -----

  /** What a search that succeeds returns. */
  ghost predicate Found(needed: nat, ms: seq<Member>, msgs: Messages, p: set<Value>, nodes: set<NodeId>,
                        r: (set<NodeId>, set<Value>)) {
    && nodes <= r.0
    && r.1 <= p && (p != {} ==> r.1 != {})
    && Unanimous(r.0, msgs, r.1)
    && CountBlocked(ms, r.0) >= needed
  }

  /** A search that finds nodes finds enough of them, all behind every value it leaves. */
  lemma {:induction false} SearchFinds(needed: nat, ms: seq<Member>, msgs: Messages, p: set<Value>, nodes: set<NodeId>)
    requires Unanimous(nodes, msgs, p)
    ensures var r := Search(needed, ms, msgs, p, nodes);
            r.0 != {} ==> Found(needed, ms, msgs, p, nodes, r)
    decreases Size(ms), 1
  {
    if 0 < needed <= |ms| {
      match ms[0]
      case Node(n) =>
        if Supports(msgs, n, p) {
          NodeFinds(needed, n, ms, msgs, p, nodes);
        } else {
          SearchFinds(needed, ms[1..], msgs, p, nodes);
        }
      case Inner(q) =>
        InnerFinds(needed, ms, msgs, p, nodes);
      case Absent =>
        SearchFinds(needed, ms[1..], msgs, p, nodes);
    }
  }

  lemma {:induction false} NodeFinds(needed: nat, n: NodeId, ms: seq<Member>, msgs: Messages, p: set<Value>,
                                     nodes: set<NodeId>)
    requires 0 < needed <= |ms| && ms[0] == Node(n) && Supports(msgs, n, p) && Unanimous(nodes, msgs, p)
    ensures var r := Search(needed - 1, ms[1..], msgs, p * msgs[n].supports, nodes + {n});
            r.0 != {} ==> Found(needed, ms, msgs, p, nodes, r)
    decreases Size(ms), 0
  {
    SearchFinds(needed - 1, ms[1..], msgs, p * msgs[n].supports, nodes + {n});
  }

  lemma {:induction false} InnerFinds(needed: nat, ms: seq<Member>, msgs: Messages, p: set<Value>, nodes: set<NodeId>)
    requires 0 < needed <= |ms| && ms[0].Inner? && Unanimous(nodes, msgs, p)
    ensures var r := SearchInner(needed, ms, msgs, p, nodes);
            r.0 != {} ==> Found(needed, ms, msgs, p, nodes, r)
    decreases Size(ms), 0
  {
    var q := ms[0].inner;
    SearchFinds(Needed(q), q.members, msgs, p, nodes);
    var (nodes1, p1) := Search(Needed(q), q.members, msgs, p, nodes);
    if nodes1 != {} {
      SearchFinds(needed - 1, ms[1..], msgs, p1, nodes1);
      InnerStaysBlocked(q, nodes1, Search(needed - 1, ms[1..], msgs, p1, nodes1).0);
    } else {
      SearchFinds(needed, ms[1..], msgs, p, nodes);
    }
  }

  lemma InnerStaysBlocked(q: QuorumSet, nodes: set<NodeId>, more: set<NodeId>)
    ensures nodes <= more && Blocks(q, nodes) ==> Blocked(Inner(q), more)
  {
    if nodes <= more {
      BlockedMonotone(q.members, nodes, more);
    }
  }

  /** For one value the search is greedy without loss: it finds nodes exactly when the supporters block. */
  lemma {:induction false} SearchFindsIff(needed: nat, ms: seq<Member>, msgs: Messages, v: Value, nodes: set<NodeId>)
    requires needed > 0 || nodes != {}
    requires Valid(ms) && Unanimous(nodes, msgs, {v})
    ensures Search(needed, ms, msgs, {v}, nodes).0 != {} <==> CountBlocked(ms, Supporters(msgs, {v})) >= needed
    decreases Size(ms), 1
  {
    var all := Supporters(msgs, {v});
    BlockedMonotone(ms, all, all);
    if 0 < needed <= |ms| {
      match ms[0]
      case Node(n) =>
        if Supports(msgs, n, {v}) {
          assert {v} * msgs[n].supports == {v};
          SearchFindsIff(needed - 1, ms[1..], msgs, v, nodes + {n});
        } else {
          SearchFindsIff(needed, ms[1..], msgs, v, nodes);
        }
      case Inner(q) =>
        InnerFindsIff(needed, ms, msgs, v, nodes);
      case Absent =>
        SearchFindsIff(needed, ms[1..], msgs, v, nodes);
    }
  }

  lemma {:induction false} InnerFindsIff(needed: nat, ms: seq<Member>, msgs: Messages, v: Value, nodes: set<NodeId>)
    requires 0 < needed <= |ms| && ms[0].Inner? && Valid(ms) && Unanimous(nodes, msgs, {v})
    ensures SearchInner(needed, ms, msgs, {v}, nodes).0 != {} <==> CountBlocked(ms, Supporters(msgs, {v})) >= needed
    decreases Size(ms), 0
  {
    var q, all := ms[0].inner, Supporters(msgs, {v});
    var r := Search(Needed(q), q.members, msgs, {v}, nodes);
    InnerAlone(q, ms, msgs, v, nodes);
    assert CountBlocked(ms, all) == (if Blocked(ms[0], all) then 1 else 0) + CountBlocked(ms[1..], all);
    if r.0 != {} {
      SearchFindsIff(needed - 1, ms[1..], msgs, v, r.0);
    } else {
      SearchFindsIff(needed, ms[1..], msgs, v, nodes);
    }
  }

  lemma {:induction false} InnerAlone(q: QuorumSet, ms: seq<Member>, msgs: Messages, v: Value, nodes: set<NodeId>)
    requires ms != [] && ms[0] == Inner(q) && Valid(ms) && Unanimous(nodes, msgs, {v})
    ensures var r := Search(Needed(q), q.members, msgs, {v}, nodes);
            && (r.0 != {} <==> Blocked(Inner(q), Supporters(msgs, {v})))
            && (r.0 != {} ==> r.1 == {v} && Unanimous(r.0, msgs, {v}))
    decreases Size(ms), 0, 0
  {
    SearchFindsIff(Needed(q), q.members, msgs, v, nodes);
    SearchFinds(Needed(q), q.members, msgs, {v}, nodes);
    SingletonLeft(Search(Needed(q), q.members, msgs, {v}, nodes).1, v);
  }

  /** Soundness for any predicate: the nodes found block the set, each is behind every value left, and
      at least one value is left. */
  lemma FoundSetBlocks(q: QuorumSet, msgs: Messages, p: set<Value>)
    requires ValidSet(q) && p != {}
    ensures var (nodes, left) := FindBlockingSet(q, msgs, p);
            nodes != {} ==> Blocks(q, nodes) && Unanimous(nodes, msgs, left) && {} < left <= p
  {
    SearchFinds(Needed(q), q.members, msgs, p, {});
  }

  /** A blocking set for `v` is found exactly when the nodes behind `v` block, and so, with no member
      absent, exactly when they meet every slice. */
  lemma FindsIffSupportersBlock(q: QuorumSet, msgs: Messages, v: Value)
    requires ValidSet(q)
    ensures FindBlockingSet(q, msgs, {v}).0 != {} <==> Blocks(q, Supporters(msgs, {v}))
    ensures NoneAbsent(q.members) ==>
              (FindBlockingSet(q, msgs, {v}).0 != {} <==> MeetsEverySlice(q, Supporters(msgs, {v})))
  {
    SearchFindsIff(Needed(q), q.members, msgs, v, {});
    if NoneAbsent(q.members) {
      BlocksIff(q, Supporters(msgs, {v}));
    }
  }

  // ----- several values; nomination asks about one at a time -----

  /** If everyone behind the predicate is behind `v`, the search for the predicate finds the nodes that
      the search for `v` finds, and `v` stays. */
  lemma {:induction false} SameBlocking(needed: nat, ms: seq<Member>, msgs: Messages, p: set<Value>, v: Value,
                                        nodes: set<NodeId>)
    requires AllFor(msgs, p, v, {})
    ensures var (wide, narrow) := (Search(needed, ms, msgs, p, nodes), Search(needed, ms, msgs, {v}, nodes));
            wide.0 == narrow.0 && v in wide.1 && wide.1 <= p && narrow.1 == {v}
    decreases Size(ms), 1
  {
    if 0 < needed <= |ms| {
      match ms[0]
      case Node(n) =>
        SameSupport(msgs, p, v, {}, n);
        if Supports(msgs, n, p) {
          AllForOn(msgs, p, p * msgs[n].supports, v, {}, {});
          SameBlocking(needed - 1, ms[1..], msgs, p * msgs[n].supports, v, nodes + {n});
        } else {
          SameBlocking(needed, ms[1..], msgs, p, v, nodes);
        }
      case Inner(q) =>
        SameBlockingInner(needed, ms, msgs, p, v, nodes);
      case Absent =>
        SameBlocking(needed, ms[1..], msgs, p, v, nodes);
    }
  }

  lemma {:induction false} SameBlockingInner(needed: nat, ms: seq<Member>, msgs: Messages, p: set<Value>, v: Value,
                                             nodes: set<NodeId>)
    requires 0 < needed <= |ms| && ms[0].Inner? && AllFor(msgs, p, v, {})
    ensures var (wide, narrow) := (SearchInner(needed, ms, msgs, p, nodes), SearchInner(needed, ms, msgs, {v}, nodes));
            wide.0 == narrow.0 && v in wide.1 && wide.1 <= p && narrow.1 == {v}
    decreases Size(ms), 0
  {
    var q := ms[0].inner;
    SameBlocking(Needed(q), q.members, msgs, p, v, nodes);
    SameBlocking(needed, ms[1..], msgs, p, v, nodes);
    var (nodes1, p1) := Search(Needed(q), q.members, msgs, p, nodes);
    if nodes1 != {} {
      AllForOn(msgs, p, p1, v, {}, {});
      SameBlocking(needed - 1, ms[1..], msgs, p1, v, nodes1);
    }
  }

  /** So for several values too the answer is whether the nodes behind `v` block. */
  lemma SeveralValuesFindIff(q: QuorumSet, msgs: Messages, p: set<Value>, v: Value)
    requires ValidSet(q) && AllFor(msgs, p, v, {})
    ensures FindBlockingSet(q, msgs, p).0 != {} <==> Blocks(q, Supporters(msgs, {v}))
    ensures v in FindBlockingSet(q, msgs, p).1
  {
    SameBlocking(Needed(q), q.members, msgs, p, v, {});
    FindsIffSupportersBlock(q, msgs, v);
  }

  /** Whenever the nodes behind `v` block, a set is found and `v` is left. */
  ghost predicate NeverLosesBlocking(msgs: Messages, p: set<Value>, v: Value) {
    forall q :: ValidSet(q) && Blocks(q, Supporters(msgs, {v})) ==>
      FindBlockingSet(q, msgs, p).0 != {} && v in FindBlockingSet(q, msgs, p).1
  }

  /** This holds for every quorum set if and only if everyone behind the predicate is behind `v`, or nobody
      is behind `v` at all. */
  lemma NeverLosesBlockingIff(msgs: Messages, p: set<Value>, v: Value)
    requires v in p
    ensures NeverLosesBlocking(msgs, p, v) <==> AllFor(msgs, p, v, {}) || Supporters(msgs, {v}) == {}
  {
    if AllFor(msgs, p, v, {}) {
      forall q | ValidSet(q) && Blocks(q, Supporters(msgs, {v}))
        ensures FindBlockingSet(q, msgs, p).0 != {} && v in FindBlockingSet(q, msgs, p).1
      {
        SeveralValuesFindIff(q, msgs, p, v);
      }
    }
    if Supporters(msgs, {v}) == {} {
      forall q | ValidSet(q) ensures !Blocks(q, Supporters(msgs, {v})) {
        NobodyBlocks(q.members);
      }
    }
    if NeverLosesBlocking(msgs, p, v) && Supporters(msgs, {v}) != {} {
      var m :| m in Supporters(msgs, {v});
      forall n | n in Supporters(msgs, p) ensures v in msgs[n].supports {
        DissenterBlocksFirst(msgs, p, v, n, m);
        assert ValidSet(TwoOf(n, m));
      }
    }
  }

  /** Nobody blocks nothing. */
  lemma {:induction false} NobodyBlocks(ms: seq<Member>)
    requires Valid(ms)
    ensures CountBlocked(ms, {}) == 0
    decreases Size(ms)
  {
    if ms != [] {
      if ms[0].Inner? {
        NobodyBlocks(ms[0].inner.members);
      }
      NobodyBlocks(ms[1..]);
    }
  }

  function TwoOf(n: NodeId, m: NodeId): QuorumSet {
    QuorumSet(2, [Node(n), Node(m)])
  }

  /** Either of the two blocks; the first is taken, and with it the values it is behind. */
  lemma DissenterBlocksFirst(msgs: Messages, p: set<Value>, v: Value, n: NodeId, m: NodeId)
    requires n in Supporters(msgs, p) && m in Supporters(msgs, {v})
    ensures ValidSet(TwoOf(n, m)) && Blocks(TwoOf(n, m), Supporters(msgs, {v}))
    ensures FindBlockingSet(TwoOf(n, m), msgs, p).1 == p * msgs[n].supports
  {
    var ms, all := TwoOf(n, m).members, Supporters(msgs, {v});
    assert ms[1..] == [Node(m)] && ms[1..][1..] == [] && ms[1..][0] == Node(m);
    assert CountBlocked(ms[1..], all) == 1 + CountBlocked(ms[1..][1..], all);
    assert CountBlocked(ms, all) >= CountBlocked(ms[1..], all);
    assert Search(0, ms[1..], msgs, p * msgs[n].supports, {} + {n}).1 == p * msgs[n].supports;
  }

  function DeadEndMessages(): Messages {
    map[1 := Msg(QuorumSet(0, []), {0}), 2 := Msg(QuorumSet(0, []), {1}), 3 := Msg(QuorumSet(0, []), {1})]
  }

  const TWO_OF_THREE: QuorumSet := QuorumSet(2, [Node(1), Node(2), Node(3)])

  /** Otherwise the greedy search can narrow itself into a dead end: node 1 is taken for value 0, and
      the two nodes behind value 1, which block, no longer count. */
  lemma SeveralValuesMissBlockingSet()
    ensures FindBlockingSet(TWO_OF_THREE, DeadEndMessages(), {0, 1}).0 == {}
    ensures FindBlockingSet(TWO_OF_THREE, DeadEndMessages(), {1}).0 != {}
  {
    var msgs, ms := DeadEndMessages(), [Node(1), Node(2), Node(3)];
    var both, zero, one: set<Value> := {0, 1}, {0}, {1};
    assert both * {0} == zero && zero * {1} == {} && one * {0} == {} && one * {1} == one;
    assert ms[1..] == [Node(2), Node(3)] && [Node(2), Node(3)][1..] == [Node(3)];
    assert Search(1, [Node(3)], msgs, zero, {} + {1}).0 == {};
    assert Search(1, ms[1..], msgs, zero, {} + {1}).0 == {};
    assert Search(1, [Node(3)], msgs, one, {} + {2}).0 == {} + {2} + {3};
    assert Search(2, ms[1..], msgs, one, {}).0 == {} + {2} + {3};
  }

  /** Whatever `findQuorum` returns, for whatever value, holds a node of any blocking set found. */
  lemma QuorumMeetsBlockingSet(q: QuorumSet, local: NodeId, msgs: Messages, v: Value, w: Value)
    requires ValidSet(q)
    requires FindBlockingSet(q, msgs, {v}).0 != {} && FindQuorum(q, local, msgs, {w}).0 != {}
    ensures FindBlockingSet(q, msgs, {v}).0 * FindQuorum(q, local, msgs, {w}).0 != {}
  {
    FoundSetBlocks(q, msgs, {v});
    FindQuorumGuarantee(q, local, msgs, w);
    BlockingMeetsSlices(q, FindBlockingSet(q, msgs, {v}).0, FindQuorum(q, local, msgs, {w}).0);
  }
}

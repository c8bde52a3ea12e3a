/** Consensus nodes (pkg/consensus/engine.go): message handling, and what every run of a cluster keeps. */
module Consensus {
  import opened Bytes
  import opened EventStore

  datatype Role = Follower | Candidate | Leader

  /** The message types of the source; any other type string is ignored. */
  datatype MessageType = APPEND | VOTE_REQUEST | VOTE | ACK | HEARTBEAT | OTHER

  datatype Message = Message(kind: MessageType, term: uint64, fromId: bytes, traceId: bytes, seqNo: uint64,
                             eventHash: bytes)

  datatype Node = Node(id: bytes, store: Store, role: Role, term: uint64, votedFor: bytes)

  function NewNode(id: bytes): Node {
    Node(id, EMPTY, Follower, 0, [])
  }

  function ReplyOf(n: Node, kind: MessageType): Message {
    Message(kind, n.term, n.id, [], 0, [])
  }

  /** The event an APPEND message carries: the previous hash of a later event is its own hash. */
  function Carried(m: Message): Event {
    Event(m.traceId, m.seqNo, if m.seqNo > 1 then m.eventHash else [], m.eventHash)
  }

  function Handled(n: Node, m: Message): Node {
    match m.kind
    case APPEND =>
      if m.term >= n.term then n.(term := m.term, role := Follower, store := Appended(n.store, Carried(m))) else n
    case VOTE_REQUEST =>
      if m.term > n.term || (m.term == n.term && n.votedFor == []) then
        n.(term := m.term, votedFor := m.fromId, role := Follower)
      else n
    case HEARTBEAT =>
      if m.term >= n.term then n.(term := m.term, role := Follower) else n
    case _ => n
  }

  function Reply(n: Node, m: Message): Option<Message> {
    match m.kind
    case APPEND =>
      if m.term >= n.term && Refusal(n.store, Carried(m)).None? then Some(ReplyOf(Handled(n, m), ACK)) else None
    case VOTE_REQUEST =>
      if m.term > n.term || (m.term == n.term && n.votedFor == []) then Some(ReplyOf(Handled(n, m), VOTE)) else None
    case HEARTBEAT =>
      if m.term >= n.term then Some(ReplyOf(Handled(n, m), ACK)) else None
    case _ => None
  }

  function TermAdvanced(n: Node): Node {
    n.(term := Succ(n.term), role := Candidate)
  }

  /** What a message can do to a node: stale ones do nothing; every reply comes from a follower and carries the term
      of the request; a remembered vote changes only with a VOTE reply to its requester; and the log grows exactly by
      the acknowledged APPENDs. */
  lemma MessageEffects(n: Node, m: Message)
    ensures m.term < n.term ==> Handled(n, m) == n && Reply(n, m).None?
    ensures Handled(n, m) != n ==> Handled(n, m).term == m.term >= n.term && Handled(n, m).role == Follower
    ensures Reply(n, m).Some? ==>
      var r := Reply(n, m).value; r.fromId == n.id && r.term == m.term == Handled(n, m).term
    ensures Handled(n, m).votedFor != n.votedFor ==>
      && m.kind == VOTE_REQUEST && Handled(n, m).votedFor == m.fromId
      && Reply(n, m).Some? && Reply(n, m).value.kind == VOTE
    ensures Handled(n, m).store.log ==
      n.store.log + if m.kind == APPEND && Reply(n, m).Some? then [Carried(m)] else []
    ensures Reply(n, m).Some? && Reply(n, m).value.kind == VOTE ==> m.kind == VOTE_REQUEST
  {
    assert n.store.log + [] == n.store.log;
  }

  /** Whether a node's store has room for what an APPEND announces: the first event of a new trace, or the next number
      of a held one whose tip hash is the announced hash (or none, if the number is at most 1). */
  ghost predicate Fits(n: Node, m: Message)
    requires n.store.lastSeq.Keys == n.store.lastHash.Keys
  {
    if m.traceId in n.store.lastSeq then
      && m.seqNo == (n.store.lastSeq[m.traceId] + 1) % U64
      && n.store.lastHash[m.traceId] == if m.seqNo > 1 then m.eventHash else []
    else m.seqNo == 1
  }

  /** APPEND: a stale term is ignored; otherwise the node follows, and stores and acknowledges exactly what fits. */
  lemma AppendEffects(n: Node, m: Message)
    requires m.kind == APPEND && n.store.lastSeq.Keys == n.store.lastHash.Keys
    ensures m.term < n.term ==> Handled(n, m) == n && Reply(n, m) == None
    ensures m.term >= n.term && Fits(n, m) ==>
      var e := Event(m.traceId, m.seqNo, if m.seqNo > 1 then m.eventHash else [], m.eventHash);
      && Handled(n, m) == Node(n.id, Store(n.store.log + [e], n.store.lastSeq[m.traceId := m.seqNo],
                                           n.store.lastHash[m.traceId := m.eventHash]), Follower, m.term, n.votedFor)
      && Reply(n, m) == Some(Message(ACK, m.term, n.id, [], 0, []))
    ensures m.term >= n.term && !Fits(n, m) ==>
      && Handled(n, m) == Node(n.id, n.store, Follower, m.term, n.votedFor)
      && Reply(n, m) == None
  {
    assert Refusal(n.store, Carried(m)).None? <==> Fits(n, m);
  }

  /** VOTE_REQUEST: granted for a newer term, or in the own term while no vote is remembered. */
  lemma VoteEffects(n: Node, m: Message)
    requires m.kind == VOTE_REQUEST
    ensures if m.term > n.term || (m.term == n.term && n.votedFor == []) then
              && Handled(n, m) == Node(n.id, n.store, Follower, m.term, m.fromId)
              && Reply(n, m) == Some(Message(VOTE, m.term, n.id, [], 0, []))
            else Handled(n, m) == n && Reply(n, m) == None
  {
  }

  /** HEARTBEAT is acknowledged unless stale; VOTE, ACK and unknown messages do nothing. */
  lemma HeartbeatEffects(n: Node, m: Message)
    requires m.kind != APPEND && m.kind != VOTE_REQUEST
    ensures if m.kind == HEARTBEAT && m.term >= n.term then
              && Handled(n, m) == Node(n.id, n.store, Follower, m.term, n.votedFor)
              && Reply(n, m) == Some(Message(ACK, m.term, n.id, [], 0, []))
            else Handled(n, m) == n && Reply(n, m) == None
  {
  }

  class ConsensusNode {
    const id: bytes
    const store: EventStoreObject
    var state: Role
    var term: uint64
    var votedFor: bytes

    ghost function State(): Node
      reads this, store
    {
      Node(id, store.State(), state, term, votedFor)
    }

    constructor (id: bytes)
      ensures State() == NewNode(id) == Node(id, Store([], map[], map[]), Follower, 0, []) && fresh(store)
    {
      this.id := id;
      store := new EventStoreObject();
      state, term, votedFor := Follower, 0, [];
    }

    /** HandleMessage. */
    method HandleMessage(msg: Message) returns (reply: Option<Message>)
      modifies this, store
      ensures State() == Handled(old(State()), msg)
      ensures reply == Reply(old(State()), msg)
    {
      reply := None;
      match msg.kind
      case APPEND =>
        if msg.term >= term {
          term := msg.term;
          state := Follower;
          var prevHash: bytes := [];
          if msg.seqNo > 1 {
            prevHash := msg.eventHash;
          }
          var err := store.Append(Event(msg.traceId, msg.seqNo, prevHash, msg.eventHash));
          if err.None? {
            reply := Some(Message(ACK, term, id, [], 0, []));
          }
        }
      case VOTE_REQUEST =>
        if msg.term > term || (msg.term == term && votedFor == []) {
          term := msg.term;
          votedFor := msg.fromId;
          state := Follower;
          reply := Some(Message(VOTE, term, id, [], 0, []));
        }
      case HEARTBEAT =>
        if msg.term >= term {
          term := msg.term;
          state := Follower;
          reply := Some(Message(ACK, term, id, [], 0, []));
        }
      case _ =>
    }

    /** GEBAdvanceTerm: the counter wraps at 2^64. */
    method GEBAdvanceTerm() returns (t: uint64)
      modifies this
      ensures State() == TermAdvanced(old(State())) && t == term
      ensures term == (old(term) + 1) % U64 && state == Candidate && votedFor == old(votedFor)
      ensures store.State() == old(store.State())
      ensures t > old(term) <==> old(term) != U64 - 1
    {
      term := Succ(term);
      state := Candidate;
      t := term;
    }
  }

  // ---------------------------------------------------------------- quorums and leaders

  function Threshold(n: nat): nat {
    n / 2 + 1
  }

  /** The threshold is the least majority. */
  lemma ThresholdIsLeastMajority(n: nat)
    ensures 2 * Threshold(n) > n && forall k: nat :: 2 * k > n ==> k >= Threshold(n)
  {
  }

  ghost function Active(nodes: seq<Node>): set<nat> {
    set i: nat | i < |nodes| && nodes[i].term > 0
  }

  /** QuorumReached: as many nodes as the threshold have a positive term. */
  method QuorumReached(nodes: seq<Node>, threshold: uint64) returns (reached: bool)
    ensures reached <==> |set i: nat | i < |nodes| && nodes[i].term > 0| >= threshold
  {
    var count := 0;
    for n := 0 to |nodes|
      invariant count == |Active(nodes[..n])|
    {
      assert Active(nodes[..n + 1]) == if nodes[n].term > 0 then Active(nodes[..n]) + {n} else Active(nodes[..n]);
      if nodes[n].term > 0 {
        count := count + 1;
      }
    }
    assert nodes[..|nodes|] == nodes;
    assert Active(nodes) == set i: nat | i < |nodes| && nodes[i].term > 0;
    reached := count >= threshold;
  }

  /** CommitEntry: the store is offered the entry exactly when more than half of the nodes have a positive term. */
  method CommitEntry(node: ConsensusNode, e: Event, nodes: seq<Node>) returns (committed: bool)
    requires |nodes| < U64
    modifies node.store
    ensures var active := |set i: nat | i < |nodes| && nodes[i].term > 0|;
      && (committed <==> 2 * active > |nodes| && Refusal(old(node.store.State()), e).None?)
      && node.store.State() == if 2 * active > |nodes| then Appended(old(node.store.State()), e)
                               else old(node.store.State())
  {
    ThresholdIsLeastMajority(|nodes|);
    var reached := QuorumReached(nodes, Threshold(|nodes|));
    if !reached {
      return false;
    }
    var err := node.store.Append(e);
    committed := err.None?;
  }

  /** `a` ranks below `b`: smaller term, or equal term and shorter log. */
  predicate Below(a: Node, b: Node) {
    a.term < b.term || (a.term == b.term && |a.store.log| < |b.store.log|)
  }

  /** ElectLeader: the first node of highest rank; no node while all have term 0 and empty logs. */
  method ElectLeader(nodes: seq<Node>) returns (leader: bytes)
    ensures (forall n <- nodes :: n.term == 0 && n.store.log == []) ==> leader == []
    ensures (exists n <- nodes :: n.term > 0 || n.store.log != []) ==>
      exists i :: 0 <= i < |nodes| && leader == nodes[i].id
        && (forall j :: 0 <= j < |nodes| ==> nodes[j].term <= nodes[i].term)
        && (forall j :: 0 <= j < |nodes| && nodes[j].term == nodes[i].term ==>
              |nodes[j].store.log| <= |nodes[i].store.log|)
        && (forall j :: 0 <= j < i && nodes[j].term == nodes[i].term ==>
              |nodes[j].store.log| < |nodes[i].store.log|)
  {
    var maxTerm: uint64, maxSeqLen, leaderId: bytes := 0, 0, [];
    ghost var best: nat := |nodes|;
    for k := 0 to |nodes|
      invariant best <= |nodes|
      invariant best == |nodes| ==> maxTerm == 0 && maxSeqLen == 0 && leaderId == []
      invariant best == |nodes| ==> forall j :: 0 <= j < k ==> nodes[j].term == 0 && nodes[j].store.log == []
      invariant best < |nodes| ==> best < k && leaderId == nodes[best].id && maxTerm == nodes[best].term
      invariant best < |nodes| ==> maxSeqLen == |nodes[best].store.log| && (maxTerm > 0 || maxSeqLen > 0)
      invariant best < |nodes| ==> forall j :: 0 <= j < k ==> !Below(nodes[best], nodes[j])
      invariant best < |nodes| ==> forall j :: 0 <= j < best ==> Below(nodes[j], nodes[best])
    {
      var n := nodes[k];
      var logLen := |n.store.log|;
      if n.term > maxTerm || (n.term == maxTerm && logLen > maxSeqLen) {
        maxTerm, maxSeqLen, leaderId := n.term, logLen, n.id;
        best := k;
      }
    }
    leader := leaderId;
  }

  // ---------------------------------------------------------------- runs of a cluster

  datatype Step = Deliver(node: nat, msg: Message) | AdvanceTerm(node: nat)

  function StepNode(c: seq<Node>, s: Step): seq<Node>
    requires s.node < |c|
  {
    match s
    case Deliver(i, m) => c[i := Handled(c[i], m)]
    case AdvanceTerm(i) => c[i := TermAdvanced(c[i])]
  }

  ghost predicate InRange(c: seq<Node>, steps: seq<Step>) {
    forall s <- steps :: s.node < |c|
  }

  function RunFrom(c: seq<Node>, steps: seq<Step>): (r: seq<Node>)
    requires InRange(c, steps)
    ensures |r| == |c|
  {
    if steps == [] then c else StepNode(RunFrom(c, steps[..|steps| - 1]), steps[|steps| - 1])
  }

  ghost predicate DistinctIds(c: seq<Node>) {
    forall i, j :: 0 <= i < j < |c| ==> c[i].id != c[j].id
  }

  /** A fresh cluster of nodes with distinct identifiers. */
  ghost predicate Fresh(c: seq<Node>) {
    DistinctIds(c) && forall i :: 0 <= i < |c| ==> c[i] == NewNode(c[i].id)
  }

  /** A granted vote: which node, in which term, to which requester. */
  datatype Ballot = Ballot(voter: bytes, term: uint64, candidate: bytes)

  function Granted(c: seq<Node>, s: Step): set<Ballot>
    requires s.node < |c|
  {
    if s.Deliver? && Reply(c[s.node], s.msg).Some? && Reply(c[s.node], s.msg).value.kind == VOTE
    then {Ballot(c[s.node].id, Reply(c[s.node], s.msg).value.term, s.msg.fromId)}
    else {}
  }

  /** All VOTE replies of a run. */
  function Ballots(c: seq<Node>, steps: seq<Step>): set<Ballot>
    requires InRange(c, steps)
  {
    if steps == [] then {}
    else Ballots(c, steps[..|steps| - 1]) + Granted(RunFrom(c, steps[..|steps| - 1]), steps[|steps| - 1])
  }

  /** Who may request votes, and whether a term counter may wrap round. */
  datatype Policy = Policy(requesters: set<bytes>, wrapAllowed: bool)

  ghost predicate StepAllowed(c: seq<Node>, s: Step, p: Policy)
    requires s.node < |c|
  {
    && (s.Deliver? && s.msg.kind == VOTE_REQUEST ==> s.msg.fromId in p.requesters)
    && (s.AdvanceTerm? && !p.wrapAllowed ==> c[s.node].term != U64 - 1)
  }

  ghost predicate Allowed(c: seq<Node>, steps: seq<Step>, p: Policy): (r: bool)
    ensures r ==> InRange(c, steps)
  {
    && InRange(c, steps)
    && (steps == [] || (Allowed(c, steps[..|steps| - 1], p)
                        && StepAllowed(RunFrom(c, steps[..|steps| - 1]), steps[|steps| - 1], p)))
  }

  /** A node votes for at most one requester in a term. */
  ghost predicate OneVotePerTerm(ballots: set<Ballot>) {
    forall a, b :: a in ballots && b in ballots && a.voter == b.voter && a.term == b.term ==> a.candidate == b.candidate
  }

  /** The inductive invariant: past votes of a node are not in its future, and the vote of its current term, if
      any, is the one it remembers. */
  ghost predicate VotesRemembered(c: seq<Node>, ballots: set<Ballot>) {
    forall b <- ballots ::
      && b.candidate != []
      && exists i :: 0 <= i < |c| && Remembers(c[i], b)
  }

  ghost predicate Remembers(n: Node, b: Ballot) {
    n.id == b.voter && b.term <= n.term && (b.term == n.term ==> n.votedFor == b.candidate)
  }

  /** A remembered vote stays remembered, and no second vote of the same term is cast beside it. */
  lemma MemoryKept(n: Node, m: Message, b: Ballot)
    requires Remembers(n, b) && b.candidate != []
    ensures Remembers(Handled(n, m), b)
    ensures Reply(n, m).Some? && Reply(n, m).value.kind == VOTE ==> Reply(n, m).value.term != b.term
  {
  }

  lemma NewVoteRemembered(n: Node, m: Message)
    requires Reply(n, m).Some? && Reply(n, m).value.kind == VOTE
    ensures m.kind == VOTE_REQUEST && Remembers(Handled(n, m), Ballot(n.id, Reply(n, m).value.term, m.fromId))
  {
  }

  lemma StepKeepsVotes(c: seq<Node>, s: Step, ballots: set<Ballot>, p: Policy)
    requires s.node < |c| && DistinctIds(c) && StepAllowed(c, s, p)
    requires [] !in p.requesters && !p.wrapAllowed
    requires VotesRemembered(c, ballots) && OneVotePerTerm(ballots)
    ensures VotesRemembered(StepNode(c, s), ballots + Granted(c, s))
    ensures OneVotePerTerm(ballots + Granted(c, s))
    ensures DistinctIds(StepNode(c, s))
  {
    assert DistinctIds(StepNode(c, s)) by { hide Reply, Granted, Appended; }
    hide Handled, Reply;
    var c' := StepNode(c, s);
    forall b | b in ballots + Granted(c, s)
      ensures b.candidate != [] && exists i :: 0 <= i < |c'| && Remembers(c'[i], b)
    {
      if b in ballots {
        var i :| 0 <= i < |c| && Remembers(c[i], b);
        if s.Deliver? && i == s.node { MemoryKept(c[i], s.msg, b); }
        assert Remembers(c'[i], b);
      } else {
        NewVoteRemembered(c[s.node], s.msg);
        assert Remembers(c'[s.node], b);
      }
    }
    forall a, b | a in ballots && b in Granted(c, s) ensures a.voter != b.voter || a.term != b.term {
      var i :| 0 <= i < |c| && Remembers(c[i], a);
      if i == s.node {
        MemoryKept(c[i], s.msg, a);
      } else {
        assert c[i].id != c[s.node].id;
      }
    }
  }

  lemma {:induction false} RunKeepsVotes(c: seq<Node>, steps: seq<Step>, p: Policy)
    requires Fresh(c) && Allowed(c, steps, p)
    requires [] !in p.requesters && !p.wrapAllowed
    ensures VotesRemembered(RunFrom(c, steps), Ballots(c, steps))
    ensures OneVotePerTerm(Ballots(c, steps))
    ensures DistinctIds(RunFrom(c, steps))
  {
    if steps != [] {
      var before, s := steps[..|steps| - 1], steps[|steps| - 1];
      RunKeepsVotes(c, before, p);
      StepKeepsVotes(RunFrom(c, before), s, Ballots(c, before), p);
    }
  }

  // ---------------------------------------------------------------- election safety

  /** The nodes that voted for `candidate` in `term`. */
  function Voters(ballots: set<Ballot>, term: uint64, candidate: bytes): set<bytes> {
    set b <- ballots | b.term == term && b.candidate == candidate :: b.voter
  }

  function Ids(c: seq<Node>): set<bytes> {
    set n <- c :: n.id
  }

  lemma {:induction false} IdsBound(c: seq<Node>)
    ensures |Ids(c)| <= |c|
  {
    if c != [] {
      var front := c[..|c| - 1];
      IdsBound(front);
      assert Ids(c) == Ids(front) + {c[|c| - 1].id};
    }
  }

  /** No two requesters both collect a quorum of votes in one term. */
  ghost predicate ElectionSafe(n: nat, ballots: set<Ballot>) {
    forall t: uint64, a: bytes, b: bytes ::
      |Voters(ballots, t, a)| >= Threshold(n) && |Voters(ballots, t, b)| >= Threshold(n) ==> a == b
  }

  lemma QuorumsIntersect(c: seq<Node>, ballots: set<Ballot>)
    requires OneVotePerTerm(ballots) && forall b <- ballots :: b.voter in Ids(c)
    ensures ElectionSafe(|c|, ballots)
  {
    forall t: uint64, a, b | |Voters(ballots, t, a)| >= Threshold(|c|) && |Voters(ballots, t, b)| >= Threshold(|c|)
      ensures a == b
    {
      var A, B := Voters(ballots, t, a), Voters(ballots, t, b);
      IdsBound(c);
      if a != b { DisjointSizes(A, B, Ids(c)); }
    }
  }

  lemma DisjointSizes<T>(a: set<T>, b: set<T>, all: set<T>)
    requires a !! b && a <= all && b <= all
    ensures |a| + |b| <= |all|
  {
    SubsetSize(a + b, all);
    assert |a + b| == |a| + |b|;
  }

  lemma {:induction false} SubsetSize<T>(a: set<T>, b: set<T>)
    requires a <= b
    ensures |a| <= |b|
  {
    if a != {} {
      var x :| x in a;
      SubsetSize(a - {x}, b - {x});
    }
  }

  /** Election safety, for any number of nodes and any interleaving of messages and term advances. */
  lemma ElectionSafety(c: seq<Node>, steps: seq<Step>, p: Policy)
    requires Fresh(c) && Allowed(c, steps, p)
    requires [] !in p.requesters && !p.wrapAllowed
    ensures ElectionSafe(|c|, Ballots(c, steps))
  {
    RunKeepsVotes(c, steps, p);
    QuorumsIntersect(RunFrom(c, steps), Ballots(c, steps));
  }

  // ---------------------------------------------------------------- the two hypotheses are needed

  function Ask(i: nat, term: uint64, from: bytes): Step {
    Deliver(i, Message(VOTE_REQUEST, term, from, [], 0, []))
  }

  /** A few steps at node `i` that make it vote twice in term 1. */
  function TwoVotes(i: nat, a: bytes, b: bytes): seq<Step> {
    if a == [] then [Ask(i, 1, a), Ask(i, 1, b)]
    else [Ask(i, 1, a), Deliver(i, Message(HEARTBEAT, U64 - 1, [], [], 0, [])), AdvanceTerm(i), Ask(i, 1, b)]
  }

  function TwoVotesEach(k: nat, a: bytes, b: bytes): seq<Step> {
    if k == 0 then [] else TwoVotesEach(k - 1, a, b) + TwoVotes(k - 1, a, b)
  }

  lemma RunSnoc(c: seq<Node>, steps: seq<Step>, s: Step, p: Policy)
    requires Allowed(c, steps, p) && s.node < |c| && StepAllowed(RunFrom(c, steps), s, p)
    ensures Allowed(c, steps + [s], p)
    ensures RunFrom(c, steps + [s]) == StepNode(RunFrom(c, steps), s)
    ensures Ballots(c, steps + [s]) == Ballots(c, steps) + Granted(RunFrom(c, steps), s)
  {
    assert (steps + [s])[..|steps|] == steps;
  }

  ghost predicate SameElsewhere(r: seq<Node>, r': seq<Node>, i: nat) {
    |r| == |r'| && forall j :: 0 <= j < |r| && j != i ==> r'[j] == r[j]
  }

  /** Nodes from `k` on are as they were. */
  ghost predicate Untouched(c: seq<Node>, r: seq<Node>, k: nat) {
    |r| == |c| && forall j :: k <= j < |c| ==> r[j] == c[j]
  }

  lemma UntouchedNext(c: seq<Node>, r: seq<Node>, r': seq<Node>, k: nat)
    requires Untouched(c, r, k) && SameElsewhere(r, r', k)
    ensures Untouched(c, r', k + 1)
  {
  }

  /** An empty requester ID is forgotten at once, so the next request of the term is granted too. */
  lemma TwoVotesByEmptyId(c: seq<Node>, steps: seq<Step>, i: nat, a: bytes, b: bytes, p: Policy)
    requires Allowed(c, steps, p) && i < |c|
    requires RunFrom(c, steps)[i] == NewNode(c[i].id)
    requires a in p.requesters && b in p.requesters && a == []
    ensures var steps' := steps + TwoVotes(i, a, b);
      && Allowed(c, steps', p)
      && SameElsewhere(RunFrom(c, steps), RunFrom(c, steps'), i)
      && Ballots(c, steps) <= Ballots(c, steps')
      && Ballot(c[i].id, 1, a) in Ballots(c, steps') && Ballot(c[i].id, 1, b) in Ballots(c, steps')
  {
    hide RunFrom, Ballots, Allowed;
    var s1, s2 := Ask(i, 1, a), Ask(i, 1, b);
    RunSnoc(c, steps, s1, p);
    RunSnoc(c, steps + [s1], s2, p);
    assert steps + [s1] + [s2] == steps + TwoVotes(i, a, b);
  }

  /** A wrapped term counter makes an old term look new. */
  lemma TwoVotesByWrap(c: seq<Node>, steps: seq<Step>, i: nat, a: bytes, b: bytes, p: Policy)
    requires Allowed(c, steps, p) && i < |c|
    requires RunFrom(c, steps)[i] == NewNode(c[i].id)
    requires a in p.requesters && b in p.requesters && a != [] && p.wrapAllowed
    ensures var steps' := steps + TwoVotes(i, a, b);
      && Allowed(c, steps', p)
      && SameElsewhere(RunFrom(c, steps), RunFrom(c, steps'), i)
      && Ballots(c, steps) <= Ballots(c, steps')
      && Ballot(c[i].id, 1, a) in Ballots(c, steps') && Ballot(c[i].id, 1, b) in Ballots(c, steps')
  {
    hide RunFrom, Ballots, Allowed, Appended;
    var s1, s4 := Ask(i, 1, a), Ask(i, 1, b);
    var s2, s3 := Deliver(i, Message(HEARTBEAT, U64 - 1, [], [], 0, [])), AdvanceTerm(i);
    var n := NewNode(c[i].id);
    RunSnoc(c, steps, s1, p);
    var r1 := steps + [s1];
    assert RunFrom(c, r1)[i] == n.(term := 1, votedFor := a);
    RunSnoc(c, r1, s2, p);
    var r2 := r1 + [s2];
    assert RunFrom(c, r2)[i] == n.(term := U64 - 1, votedFor := a);
    RunSnoc(c, r2, s3, p);
    var r3 := r2 + [s3];
    assert RunFrom(c, r3)[i] == n.(term := 0, votedFor := a, role := Candidate);
    RunSnoc(c, r3, s4, p);
    assert r3 + [s4] == steps + TwoVotes(i, a, b);
  }

  lemma TwoVotesHappen(c: seq<Node>, steps: seq<Step>, i: nat, a: bytes, b: bytes, p: Policy)
    requires Allowed(c, steps, p) && i < |c|
    requires RunFrom(c, steps)[i] == NewNode(c[i].id)
    requires a in p.requesters && b in p.requesters && (a == [] || p.wrapAllowed)
    ensures var steps' := steps + TwoVotes(i, a, b);
      && Allowed(c, steps', p)
      && SameElsewhere(RunFrom(c, steps), RunFrom(c, steps'), i)
      && Ballots(c, steps) <= Ballots(c, steps')
      && Ballot(c[i].id, 1, a) in Ballots(c, steps') && Ballot(c[i].id, 1, b) in Ballots(c, steps')
  {
    hide RunFrom, Ballots, Allowed, TwoVotes;
    if a == [] {
      TwoVotesByEmptyId(c, steps, i, a, b, p);
    } else {
      TwoVotesByWrap(c, steps, i, a, b, p);
    }
  }

  /** The first `k` nodes have voted for `a` in term 1. */
  ghost predicate AllVoted(c: seq<Node>, k: nat, ballots: set<Ballot>, a: bytes)
    requires k <= |c|
  {
    forall j :: 0 <= j < k ==> Ballot(c[j].id, 1, a) in ballots
  }

  lemma AllVotedSnoc(c: seq<Node>, k: nat, before: set<Ballot>, after: set<Ballot>, a: bytes)
    requires k < |c| && AllVoted(c, k, before, a) && before <= after && Ballot(c[k].id, 1, a) in after
    ensures AllVoted(c, k + 1, after, a)
  {
  }

  lemma TwoQuorumsStep(c: seq<Node>, before: seq<Step>, k: nat, a: bytes, b: bytes, p: Policy)
    requires Fresh(c) && k < |c| && Allowed(c, before, p) && Untouched(c, RunFrom(c, before), k)
    requires AllVoted(c, k, Ballots(c, before), a) && AllVoted(c, k, Ballots(c, before), b)
    requires a in p.requesters && b in p.requesters && (a == [] || p.wrapAllowed)
    ensures var after := before + TwoVotes(k, a, b);
      && Allowed(c, after, p) && Untouched(c, RunFrom(c, after), k + 1)
      && AllVoted(c, k + 1, Ballots(c, after), a) && AllVoted(c, k + 1, Ballots(c, after), b)
  {
    hide RunFrom, Ballots, Allowed, InRange, TwoVotes, AllVoted, SameElsewhere;
    TwoVotesHappen(c, before, k, a, b, p);
    var after := before + TwoVotes(k, a, b);
    UntouchedNext(c, RunFrom(c, before), RunFrom(c, after), k);
    AllVotedSnoc(c, k, Ballots(c, before), Ballots(c, after), a);
    AllVotedSnoc(c, k, Ballots(c, before), Ballots(c, after), b);
  }

  lemma NobodyVotedYet(c: seq<Node>, a: bytes, p: Policy)
    ensures Allowed(c, [], p) && Untouched(c, RunFrom(c, []), 0) && AllVoted(c, 0, Ballots(c, []), a)
  {
  }

  lemma {:induction false} TwoQuorums(c: seq<Node>, k: nat, a: bytes, b: bytes, p: Policy)
    requires Fresh(c) && k <= |c|
    requires a in p.requesters && b in p.requesters && (a == [] || p.wrapAllowed)
    ensures var steps := TwoVotesEach(k, a, b);
      && Allowed(c, steps, p) && Untouched(c, RunFrom(c, steps), k)
      && AllVoted(c, k, Ballots(c, steps), a) && AllVoted(c, k, Ballots(c, steps), b)
  {
    hide RunFrom, Ballots, Allowed, TwoVotes, AllVoted, Untouched, Fresh;
    if k == 0 {
      NobodyVotedYet(c, a, p);
      NobodyVotedYet(c, b, p);
    } else {
      TwoQuorums(c, k - 1, a, b, p);
      TwoQuorumsStep(c, TwoVotesEach(k - 1, a, b), k - 1, a, b, p);
    }
  }

  lemma {:induction false} IdsExact(c: seq<Node>)
    requires DistinctIds(c)
    ensures |Ids(c)| == |c|
  {
    if c != [] {
      var front, last := c[..|c| - 1], c[|c| - 1];
      IdsExact(front);
      assert Ids(c) == Ids(front) + {last.id};
      assert last.id !in Ids(front);
    }
  }

  /** Election safety holds for every run of a cluster if and only if no requester has an empty identifier and no
      term counter wraps round. */
  lemma ElectionSafetyIff(c: seq<Node>, p: Policy, a: bytes, b: bytes)
    requires Fresh(c) && c != [] && a in p.requesters && b in p.requesters && a != b
    ensures (forall steps | Allowed(c, steps, p) :: ElectionSafe(|c|, Ballots(c, steps)))
       <==> [] !in p.requesters && !p.wrapAllowed
  {
    if [] !in p.requesters && !p.wrapAllowed {
      forall steps | Allowed(c, steps, p) ensures ElectionSafe(|c|, Ballots(c, steps)) {
        ElectionSafety(c, steps, p);
      }
    } else {
      var x, y := if [] in p.requesters then [] else a, if [] in p.requesters && b == [] then a else b;
      TwoQuorums(c, |c|, x, y, p);
      var ballots := Ballots(c, TwoVotesEach(|c|, x, y));
      EverybodyVoted(c, ballots, x);
      EverybodyVoted(c, ballots, y);
      assert !ElectionSafe(|c|, ballots);
    }
  }

  lemma EverybodyVoted(c: seq<Node>, ballots: set<Ballot>, a: bytes)
    requires Fresh(c) && c != [] && AllVoted(c, |c|, ballots, a)
    ensures |Voters(ballots, 1, a)| >= Threshold(|c|)
  {
    IdsExact(c);
    forall j | 0 <= j < |c| ensures c[j].id in Voters(ballots, 1, a) {
      assert Ballot(c[j].id, 1, a) in ballots;
    }
    SubsetSize(Ids(c), Voters(ballots, 1, a));
  }

  // ---------------------------------------------------------------- what later steps keep

  /** What a node has gained, it keeps. */
  ghost predicate Extends(n: Node, n': Node, wrapAllowed: bool) {
    && n'.id == n.id && n.store.log <= n'.store.log
    && (!wrapAllowed ==> n.term <= n'.term)
  }

  lemma StepExtends(c: seq<Node>, s: Step, p: Policy, i: nat)
    requires s.node < |c| && StepAllowed(c, s, p) && i < |c|
    ensures Extends(c[i], StepNode(c, s)[i], p.wrapAllowed)
  {
  }

  /** Terms never fall and logs only grow. */
  lemma {:induction false} RunExtends(c: seq<Node>, steps: seq<Step>, later: seq<Step>, p: Policy, i: nat)
    requires Allowed(c, steps + later, p) && i < |c|
    ensures Allowed(c, steps, p)
    ensures Extends(RunFrom(c, steps)[i], RunFrom(c, steps + later)[i], p.wrapAllowed)
  {
    if later == [] {
      assert steps + later == steps;
    } else {
      hide StepNode, StepAllowed;
      var front, s := later[..|later| - 1], later[|later| - 1];
      assert (steps + later)[..|steps + later| - 1] == steps + front;
      RunExtends(c, steps, front, p, i);
      StepExtends(RunFrom(c, steps + front), s, p, i);
    }
  }

  lemma {:induction false} AllowedPrefix(c: seq<Node>, steps: seq<Step>, later: seq<Step>, p: Policy)
    requires Allowed(c, steps + later, p)
    ensures Allowed(c, steps, p)
  {
    if later == [] {
      assert steps + later == steps;
    } else {
      assert (steps + later)[..|steps + later| - 1] == steps + later[..|later| - 1];
      AllowedPrefix(c, steps, later[..|later| - 1], p);
    }
  }

  /** A reached quorum is never lost. */
  lemma QuorumKept(c: seq<Node>, steps: seq<Step>, later: seq<Step>, p: Policy, threshold: nat)
    requires Allowed(c, steps + later, p) && !p.wrapAllowed
    ensures Allowed(c, steps, p)
    ensures |Active(RunFrom(c, steps))| >= threshold ==> |Active(RunFrom(c, steps + later))| >= threshold
  {
    AllowedPrefix(c, steps, later, p);
    forall i | 0 <= i < |c| ensures RunFrom(c, steps)[i].term <= RunFrom(c, steps + later)[i].term {
      RunExtends(c, steps, later, p, i);
    }
    SubsetSize(Active(RunFrom(c, steps)), Active(RunFrom(c, steps + later)));
  }

  // ---------------------------------------------------------------- logs fed by messages only

  /** In a trace built from APPEND messages an event numbered above 1 repeats its predecessor's hash. */
  ghost predicate Repeating(es: seq<Event>) {
    forall e <- es :: e.seqNo > 1 ==> e.eventHash == e.prevHash
  }

  ghost predicate MessageFed(s: Store) {
    Valid(s) && Repeating(s.log)
  }

  lemma {:induction false} RunIsMessageFed(c: seq<Node>, steps: seq<Step>, p: Policy, i: nat)
    requires Fresh(c) && Allowed(c, steps, p) && i < |c|
    ensures MessageFed(RunFrom(c, steps)[i].store)
  {
    if steps == [] {
      RunIsValid([]);
    } else {
      var before, s := steps[..|steps| - 1], steps[|steps| - 1];
      RunIsMessageFed(c, before, p, i);
      if s.Deliver? {
        AppendKeepsValid(RunFrom(c, before)[i].store, Carried(s.msg));
      }
    }
  }

  /** APPENDs numbered 1 to k of one hash. */
  function Announce(k: nat, term: uint64, t: bytes, h: bytes): (steps: seq<Step>)
    requires k < U64
    ensures |steps| == k && forall s <- steps :: s.node == 0
    ensures forall i :: 0 <= i < k ==> steps[i] == Deliver(0, Message(APPEND, term, [], t, i + 1, h))
  {
    if k == 0 then [] else Announce(k - 1, term, t, h) + [Deliver(0, Message(APPEND, term, [], t, k, h))]
  }

  /** The node holds exactly the events 1 to k of trace `t`, all with hash `h`. */
  ghost predicate HoldsAnnounced(n: Node, k: nat, term: uint64, t: bytes, h: bytes)
    requires k < U64
  {
    && |n.store.log| == k
    && (forall i :: 0 <= i < k ==> n.store.log[i] == Event(t, i + 1, if i == 0 then [] else h, h))
    && n.store.lastSeq == (if k == 0 then map[] else map[t := k])
    && n.store.lastHash == (if k == 0 then map[] else map[t := h])
    && n.term == if k == 0 then 0 else term
  }

  lemma AnnounceStep(n: Node, k: nat, term: uint64, t: bytes, h: bytes)
    requires k + 1 < U64 && HoldsAnnounced(n, k, term, t, h)
    ensures var m := Message(APPEND, term, [], t, k + 1, h);
      HoldsAnnounced(Handled(n, m), k + 1, term, t, h) && Reply(n, m) == Some(Message(ACK, term, n.id, [], 0, []))
  {
    var m := Message(APPEND, term, [], t, k + 1, h);
    AppendEffects(n, m);
    hide Handled, Reply;
    assert Fits(n, m);
  }

  /** Delivered to a fresh node they are all acknowledged, and leave exactly the events 1 to k. */
  lemma {:induction false} AnnouncedIsStored(id: bytes, k: nat, term: uint64, t: bytes, h: bytes)
    requires k < U64
    ensures HoldsAnnounced(RunFrom([NewNode(id)], Announce(k, term, t, h))[0], k, term, t, h)
    ensures k + 1 < U64 ==>
      var n := RunFrom([NewNode(id)], Announce(k, term, t, h))[0];
      Reply(n, Message(APPEND, term, [], t, k + 1, h)) == Some(Message(ACK, term, n.id, [], 0, []))
  {
    var c := [NewNode(id)];
    var n := RunFrom(c, Announce(k, term, t, h))[0];
    if k > 0 {
      hide HoldsAnnounced, Handled, Reply;
      var before, m := Announce(k - 1, term, t, h), Message(APPEND, term, [], t, k, h);
      AnnouncedIsStored(id, k - 1, term, t, h);
      AnnounceStep(RunFrom(c, before)[0], k - 1, term, t, h);
      assert Announce(k, term, t, h)[..k - 1] == before;
      assert n == Handled(RunFrom(c, before)[0], m);
    } else {
      assert n == NewNode(id);
    }
    if k + 1 < U64 { AnnounceStep(n, k, term, t, h); }
  }

  lemma {:induction false} OneHashPerTrace(s: Store, t: bytes, k: nat)
    requires MessageFed(s) && k < |Trace(s.log, t)| < U64
    ensures Trace(s.log, t)[k].eventHash == Trace(s.log, t)[0].eventHash
  {
    var mine := Trace(s.log, t);
    assert TraceValid(s, t);
    if k > 0 {
      OneHashPerTrace(s, t, k - 1);
      assert Linked(mine, k);
      TraceMember(s.log, t, k);
    }
  }

  lemma {:induction false} TraceMember(log: seq<Event>, t: bytes, k: nat)
    requires k < |Trace(log, t)|
    ensures Trace(log, t)[k] in log
  {
    var front := log[..|log| - 1];
    assert log == front + [log[|log| - 1]];
    TraceSnoc(front, log[|log| - 1], t);
    if k < |Trace(front, t)| {
      TraceMember(front, t, k);
    }
  }

  lemma SameStartComparable(s: Store, s': Store, t: bytes)
    requires MessageFed(s) && MessageFed(s')
    requires var a, b := Trace(s.log, t), Trace(s'.log, t);
      0 < |a| < U64 && 0 < |b| < U64 && a[0].eventHash == b[0].eventHash
    ensures var a, b := Trace(s.log, t), Trace(s'.log, t); a <= b || b <= a
  {
    hide Trace;
    var a, b := Trace(s.log, t), Trace(s'.log, t);
    assert TraceValid(s, t) && TraceValid(s', t);
    forall k | 0 <= k < |a| && k < |b| ensures a[k] == b[k] {
      OneHashPerTrace(s, t, k);
      OneHashPerTrace(s', t, k);
      assert Linked(a, k) && Linked(b, k);
      if k > 0 {
        OneHashPerTrace(s, t, k - 1);
        OneHashPerTrace(s', t, k - 1);
      }
    }
  }

  /** Two nodes fed only by messages whose trace begins with the same hash hold comparable logs for it: one is a
      prefix of the other. */
  lemma PrefixComparable(c: seq<Node>, steps: seq<Step>, p: Policy, i: nat, j: nat, t: bytes)
    requires Fresh(c) && Allowed(c, steps, p) && i < |c| && j < |c|
    requires var a, b := Trace(RunFrom(c, steps)[i].store.log, t), Trace(RunFrom(c, steps)[j].store.log, t);
      0 < |a| < U64 && 0 < |b| < U64 && a[0].eventHash == b[0].eventHash
    ensures var a, b := Trace(RunFrom(c, steps)[i].store.log, t), Trace(RunFrom(c, steps)[j].store.log, t);
      a <= b || b <= a
  {
    RunIsMessageFed(c, steps, p, i);
    RunIsMessageFed(c, steps, p, j);
    hide RunFrom, Trace;
    SameStartComparable(RunFrom(c, steps)[i].store, RunFrom(c, steps)[j].store, t);
  }

  /** Delivering an APPEND again, at any later point of the run, adds nothing. */
  lemma RedeliveryAddsNothing(c: seq<Node>, steps: seq<Step>, later: seq<Step>, p: Policy, i: nat, m: Message)
    requires Fresh(c) && i < |c| && m.kind == APPEND && Allowed(c, steps + [Deliver(i, m)] + later, p)
    requires Allowed(c, steps, p) && Reply(RunFrom(c, steps)[i], m).Some?
    requires |Trace(RunFrom(c, steps + [Deliver(i, m)] + later)[i].store.log, m.traceId)| < U64
    ensures var n := RunFrom(c, steps + [Deliver(i, m)] + later)[i];
      Handled(n, m).store == n.store
  {
    var e := Carried(m);
    var once, all := steps + [Deliver(i, m)], steps + [Deliver(i, m)] + later;
    RunExtends(c, once, later, p, i);
    assert once[..|once| - 1] == steps;
    RunIsMessageFed(c, steps, p, i);
    RunIsMessageFed(c, all, p, i);
    StaleIsRefused(RunFrom(c, steps)[i].store, RunFrom(c, all)[i].store, e);
  }
}

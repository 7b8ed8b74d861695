/**
 A cluster of kiosks electing a leader over a network that may lose, repeat,
 delay and reorder messages, and no term of which passes the largest `u64`.

 Two more things here are hypotheses about code that does not exist yet in the
 daemon: `CountVote` (nothing in the daemon raises `votes_received`) and the
 value of `peers` (the daemon leaves `known_peers` at 1). The theorems say for
 exactly which values of `peers` elections are safe.
 */
module Election {
  import opened Common
  import opened Raft

  datatype Message =
    | VoteRequest(term: nat, candidate: string)
    | Heartbeat(term: nat, leader: string)

  /** A vote given by `voter`: to itself at the start of an election, or by the RPC handler. */
  datatype Ballot = Ballot(voter: string, term: nat, candidate: string)

  /**
   `sent` only grows, so any message can be delivered never, late or many times.
   `ballots` records every vote ever given. `counted[c]` are the voters whose
   responses candidate `c` has counted in its current election.
   */
  datatype Cluster = Cluster(
    nodes: map<string, Node>,
    sent: set<Message>,
    ballots: set<Ballot>,
    counted: map<string, set<string>>)

  datatype Step =
    | TimerStep(id: string, timedOut: bool)
    | HeartbeatStep(id: string)
    | DeliverHeartbeat(id: string, term: nat, leader: string)
    | DeliverVoteRequest(id: string, term: nat, candidate: string)
    | CountVote(id: string, voter: string)
    | ShutdownStep(id: string)

  ghost predicate Init(c: Cluster, ids: set<string>, peers: nat) {
    && c.nodes == (map x | x in ids :: Fresh(x, peers))
    && c.counted == (map x | x in ids :: {})
    && c.sent == {} && c.ballots == {}
  }

  predicate Enabled(c: Cluster, s: Step) {
    && s.id in c.nodes && s.id in c.counted
    && match s
       case TimerStep(id, timedOut) => StartsElection(c.nodes[id], timedOut) ==> c.nodes[id].term < U64_MAX
       case HeartbeatStep(id) => c.nodes[id].role.Leader?
       case DeliverHeartbeat(_, t, l) => Heartbeat(t, l) in c.sent
       case DeliverVoteRequest(_, t, x) => VoteRequest(t, x) in c.sent
       case CountVote(id, v) =>
         && c.nodes[id].role.Candidate?
         && Ballot(v, c.nodes[id].term, id) in c.ballots
         && v !in c.counted[id]
       case ShutdownStep(_) => true
  }

  function Apply(c: Cluster, s: Step): Cluster
    requires Enabled(c, s)
  {
    var n := c.nodes[s.id];
    match s
    case TimerStep(id, timedOut) =>
      var n1 := Tick(n, timedOut);
      if StartsElection(n, timedOut) then
        Cluster(c.nodes[id := n1], c.sent + {VoteRequest(n1.term, id)},
                c.ballots + {Ballot(id, n1.term, id)}, c.counted[id := {id}])
      else c.(nodes := c.nodes[id := n1])
    case HeartbeatStep(id) =>
      c.(sent := c.sent + {Heartbeat(n.term, n.id)})
    case DeliverHeartbeat(id, t, l) =>
      c.(nodes := c.nodes[id := AppendEntries(n, t, l).0])
    case DeliverVoteRequest(id, t, x) =>
      var (n1, granted) := RequestVote(n, t, x);
      c.(nodes := c.nodes[id := n1],
         ballots := if granted then c.ballots + {Ballot(id, t, x)} else c.ballots)
    case CountVote(id, v) =>
      c.(nodes := c.nodes[id := n.(votes := n.votes + 1)],
         counted := c.counted[id := c.counted[id] + {v}])
    case ShutdownStep(id) =>
      c.(nodes := c.nodes[id := Shutdown(n)])
  }

  ghost predicate Next(c: Cluster, c': Cluster) {
    exists s :: Enabled(c, s) && c' == Apply(c, s)
  }

  ghost predicate StepAt(trace: seq<Cluster>, i: int)
    requires 0 <= i < |trace| - 1
  {
    Next(trace[i], trace[i + 1])
  }

  ghost predicate IsRun(ids: set<string>, peers: nat, trace: seq<Cluster>) {
    && |trace| > 0
    && Init(trace[0], ids, peers)
    && forall i :: 0 <= i < |trace| - 1 ==> StepAt(trace, i)
  }

  /** Everyone who ever voted for `x` in term `t`. */
  function Voters(c: Cluster, t: nat, x: string): set<string> {
    set b | b in c.ballots && b.term == t && b.candidate == x :: b.voter
  }

  predicate Elected(c: Cluster, peers: nat, t: nat, x: string) {
    |Voters(c, t, x)| >= Majority(peers)
  }

  // ----- invariant

  ghost predicate NodesInv(c: Cluster, ids: set<string>, peers: nat) {
    && c.nodes.Keys == ids && c.counted.Keys == ids
    && forall x :: x in ids ==> c.nodes[x].id == x && c.nodes[x].peers == peers
  }

  /** A node's past votes are in terms it has reached, and `votedFor` is the one of its current term. */
  ghost predicate BallotInv(c: Cluster, ids: set<string>)
    requires c.nodes.Keys == ids
  {
    && (forall b :: b in c.ballots ==>
         && b.voter in ids
         && b.term <= c.nodes[b.voter].term
         && (b.term == c.nodes[b.voter].term ==> c.nodes[b.voter].votedFor == Some(b.candidate)))
    && (forall b, b' :: b in c.ballots && b' in c.ballots && b.voter == b'.voter && b.term == b'.term ==> b == b')
  }

  ghost predicate CampaignInv(c: Cluster, x: string)
    requires x in c.nodes && x in c.counted
  {
    var n := c.nodes[x];
    && (!n.role.Follower? ==> forall v :: v in c.counted[x] ==> Ballot(v, n.term, x) in c.ballots)
    && (n.role.Candidate? ==> n.votes == |c.counted[x]|)
    && (n.role.Leader? ==> |c.counted[x]| >= Majority(n.peers))
  }

  ghost predicate Inv(c: Cluster, ids: set<string>, peers: nat) {
    && NodesInv(c, ids, peers)
    && BallotInv(c, ids)
    && (forall x :: x in ids ==> CampaignInv(c, x))
    && (forall t, l :: Heartbeat(t, l) in c.sent ==> Elected(c, peers, t, l))
  }

  lemma VotersGrow(c: Cluster, c': Cluster, peers: nat, t: nat, x: string)
    requires c.ballots <= c'.ballots
    requires Elected(c, peers, t, x)
    ensures Elected(c', peers, t, x)
  {
    SubsetCardinality(Voters(c, t, x), Voters(c', t, x));
  }

  lemma LeaderElected(c: Cluster, ids: set<string>, peers: nat, x: string)
    requires NodesInv(c, ids, peers) && x in ids && CampaignInv(c, x)
    requires c.nodes[x].role.Leader?
    ensures Elected(c, peers, c.nodes[x].term, x)
  {
    var t := c.nodes[x].term;
    forall v | v in c.counted[x] ensures v in Voters(c, t, x) {
      assert Ballot(v, t, x) in c.ballots;
    }
    SubsetCardinality(c.counted[x], Voters(c, t, x));
  }

  /** The term never falls, and a vote cast in a term stays as long as the term does. */
  ghost predicate NodeEvolves(n: Node, n': Node) {
    && n'.id == n.id && n'.peers == n.peers
    && n.term <= n'.term
    && (n.term == n'.term && n.votedFor.Some? ==> n'.votedFor == n.votedFor)
  }

  /** A new ballot is the vote its voter now holds. */
  ghost predicate BallotCast(c: Cluster, c': Cluster, id: string)
    requires id in c'.nodes
  {
    var n' := c'.nodes[id];
    || c'.ballots == c.ballots
    || (n'.votedFor.Some? && c'.ballots == c.ballots + {Ballot(id, n'.term, n'.votedFor.value)})
  }

  lemma StepEffect(c: Cluster, s: Step)
    requires Enabled(c, s)
    ensures var c' := Apply(c, s);
            && s.id in c'.nodes
            && c'.nodes == c.nodes[s.id := c'.nodes[s.id]]
            && c'.counted.Keys == c.counted.Keys
            && NodeEvolves(c.nodes[s.id], c'.nodes[s.id])
    ensures c.nodes[s.id].id == s.id ==> BallotCast(c, Apply(c, s), s.id)
  {
  }

  lemma EffectKeepsBallots(c: Cluster, c': Cluster, ids: set<string>, id: string)
    requires c.nodes.Keys == ids && BallotInv(c, ids)
    requires id in ids && id in c'.nodes && c'.nodes == c.nodes[id := c'.nodes[id]]
    requires NodeEvolves(c.nodes[id], c'.nodes[id]) && BallotCast(c, c', id)
    ensures c'.nodes.Keys == ids && BallotInv(c', ids) && c.ballots <= c'.ballots
  {
  }

  lemma StepKeepsBallots(c: Cluster, s: Step, ids: set<string>, peers: nat)
    requires Inv(c, ids, peers) && Enabled(c, s)
    ensures NodesInv(Apply(c, s), ids, peers)
    ensures BallotInv(Apply(c, s), ids)
    ensures c.ballots <= Apply(c, s).ballots
  {
    StepEffect(c, s);
    EffectKeepsBallots(c, Apply(c, s), ids, s.id);
  }

  /** A step of another node cannot disturb a campaign. */
  lemma OtherCampaign(c: Cluster, s: Step, x: string)
    requires Enabled(c, s) && x in c.nodes && x in c.counted && x != s.id
    requires CampaignInv(c, x)
    ensures var c' := Apply(c, s); x in c'.nodes && x in c'.counted && CampaignInv(c', x)
  {
  }

  lemma OwnCampaign(c: Cluster, s: Step)
    requires Enabled(c, s) && c.nodes[s.id].id == s.id && CampaignInv(c, s.id)
    ensures var c' := Apply(c, s); s.id in c'.nodes && s.id in c'.counted && CampaignInv(c', s.id)
  {
  }

  lemma StepKeepsInv(c: Cluster, c': Cluster, ids: set<string>, peers: nat)
    requires Inv(c, ids, peers) && Next(c, c')
    ensures Inv(c', ids, peers) && c.ballots <= c'.ballots
  {
    var s :| Enabled(c, s) && c' == Apply(c, s);
    StepKeepsBallots(c, s, ids, peers);
    forall x | x in ids ensures CampaignInv(c', x) {
      assert CampaignInv(c, x);
      if x == s.id { OwnCampaign(c, s); } else { OtherCampaign(c, s, x); }
    }
    forall t, l | Heartbeat(t, l) in c'.sent ensures Elected(c', peers, t, l) {
      if Heartbeat(t, l) !in c.sent {
        assert CampaignInv(c, s.id);
        LeaderElected(c, ids, peers, s.id);
      }
      VotersGrow(c, c', peers, t, l);
    }
  }

  lemma {:induction false} RunInv(ids: set<string>, peers: nat, trace: seq<Cluster>, i: nat)
    requires IsRun(ids, peers, trace) && i < |trace|
    ensures Inv(trace[i], ids, peers)
  {
    if i > 0 {
      RunInv(ids, peers, trace, i - 1);
      assert StepAt(trace, i - 1);
      StepKeepsInv(trace[i - 1], trace[i], ids, peers);
    }
  }

  lemma {:induction false} BallotsGrow(ids: set<string>, peers: nat, trace: seq<Cluster>, i: nat, j: nat)
    requires IsRun(ids, peers, trace) && i <= j < |trace|
    ensures trace[i].ballots <= trace[j].ballots
    decreases j
  {
    if i < j {
      BallotsGrow(ids, peers, trace, i, j - 1);
      RunInv(ids, peers, trace, j - 1);
      assert StepAt(trace, j - 1);
      StepKeepsInv(trace[j - 1], trace[j], ids, peers);
    }
  }

  // ----- terms and votes over a run

  lemma RunNodes(ids: set<string>, peers: nat, trace: seq<Cluster>, i: nat)
    requires IsRun(ids, peers, trace) && i < |trace|
    ensures NodesInv(trace[i], ids, peers)
  {
    RunInv(ids, peers, trace, i);
  }

  lemma NextEvolves(c: Cluster, c': Cluster, x: string)
    requires Next(c, c') && x in c.nodes
    ensures x in c'.nodes && NodeEvolves(c.nodes[x], c'.nodes[x])
  {
    var s :| Enabled(c, s) && c' == Apply(c, s);
    StepEffect(c, s);
  }

  lemma EvolvesTransitive(a: Node, b: Node, c: Node)
    requires NodeEvolves(a, b) && NodeEvolves(b, c)
    ensures NodeEvolves(a, c)
  {
  }

  /** Over a run a node's term never falls, and a vote cast in a term stays while the term does. */
  lemma {:induction false} TermsAndVotes(ids: set<string>, peers: nat, trace: seq<Cluster>, i: nat, j: nat, x: string)
    requires IsRun(ids, peers, trace) && i <= j < |trace| && x in ids
    ensures x in trace[i].nodes && x in trace[j].nodes
    ensures NodeEvolves(trace[i].nodes[x], trace[j].nodes[x])
    decreases j
  {
    if i == j {
      RunNodes(ids, peers, trace, i);
    } else {
      TermsAndVotes(ids, peers, trace, i, j - 1, x);
      assert StepAt(trace, j - 1);
      NextEvolves(trace[j - 1], trace[j], x);
      EvolvesTransitive(trace[i].nodes[x], trace[j - 1].nodes[x], trace[j].nodes[x]);
    }
  }

  // ----- election safety

  ghost predicate QuorumsIntersect(ids: set<string>, peers: nat) {
    |ids| < 2 * Majority(peers)
  }

  lemma OneElectedPerTerm(c: Cluster, ids: set<string>, peers: nat, t: nat, a: string, b: string)
    requires Inv(c, ids, peers) && QuorumsIntersect(ids, peers)
    requires Elected(c, peers, t, a) && Elected(c, peers, t, b)
    ensures a == b
  {
    var va, vb := Voters(c, t, a), Voters(c, t, b);
    if a != b {
      forall v | v in va ensures v !in vb {
        assert Ballot(v, t, a) in c.ballots;
      }
      assert va !! vb && |va + vb| == |va| + |vb|;
      SubsetCardinality(va + vb, ids);
    }
  }

  ghost predicate LeadsAt(trace: seq<Cluster>, i: nat, x: string, t: nat) {
    i < |trace| && x in trace[i].nodes && trace[i].nodes[x].role.Leader? && trace[i].nodes[x].term == t
  }

  /** No run, at any two moments, shows two kiosks leading the same term. */
  ghost predicate ElectionSafe(ids: set<string>, peers: nat) {
    forall trace, i: nat, j: nat, a, b, t ::
      IsRun(ids, peers, trace) && LeadsAt(trace, i, a, t) && LeadsAt(trace, j, b, t) ==> a == b
  }

  lemma ElectionSafety(ids: set<string>, peers: nat, trace: seq<Cluster>, i: nat, j: nat, a: string, b: string, t: nat)
    requires QuorumsIntersect(ids, peers)
    requires IsRun(ids, peers, trace) && LeadsAt(trace, i, a, t) && LeadsAt(trace, j, b, t)
    ensures a == b
  {
    var k := |trace| - 1;
    RunInv(ids, peers, trace, k);
    RunInv(ids, peers, trace, i);
    RunInv(ids, peers, trace, j);
    LeaderElected(trace[i], ids, peers, a);
    LeaderElected(trace[j], ids, peers, b);
    BallotsGrow(ids, peers, trace, i, k);
    BallotsGrow(ids, peers, trace, j, k);
    VotersGrow(trace[i], trace[k], peers, t, a);
    VotersGrow(trace[j], trace[k], peers, t, b);
    OneElectedPerTerm(trace[k], ids, peers, t, a, b);
  }

  /** All heartbeats of a term, and any leader of that term, name the same kiosk. */
  lemma HeartbeatsAgree(ids: set<string>, peers: nat, trace: seq<Cluster>, i: nat, j: nat, a: string, b: string, t: nat)
    requires QuorumsIntersect(ids, peers)
    requires IsRun(ids, peers, trace) && i < |trace| && Heartbeat(t, a) in trace[i].sent
    requires LeadsAt(trace, j, b, t) || (j < |trace| && Heartbeat(t, b) in trace[j].sent)
    ensures a == b
  {
    var k := |trace| - 1;
    RunInv(ids, peers, trace, k);
    RunInv(ids, peers, trace, i);
    RunInv(ids, peers, trace, j);
    if LeadsAt(trace, j, b, t) {
      LeaderElected(trace[j], ids, peers, b);
    }
    BallotsGrow(ids, peers, trace, i, k);
    BallotsGrow(ids, peers, trace, j, k);
    VotersGrow(trace[i], trace[k], peers, t, a);
    VotersGrow(trace[j], trace[k], peers, t, b);
    OneElectedPerTerm(trace[k], ids, peers, t, a, b);
  }

  // ----- the converse: when quorums need not intersect, a run elects two leaders

  lemma Extend(ids: set<string>, peers: nat, trace: seq<Cluster>, s: Step) returns (trace': seq<Cluster>)
    requires IsRun(ids, peers, trace) && Enabled(trace[|trace| - 1], s)
    ensures IsRun(ids, peers, trace') && |trace'| > 0
    ensures trace'[|trace'| - 1] == Apply(trace[|trace| - 1], s)
  {
    var c := trace[|trace| - 1];
    trace' := trace + [Apply(c, s)];
    forall i | 0 <= i < |trace'| - 1 ensures StepAt(trace', i) {
      if i < |trace| - 1 {
        assert StepAt(trace, i);
      }
    }
  }

  /** Candidate `x` of term 1 has counted exactly the voters in `got`. */
  ghost predicate Campaigning(c: Cluster, peers: nat, x: string, got: set<string>) {
    && x in c.nodes && x in c.counted
    && c.nodes[x].role.Candidate? && c.nodes[x].term == 1 && c.nodes[x].peers == peers
    && c.nodes[x].votes == |got| && c.counted[x] == got
    && VoteRequest(1, x) in c.sent
  }

  /** Nodes and tallies outside `touched` are the same in both states. */
  ghost predicate SameOutside(c: Cluster, c': Cluster, touched: set<string>) {
    && c'.nodes.Keys == c.nodes.Keys && c'.counted.Keys == c.counted.Keys
    && c.sent <= c'.sent
    && (forall y :: y in c.nodes && y !in touched ==> c'.nodes[y] == c.nodes[y])
    && (forall y :: y in c.counted && y !in touched ==> c'.counted[y] == c.counted[y])
  }

  lemma StartCampaign(ids: set<string>, peers: nat, trace: seq<Cluster>, x: string) returns (trace': seq<Cluster>)
    requires IsRun(ids, peers, trace)
    requires var c := trace[|trace| - 1];
             c.nodes.Keys == ids && c.counted.Keys == ids && x in ids && c.nodes[x] == Fresh(x, peers)
    ensures IsRun(ids, peers, trace') && |trace'| > 0
    ensures Campaigning(trace'[|trace'| - 1], peers, x, {x})
    ensures SameOutside(trace[|trace| - 1], trace'[|trace'| - 1], {x})
  {
    trace' := Extend(ids, peers, trace, TimerStep(x, true));
  }

  lemma OneVote(ids: set<string>, peers: nat, trace: seq<Cluster>, x: string, got: set<string>, v: string)
    returns (trace': seq<Cluster>)
    requires IsRun(ids, peers, trace)
    requires var c := trace[|trace| - 1];
             && c.nodes.Keys == ids && c.counted.Keys == ids
             && Campaigning(c, peers, x, got) && v != x && v !in got && v in ids && c.nodes[v] == Fresh(v, peers)
    ensures IsRun(ids, peers, trace') && |trace'| > 0
    ensures Campaigning(trace'[|trace'| - 1], peers, x, got + {v})
    ensures SameOutside(trace[|trace| - 1], trace'[|trace'| - 1], {x, v})
  {
    var t1 := Extend(ids, peers, trace, DeliverVoteRequest(v, 1, x));
    trace' := Extend(ids, peers, t1, CountVote(x, v));
  }

  lemma SameOutsideTransitive(c: Cluster, c1: Cluster, c2: Cluster, a: set<string>, b: set<string>, all: set<string>)
    requires SameOutside(c, c1, a) && SameOutside(c1, c2, b) && a <= all && b <= all
    ensures SameOutside(c, c2, all)
  {
  }

  /** `x` may still collect the votes of `voters`, who are all in their initial state. */
  ghost predicate Collecting(c: Cluster, ids: set<string>, peers: nat, x: string, got: set<string>, voters: set<string>) {
    && c.nodes.Keys == ids && c.counted.Keys == ids
    && Campaigning(c, peers, x, got) && x !in voters && got !! voters && voters <= ids
    && forall v :: v in voters ==> c.nodes[v] == Fresh(v, peers)
  }

  lemma CollectingNext(
    c: Cluster, c1: Cluster, ids: set<string>, peers: nat, x: string, got: set<string>, voters: set<string>, v: string)
    requires Collecting(c, ids, peers, x, got, voters) && v in voters
    requires Campaigning(c1, peers, x, got + {v}) && SameOutside(c, c1, {x, v})
    ensures Collecting(c1, ids, peers, x, got + {v}, voters - {v})
  {
  }

  lemma OneVoteMore(
    ids: set<string>, peers: nat, trace: seq<Cluster>, x: string, got: set<string>, voters: set<string>, v: string)
    returns (trace': seq<Cluster>)
    requires IsRun(ids, peers, trace) && v in voters
    requires Collecting(trace[|trace| - 1], ids, peers, x, got, voters)
    ensures IsRun(ids, peers, trace') && |trace'| > 0
    ensures Collecting(trace'[|trace'| - 1], ids, peers, x, got + {v}, voters - {v})
    ensures SameOutside(trace[|trace| - 1], trace'[|trace'| - 1], {x, v})
  {
    trace' := OneVote(ids, peers, trace, x, got, v);
    CollectingNext(trace[|trace| - 1], trace'[|trace'| - 1], ids, peers, x, got, voters, v);
  }

  /** Every kiosk in `voters` votes for `x` and is counted. */
  lemma {:induction false} CollectVotes(
    ids: set<string>, peers: nat, trace: seq<Cluster>, x: string, got: set<string>, voters: set<string>, all: set<string>)
    returns (trace': seq<Cluster>)
    requires IsRun(ids, peers, trace)
    requires Collecting(trace[|trace| - 1], ids, peers, x, got, voters)
    requires got + voters == all && x in got
    ensures IsRun(ids, peers, trace') && |trace'| > 0
    ensures Campaigning(trace'[|trace'| - 1], peers, x, all)
    ensures SameOutside(trace[|trace| - 1], trace'[|trace'| - 1], all)
    decreases voters
  {
    if voters == {} {
      assert got == all;
      return trace;
    }
    var v :| v in voters;
    var t1 := OneVoteMore(ids, peers, trace, x, got, voters, v);
    assert got + {v} + (voters - {v}) == all;
    trace' := CollectVotes(ids, peers, t1, x, got + {v}, voters - {v}, all);
    SameOutsideTransitive(trace[|trace| - 1], t1[|t1| - 1], trace'[|trace'| - 1], {x, v}, all, all);
  }

  lemma Win(ids: set<string>, peers: nat, trace: seq<Cluster>, x: string, got: set<string>) returns (trace': seq<Cluster>)
    requires IsRun(ids, peers, trace)
    requires Campaigning(trace[|trace| - 1], peers, x, got)
    requires |got| >= Majority(peers)
    ensures IsRun(ids, peers, trace') && |trace'| > 0
    ensures LeadsAt(trace', |trace'| - 1, x, 1)
    ensures SameOutside(trace[|trace| - 1], trace'[|trace'| - 1], {x})
  {
    trace' := Extend(ids, peers, trace, TimerStep(x, false));
  }

  lemma {:induction false} Take(s: set<string>, k: nat) returns (r: set<string>)
    requires k <= |s|
    ensures r <= s && |r| == k
    decreases k
  {
    if k == 0 {
      return {};
    }
    var x :| x in s;
    var r' := Take(s - {x}, k - 1);
    r := r' + {x};
  }

  /** One kiosk's whole campaign: candidacy, the votes of `voters`, and victory. */
  lemma WholeCampaign(ids: set<string>, peers: nat, trace: seq<Cluster>, x: string, voters: set<string>)
    returns (trace': seq<Cluster>)
    requires IsRun(ids, peers, trace)
    requires var c := trace[|trace| - 1];
             && c.nodes.Keys == ids && c.counted.Keys == ids
             && x in voters && voters <= ids && |voters| >= Majority(peers)
             && forall v :: v in voters ==> c.nodes[v] == Fresh(v, peers)
    ensures IsRun(ids, peers, trace') && |trace'| > 0
    ensures LeadsAt(trace', |trace'| - 1, x, 1)
    ensures SameOutside(trace[|trace| - 1], trace'[|trace'| - 1], voters)
  {
    var t1 := StartCampaign(ids, peers, trace, x);
    assert {x} + (voters - {x}) == voters;
    var t2 := CollectVotes(ids, peers, t1, x, {x}, voters - {x}, voters);
    trace' := Win(ids, peers, t2, x, voters);
  }

  lemma TwoLeaders(ids: set<string>, peers: nat)
    returns (trace: seq<Cluster>, a: string, b: string)
    requires !QuorumsIntersect(ids, peers)
    ensures IsRun(ids, peers, trace) && |trace| > 0 && a != b
    ensures LeadsAt(trace, |trace| - 1, a, 1) && LeadsAt(trace, |trace| - 1, b, 1)
  {
    var m := Majority(peers);
    var va := Take(ids, m);
    var vb := Take(ids - va, m);
    a :| a in va;
    b :| b in vb;
    var c := Cluster(map x | x in ids :: Fresh(x, peers), {}, {}, map x | x in ids :: {});
    var t1 := WholeCampaign(ids, peers, [c], a, va);
    trace := WholeCampaign(ids, peers, t1, b, vb);
  }

  /** Elections are safe in every run exactly when two majorities of `peers` cannot be disjoint. */
  lemma ElectionSafeIff(ids: set<string>, peers: nat)
    ensures ElectionSafe(ids, peers) <==> |ids| < 2 * Majority(peers)
  {
    if QuorumsIntersect(ids, peers) {
      forall trace, i: nat, j: nat, a, b, t |
        IsRun(ids, peers, trace) && LeadsAt(trace, i, a, t) && LeadsAt(trace, j, b, t)
        ensures a == b
      {
        ElectionSafety(ids, peers, trace, i, j, a, b, t);
      }
    } else {
      var trace, a, b := TwoLeaders(ids, peers);
    }
  }

  /** Counting against the true cluster size is safe; the daemon's `known_peers == 1` only for a lone kiosk. */
  lemma SafePeerCounts(ids: set<string>)
    ensures ElectionSafe(ids, |ids|)
    ensures ElectionSafe(ids, 1) <==> |ids| <= 1
  {
    ElectionSafeIff(ids, |ids|);
    ElectionSafeIff(ids, 1);
  }
}

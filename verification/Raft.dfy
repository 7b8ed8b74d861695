/**
 One kiosk's Raft state machine: the election timer branches and the two RPC
 handlers. Elapsed time is an input (`timedOut`), as is everything the network
 delivers.
 */
module Raft {
  import opened Common

  datatype Role = Follower | Candidate | Leader

  /** The fields of `RaftStateMachine`, without the heartbeat instant. */
  datatype Node = Node(
    role: Role,
    term: nat,
    votedFor: Option<string>,
    leaderId: Option<string>,
    votes: nat,
    peers: nat,
    id: string)

  function Fresh(id: string, peers: nat): Node {
    Node(Follower, 0, None, None, 0, peers, id)
  }

  /** The least number of votes above half of `max(known_peers, 1)`. */
  function Majority(peers: nat): nat {
    Max(peers, 1) / 2 + 1
  }

  /** Exactly the vote counts above half are majorities; an unknown cluster counts as one kiosk. */
  lemma MajorityIsHalf(peers: nat, votes: nat)
    ensures votes >= Majority(peers) <==> 2 * votes > (if peers == 0 then 1 else peers)
  {
  }

  function Tick(n: Node, timedOut: bool): Node {
    match n.role
    case Follower =>
      if timedOut then
        n.(role := Candidate, term := WrappingSucc64(n.term), votedFor := Some(n.id), votes := 1, leaderId := None)
      else n
    case Candidate =>
      if n.votes > Max(n.peers, 1) / 2 then
        n.(role := Leader, leaderId := Some(n.id))
      else if timedOut then
        n.(term := WrappingSucc64(n.term), votedFor := Some(n.id), votes := 1)
      else n
    case Leader => n
  }

  /** Whether this tick starts an election and so broadcasts vote requests. */
  predicate StartsElection(n: Node, timedOut: bool) {
    timedOut && (n.role.Follower? || (n.role.Candidate? && n.votes <= Max(n.peers, 1) / 2))
  }

  function AppendEntries(n: Node, term: nat, leader: string): (r: (Node, bool)) {
    if term < n.term then (n, false)
    else
      var n1 := if term > n.term then n.(term := term, votedFor := None) else n;
      (n1.(role := Follower, leaderId := Some(leader), votes := 0), true)
  }

  function RequestVote(n: Node, term: nat, candidate: string): (r: (Node, bool)) {
    if term < n.term then (n, false)
    else
      var n1 := if term > n.term then n.(term := term, votedFor := None, role := Follower) else n;
      if n1.votedFor.Some? && n1.votedFor.value != candidate then (n1, false)
      else (n1.(votedFor := Some(candidate)), true)
  }

  function Shutdown(n: Node): Node {
    if n.role.Leader? then n.(role := Follower, leaderId := None) else n
  }

  /** The state machine as the daemon holds it: fields updated in place. */
  class RaftStateMachine {
    var state: Role
    var currentTerm: nat
    var votedFor: Option<string>
    var leaderId: Option<string>
    var votesReceived: nat
    var knownPeers: nat
    const myId: string

    ghost function Snapshot(): Node
      reads this
    {
      Node(state, currentTerm, votedFor, leaderId, votesReceived, knownPeers, myId)
    }

    constructor (id: string)
      ensures Snapshot() == Fresh(id, 1)
    {
      state, currentTerm, votedFor, leaderId := Follower, 0, None, None;
      votesReceived, knownPeers, myId := 0, 1, id;
    }

    /** The election timer branch; `requestVotes` says a broadcast follows. */
    method ElectionTick(timedOut: bool) returns (requestVotes: bool)
      modifies this
      ensures Snapshot() == Tick(old(Snapshot()), timedOut)
      ensures requestVotes == StartsElection(old(Snapshot()), timedOut)
      // An election starts when a follower, or a candidate without a majority, has waited long enough.
      ensures requestVotes <==>
                timedOut && (old(state) == Follower || (old(state) == Candidate && old(votesReceived) < Majority(knownPeers)))
      // Votes are requested for a new term, in which the kiosk has voted for itself.
      ensures requestVotes ==>
                state == Candidate && votedFor == Some(myId) && votesReceived == 1 && currentTerm == WrappingSucc64(old(currentTerm))
      ensures old(currentTerm) < U64_MAX ==> currentTerm >= old(currentTerm)
      ensures currentTerm == old(currentTerm) ==> votedFor == old(votedFor)
      // A new leader had a majority in the term it leads.
      ensures state == Leader && old(state) != Leader <==> old(state) == Candidate && old(votesReceived) >= Majority(knownPeers)
      ensures state == Leader && old(state) != Leader ==>
                currentTerm == old(currentTerm) && votesReceived == old(votesReceived) && leaderId == Some(myId)
      // A follower that stands forgets its leader; a candidate that tries again has none to forget.
      ensures requestVotes ==> leaderId == if old(state) == Follower then None else old(leaderId)
      ensures !requestVotes && state == old(state) ==> Snapshot() == old(Snapshot())
      ensures knownPeers == old(knownPeers)
    {
      requestVotes := false;
      match state
      case Follower =>
        if timedOut {
          state := Candidate;
          currentTerm := WrappingSucc64(currentTerm);
          votedFor := Some(myId);
          votesReceived := 1;
          leaderId := None;
          requestVotes := true;
        }
      case Candidate =>
        var total := Max(knownPeers, 1);
        if votesReceived > total / 2 {
          state := Leader;
          leaderId := Some(myId);
        } else if timedOut {
          currentTerm := WrappingSucc64(currentTerm);
          votedFor := Some(myId);
          votesReceived := 1;
          requestVotes := true;
        }
      case Leader =>
    }

    method HandleAppendEntries(term: nat, leader: string) returns (ok: bool)
      modifies this
      ensures (Snapshot(), ok) == AppendEntries(old(Snapshot()), term, leader)
      // A stale heartbeat changes nothing; any other makes a follower of its term and leader.
      ensures ok <==> term >= old(currentTerm)
      ensures !ok ==> Snapshot() == old(Snapshot())
      ensures ok ==> state == Follower && currentTerm == term && leaderId == Some(leader) && votesReceived == 0
      ensures term > old(currentTerm) ==> votedFor == None
      ensures knownPeers == old(knownPeers)
      ensures currentTerm >= old(currentTerm) && (currentTerm == old(currentTerm) ==> votedFor == old(votedFor))
    {
      if term < currentTerm {
        return false;
      }
      if term > currentTerm {
        currentTerm := term;
        votedFor := None;
        if state == Leader {
          state := Follower;
        }
      }
      state := Follower;
      leaderId := Some(leader);
      votesReceived := 0;
      ok := true;
    }

    method HandleRequestVote(term: nat, candidate: string) returns (granted: bool)
      modifies this
      ensures (Snapshot(), granted) == RequestVote(old(Snapshot()), term, candidate)
      // A vote already cast in the current term is never moved to another candidate.
      ensures old(votedFor).Some? && currentTerm == old(currentTerm) ==> votedFor == old(votedFor)
      ensures granted ==> currentTerm == term && votedFor == Some(candidate)
      // Granted exactly when the term is not stale and the kiosk has not voted for someone else in it.
      ensures granted <==>
                term >= old(currentTerm)
                && (term > old(currentTerm) || old(votedFor).None? || old(votedFor) == Some(candidate))
      // A newer term makes a follower of that term, which holds exactly the vote it granted.
      ensures term > old(currentTerm) ==> granted && state == Follower && currentTerm == term && votedFor == Some(candidate)
      ensures !granted ==> Snapshot() == old(Snapshot())
      ensures term <= old(currentTerm) ==> state == old(state) && currentTerm == old(currentTerm)
      ensures leaderId == old(leaderId) && votesReceived == old(votesReceived) && knownPeers == old(knownPeers)
    {
      if term < currentTerm {
        return false;
      }
      if term > currentTerm {
        currentTerm := term;
        votedFor := None;
        state := Follower;
      }
      if votedFor.Some? && votedFor.value != candidate {
        return false;
      }
      votedFor := Some(candidate);
      granted := true;
    }

    method StopLoop()
      modifies this
      ensures Snapshot() == Shutdown(old(Snapshot()))
      ensures state != Leader && currentTerm == old(currentTerm) && votedFor == old(votedFor)
      ensures old(state) == Leader ==> state == Follower && leaderId == None && votesReceived == old(votesReceived)
      ensures old(state) != Leader ==> Snapshot() == old(Snapshot())
      ensures knownPeers == old(knownPeers)
    {
      if state == Leader {
        state := Follower;
        leaderId := None;
      }
    }
  }
}

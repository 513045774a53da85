/**
 * InstantSend voting of src/instantx.cpp: one node, not in masternode mode, collects votes on
 * the inputs of competing transactions and locks the inputs of a transaction once every one
 * of them has enough votes. Candidates do not expire in the runs considered here.
 */
module InstantSend {
  import opened Foundations

  const INSTANTSEND_LOCK_TIMEOUT_SECONDS := 15
  const ORPHAN_VOTE_SECONDS: nat := 60 * 10

  type Hash = nat
  type Masternode = nat

  datatype OutPoint = OutPoint(hash: Hash, n: nat)

  /** The part of a transaction that voting looks at. */
  datatype Tx = Tx(hash: Hash, vin: seq<OutPoint>)

  datatype Vote = Vote(txHash: Hash, outpoint: OutPoint, masternode: Masternode)

  datatype OutPointLock = OutPointLock(votes: map<Masternode, Vote>, attacked: bool) {
    function CountVotes(): nat {
      if attacked then 0 else |votes|
    }

    predicate IsReady(required: nat) {
      !attacked && CountVotes() >= required
    }
  }

  datatype Candidate = Candidate(request: Option<Tx>, locks: map<OutPoint, OutPointLock>, nTimeCreated: int) {
    predicate HasVoted(o: OutPoint, m: Masternode) {
      o in locks && m in locks[o].votes
    }

    predicate AllReady(required: nat) {
      locks != map[] && forall o :: o in locks ==> locks[o].IsReady(required)
    }

    predicate IsTimedOut(nNow: int) {
      nNow - nTimeCreated > INSTANTSEND_LOCK_TIMEOUT_SECONDS
    }

    function MarkAttacked(o: OutPoint): Candidate {
      if o in locks then this.(locks := locks[o := locks[o].(attacked := true)]) else this
    }
  }

  type Candidates = map<Hash, Candidate>

  ghost function Inputs(tx: Tx): set<OutPoint> {
    set o | o in tx.vin
  }

  // ------------------------------------------------------------------
  // The voting invariant
  // ------------------------------------------------------------------

  /** A candidate has no locks until its request is known, then all of them or none. */
  ghost predicate CandidateOk(h: Hash, c: Candidate) {
    if c.request.None? then c.locks == map[]
    else c.request.value.hash == h && (c.locks == map[] || c.locks.Keys == Inputs(c.request.value))
  }

  ghost predicate AllCandidatesOk(cs: Candidates) {
    forall h :: h in cs ==> CandidateOk(h, cs[h])
  }

  /** Whoever has votes on an outpoint is recorded as voted for there. */
  ghost predicate VotesRecorded(cs: Candidates, voted: map<OutPoint, set<Hash>>) {
    forall h, o, m :: h in cs && cs[h].HasVoted(o, m) ==> o in voted && h in voted[o]
  }

  /** Only members of an outpoint's quorum have votes there. */
  ghost predicate VotesByQuorum(cs: Candidates, quorum: OutPoint -> set<Masternode>) {
    forall h, o, m :: h in cs && cs[h].HasVoted(o, m) ==> m in quorum(o)
  }

  /** A masternode that voted for two transactions on one outpoint has spoilt both. */
  ghost predicate DoubleVotesAttacked(cs: Candidates) {
    forall h1, h2, o, m :: h1 in cs && h2 in cs && h1 != h2 && cs[h1].HasVoted(o, m) && cs[h2].HasVoted(o, m) ==>
      cs[h1].locks[o].attacked && cs[h2].locks[o].attacked
  }

  /** Every locked outpoint belongs to a candidate that has the votes for it and owns the
      locks on all its other inputs too. */
  ghost predicate LocksWhole(cs: Candidates, locked: map<OutPoint, Hash>, required: nat) {
    forall o :: o in locked ==> LockWhole(cs, locked, required, o, locked[o])
  }

  ghost predicate LockWhole(cs: Candidates, locked: map<OutPoint, Hash>, required: nat, o: OutPoint, h: Hash) {
    && h in cs && o in cs[h].locks
    && |cs[h].locks[o].votes| >= required
    && Owns(cs[h], locked, h)
  }

  /** Every input of the candidate is locked to it. */
  ghost predicate Owns(c: Candidate, locked: map<OutPoint, Hash>, h: Hash) {
    forall o :: o in c.locks ==> Lookup(locked, o) == Some(h)
  }

  /** No two disjoint majorities fit into one quorum. */
  ghost predicate Majority(quorum: OutPoint -> set<Masternode>, total: nat, required: nat) {
    2 * required > total && forall o :: |quorum(o)| <= total
  }

  // ------------------------------------------------------------------
  // Why two candidates are never both ready
  // ------------------------------------------------------------------

  /** If h1 has the votes for o, no other candidate is ever ready there. */
  lemma EnoughVotesBlockOthers(cs: Candidates, quorum: OutPoint -> set<Masternode>, total: nat, required: nat,
                               h1: Hash, h2: Hash, o: OutPoint)
    requires VotesByQuorum(cs, quorum) && DoubleVotesAttacked(cs) && Majority(quorum, total, required)
    requires h1 in cs && h2 in cs && h1 != h2 && o in cs[h1].locks && o in cs[h2].locks
    requires |cs[h1].locks[o].votes| >= required
    ensures !cs[h2].locks[o].IsReady(required)
  {
    var v1, v2 := cs[h1].locks[o].votes.Keys, cs[h2].locks[o].votes.Keys;
    forall m | m in v1 ensures m in quorum(o) { assert cs[h1].HasVoted(o, m); }
    forall m | m in v2 ensures m in quorum(o) { assert cs[h2].HasVoted(o, m); }
    if m :| m in v1 && m in v2 {
      assert cs[h1].HasVoted(o, m) && cs[h2].HasVoted(o, m);
    } else {
      assert v1 !! v2 && |v1 + v2| == |v1| + |v2|;
      SubsetSize(v1 + v2, quorum(o));
    }
  }

  lemma {:induction false} SubsetSize<T>(a: set<T>, b: set<T>)
    requires a <= b
    ensures |a| <= |b|
  {
    assert b == a + (b - a);
  }

  /** Two disjoint sets of enough votes inside one quorum. */
  ghost predicate Split(q: set<Masternode>, v1: set<Masternode>, v2: set<Masternode>, total: nat, required: nat) {
    |q| <= total && v1 <= q && v2 <= q && v1 !! v2 && |v1| >= required && |v2| >= required
  }

  lemma SplitNeedsRoom(q: set<Masternode>, v1: set<Masternode>, v2: set<Masternode>, total: nat, required: nat)
    requires Split(q, v1, v2, total, required)
    ensures 2 * required <= total
  {
    assert |v1 + v2| == |v1| + |v2|;
    SubsetSize(v1 + v2, q);
  }

  lemma RoomAllowsSplit(total: nat, required: nat) returns (q: set<Masternode>, v1: set<Masternode>, v2: set<Masternode>)
    requires 2 * required <= total
    ensures Split(q, v1, v2, total, required)
  {
    v1, v2 := Range(0, required), Range(required, 2 * required);
    q := v1 + v2;
    assert v1 !! v2 && |v1 + v2| == |v1| + |v2|;
  }

  /** The bound is exact: two disjoint ready vote sets fit into a quorum of `total`
      masternodes if and only if twice the requirement does. */
  lemma DisjointMajorities(total: nat, required: nat)
    ensures (exists q, v1, v2 :: Split(q, v1, v2, total, required)) <==> 2 * required <= total
  {
    if 2 * required <= total {
      var q, v1, v2 := RoomAllowsSplit(total, required);
    } else if q, v1, v2 :| Split(q, v1, v2, total, required) {
      SplitNeedsRoom(q, v1, v2, total, required);
    }
  }

  ghost function Range(lo: nat, hi: nat): (s: set<Masternode>)
    requires lo <= hi
    ensures |s| == hi - lo
    ensures forall m :: m in s <==> lo <= m < hi
    decreases hi
  {
    if lo == hi then {} else Range(lo, hi - 1) + {hi - 1}
  }

  /** A ready candidate finds none of its inputs locked to anyone else. */
  lemma ReadyMeetsNoLock(cs: Candidates, locked: map<OutPoint, Hash>, quorum: OutPoint -> set<Masternode>,
                         total: nat, required: nat, h: Hash, o: OutPoint)
    requires VotesByQuorum(cs, quorum) && DoubleVotesAttacked(cs) && Majority(quorum, total, required)
    requires LocksWhole(cs, locked, required)
    requires h in cs && o in cs[h].locks && cs[h].locks[o].IsReady(required)
    ensures o in locked ==> locked[o] == h
  {
    if o in locked && locked[o] != h {
      assert LockWhole(cs, locked, required, o, locked[o]);
      EnoughVotesBlockOthers(cs, quorum, total, required, locked[o], h, o);
    }
  }

  // ------------------------------------------------------------------
  // Steps that keep the voting invariant
  // ------------------------------------------------------------------

  ghost predicate VotingOk(cs: Candidates, voted: map<OutPoint, set<Hash>>, locked: map<OutPoint, Hash>,
                           quorum: OutPoint -> set<Masternode>, required: nat) {
    && AllCandidatesOk(cs)
    && VotesRecorded(cs, voted)
    && VotesByQuorum(cs, quorum)
    && DoubleVotesAttacked(cs)
    && LocksWhole(cs, locked, required)
  }

  /** Some candidates were marked as attacked on o; nothing else happened. */
  ghost predicate Marked(cs: Candidates, cs': Candidates, o: OutPoint) {
    && cs'.Keys == cs.Keys
    && forall h :: h in cs ==> cs'[h] == cs[h] || cs'[h] == cs[h].MarkAttacked(o)
  }

  lemma MarkedSameVotes(cs: Candidates, cs': Candidates, o: OutPoint, h: Hash)
    requires Marked(cs, cs', o) && h in cs
    ensures cs'[h].request == cs[h].request && cs'[h].locks.Keys == cs[h].locks.Keys
    ensures forall p :: p in cs[h].locks ==>
              cs'[h].locks[p].votes == cs[h].locks[p].votes && (cs[h].locks[p].attacked ==> cs'[h].locks[p].attacked)
    ensures forall p, m :: cs'[h].HasVoted(p, m) <==> cs[h].HasVoted(p, m)
  {
    assert cs'[h] == cs[h] || cs'[h] == cs[h].MarkAttacked(o);
  }

  lemma MarkedKeepsVoting(cs: Candidates, cs': Candidates, o: OutPoint, voted: map<OutPoint, set<Hash>>,
                          locked: map<OutPoint, Hash>, quorum: OutPoint -> set<Masternode>, required: nat)
    requires VotingOk(cs, voted, locked, quorum, required) && Marked(cs, cs', o)
    ensures VotingOk(cs', voted, locked, quorum, required)
  {
    forall h | h in cs
      ensures cs'[h].request == cs[h].request && cs'[h].locks.Keys == cs[h].locks.Keys
      ensures forall p :: p in cs[h].locks ==>
                cs'[h].locks[p].votes == cs[h].locks[p].votes && (cs[h].locks[p].attacked ==> cs'[h].locks[p].attacked)
      ensures forall p, m :: cs'[h].HasVoted(p, m) <==> cs[h].HasVoted(p, m)
    {
      MarkedSameVotes(cs, cs', o, h);
    }
    forall h | h in cs' ensures CandidateOk(h, cs'[h]) {
      assert CandidateOk(h, cs[h]);
      if cs[h].locks == map[] { assert cs'[h].locks.Keys == {}; }
    }
    forall p | p in locked ensures LockWhole(cs', locked, required, p, locked[p]) {
      assert LockWhole(cs, locked, required, p, locked[p]);
    }
  }

  /** A candidate with one more vote. */
  function WithVote(c: Candidate, v: Vote): Candidate
    requires v.outpoint in c.locks
  {
    var l := c.locks[v.outpoint];
    c.(locks := c.locks[v.outpoint := l.(votes := l.votes[v.masternode := v])])
  }

  lemma AddVoteKeepsVoting(cs: Candidates, voted: map<OutPoint, set<Hash>>, locked: map<OutPoint, Hash>,
                           quorum: OutPoint -> set<Masternode>, required: nat, h: Hash, v: Vote)
    requires VotingOk(cs, voted, locked, quorum, required)
    requires h in cs && v.outpoint in cs[h].locks && v.masternode !in cs[h].locks[v.outpoint].votes
    requires v.outpoint in voted && h in voted[v.outpoint] && v.masternode in quorum(v.outpoint)
    requires forall g :: g in cs && g != h && cs[g].HasVoted(v.outpoint, v.masternode) ==>
               cs[g].locks[v.outpoint].attacked && cs[h].locks[v.outpoint].attacked
    ensures VotingOk(cs[h := WithVote(cs[h], v)], voted, locked, quorum, required)
  {
    var c := WithVote(cs[h], v);
    var cs' := cs[h := c];
    VoteAdded(cs[h], v);
    hide WithVote;
    assert CandidateOk(h, c) by { assert CandidateOk(h, cs[h]); }
    assert DoubleVotesAttacked(cs') by { hide VotesRecorded, VotesByQuorum, LocksWhole, AllCandidatesOk; }
    assert LocksWhole(cs', locked, required) by {
      hide VotesRecorded, VotesByQuorum, DoubleVotesAttacked;
      forall p | p in locked ensures LockWhole(cs', locked, required, p, locked[p]) {
        assert LockWhole(cs, locked, required, p, locked[p]);
      }
    }
    hide DoubleVotesAttacked, LocksWhole;
  }

  /** What one more vote changes. */
  lemma VoteAdded(c: Candidate, v: Vote)
    requires v.outpoint in c.locks && v.masternode !in c.locks[v.outpoint].votes
    ensures var c' := WithVote(c, v);
            && c'.locks.Keys == c.locks.Keys && c'.request == c.request
            && (forall p, m :: c'.HasVoted(p, m) <==> c.HasVoted(p, m) || (p == v.outpoint && m == v.masternode))
            && (forall p :: p in c'.locks ==> c'.locks[p].attacked == c.locks[p].attacked)
            && (forall p :: p in c'.locks ==> |c'.locks[p].votes| >= |c.locks[p].votes|)
  {
  }

  /** A candidate without votes may come, or take the place of one that has no locks. */
  lemma NewCandidateKeepsVoting(cs: Candidates, voted: map<OutPoint, set<Hash>>, locked: map<OutPoint, Hash>,
                                quorum: OutPoint -> set<Masternode>, required: nat, h: Hash, c: Candidate)
    requires VotingOk(cs, voted, locked, quorum, required)
    requires h in cs ==> cs[h].locks == map[]
    requires CandidateOk(h, c) && forall o :: o in c.locks ==> c.locks[o].votes == map[]
    ensures VotingOk(cs[h := c], voted, locked, quorum, required)
  {
    var cs' := cs[h := c];
    assert forall p, m :: !c.HasVoted(p, m);
    forall p | p in locked ensures LockWhole(cs', locked, required, p, locked[p]) {
      assert LockWhole(cs, locked, required, p, locked[p]);
    }
  }

  /** The inputs of the candidate are locked to it and nothing else changed. */
  ghost predicate IsLocking(locked: map<OutPoint, Hash>, locked': map<OutPoint, Hash>, c: Candidate, h: Hash) {
    forall o :: Lookup(locked', o) == if o in c.locks then Some(h) else Lookup(locked, o)
  }

  /** Locking the inputs of a ready candidate that meets no other lock. */
  lemma LockKeepsVoting(cs: Candidates, voted: map<OutPoint, set<Hash>>, locked: map<OutPoint, Hash>,
                        locked': map<OutPoint, Hash>, quorum: OutPoint -> set<Masternode>, required: nat, h: Hash)
    requires VotingOk(cs, voted, locked, quorum, required)
    requires h in cs && cs[h].AllReady(required) && IsLocking(locked, locked', cs[h], h)
    requires forall o :: o in locked && o in cs[h].locks ==> locked[o] == h
    ensures VotingOk(cs, voted, locked', quorum, required)
  {
    forall o | o in locked' ensures LockWhole(cs, locked', required, o, locked'[o]) {
      assert Lookup(locked', o) == if o in cs[h].locks then Some(h) else Lookup(locked, o);
      if o !in cs[h].locks {
        var g := locked[o];
        assert LockWhole(cs, locked, required, o, g);
        forall p | p in cs[g].locks ensures Lookup(locked', p) == Some(g) {
          assert Lookup(locked, p) == Some(g);
        }
      }
    }
  }

  // ------------------------------------------------------------------
  // The node
  // ------------------------------------------------------------------

  /** What the node asks of the rest of the program: the time, whether the old InstantSend
      and its block filtering are on, the mempool spender of each outpoint, the mined
      transactions and the unspent outpoints. */
  datatype Env = Env(nNow: nat, enabled: bool, filtering: bool, mapNextTx: map<OutPoint, Hash>,
                     mined: set<Hash>, utxo: set<OutPoint>)

  /** Earlier locks are all still there. */
  ghost predicate LocksKept(before: map<OutPoint, Hash>, after: map<OutPoint, Hash>) {
    forall o :: o in before ==> Lookup(after, o) == Some(before[o])
  }

  /** The candidate is ready, no other mempool transaction spends its inputs, and it is mined
      or all its inputs are still unspent. */
  ghost predicate Lockable(c: Candidate, h: Hash, required: nat, env: Env) {
    && c.AllReady(required) && c.request.Some?
    && (forall o :: o in Inputs(c.request.value) && o in env.mapNextTx ==> env.mapNextTx[o] == h)
    && (h in env.mined || Inputs(c.request.value) <= env.utxo)
  }

  class Node {
    const quorum: OutPoint -> set<Masternode>
    const total: nat
    const required: nat
    var mapTxLockCandidates: Candidates
    var mapVotedOutpoints: map<OutPoint, set<Hash>>
    var mapLockedOutpoints: map<OutPoint, Hash>
    var mapTxLockVotesOrphan: set<Vote>
    var mapMasternodeOrphanVotes: map<Masternode, nat>

    ghost predicate Valid()
      reads this
    {
      && Majority(quorum, total, required)
      && VotingOk(mapTxLockCandidates, mapVotedOutpoints, mapLockedOutpoints, quorum, required)
      && (forall v :: v in mapTxLockVotesOrphan ==> v.masternode in quorum(v.outpoint))
    }

    constructor (quorum: OutPoint -> set<Masternode>, total: nat, required: nat)
      requires Majority(quorum, total, required)
      ensures Valid() && this.quorum == quorum && this.total == total && this.required == required
      ensures mapTxLockCandidates == map[] && mapVotedOutpoints == map[] && mapLockedOutpoints == map[]
      ensures mapTxLockVotesOrphan == {} && mapMasternodeOrphanVotes == map[]
    {
      this.quorum, this.total, this.required := quorum, total, required;
      mapTxLockCandidates, mapVotedOutpoints, mapLockedOutpoints, mapTxLockVotesOrphan := map[], map[], map[], {};
      mapMasternodeOrphanVotes := map[];
    }

    /** Two different candidates are never both ready on an outpoint they share. */
    lemma NoTwoReady(h1: Hash, h2: Hash, o: OutPoint)
      requires Valid() && h1 in mapTxLockCandidates && h2 in mapTxLockCandidates && h1 != h2
      requires o in mapTxLockCandidates[h1].locks && o in mapTxLockCandidates[h2].locks
      ensures !(mapTxLockCandidates[h1].locks[o].IsReady(required) && mapTxLockCandidates[h2].locks[o].IsReady(required))
    {
      if mapTxLockCandidates[h1].locks[o].IsReady(required) {
        EnoughVotesBlockOthers(mapTxLockCandidates, quorum, total, required, h1, h2, o);
      }
    }

    /** A transaction owns the locks on all its inputs, each with enough votes, or on none of them. */
    lemma AllOrNothing(h: Hash, o: OutPoint)
      requires Valid() && Lookup(mapLockedOutpoints, o) == Some(h)
      ensures h in mapTxLockCandidates && mapTxLockCandidates[h].request.Some?
      ensures o in mapTxLockCandidates[h].locks && |mapTxLockCandidates[h].locks[o].votes| >= required
      ensures forall p :: p in Inputs(mapTxLockCandidates[h].request.value) ==> Lookup(mapLockedOutpoints, p) == Some(h)
    {
      assert LockWhole(mapTxLockCandidates, mapLockedOutpoints, required, o, h);
      assert CandidateOk(h, mapTxLockCandidates[h]);
    }

    /** Record a vote, and spoil both sides of a double vote. */
    method UpdateVotedOutpoints(vote: Vote)
      requires Valid() && vote.txHash in mapTxLockCandidates
      modifies this`mapTxLockCandidates, this`mapVotedOutpoints
      ensures Valid() && Spoils(old(mapTxLockCandidates), mapTxLockCandidates, vote, old(mapTxLockCandidates).Keys)
      ensures mapVotedOutpoints == old(mapVotedOutpoints)[vote.outpoint :=
                (if vote.outpoint in old(mapVotedOutpoints) then old(mapVotedOutpoints)[vote.outpoint] else {}) + {vote.txHash}]
    {
      hide VotingOk, Spoils;
      var txHash, o := vote.txHash, vote.outpoint;
      ghost var cs := mapTxLockCandidates;
      var hashes := if o in mapVotedOutpoints then mapVotedOutpoints[o] else {};
      var rest := hashes;
      NothingSpoilt(cs, vote);
      assert hashes - rest == {};
      while rest != {}
        invariant mapVotedOutpoints == old(mapVotedOutpoints)
        invariant rest <= hashes && mapTxLockCandidates.Keys == cs.Keys
        invariant Spoils(cs, mapTxLockCandidates, vote, hashes - rest)
        decreases rest
      {
        var hash :| hash in rest;
        SpoilStep(cs, mapTxLockCandidates, vote, hash, hashes - rest);
        assert hashes - rest + {hash} == hashes - (rest - {hash});
        if hash != txHash && hash in mapTxLockCandidates &&
           mapTxLockCandidates[hash].HasVoted(o, vote.masternode) {
          mapTxLockCandidates := mapTxLockCandidates[txHash := mapTxLockCandidates[txHash].MarkAttacked(o)];
          mapTxLockCandidates := mapTxLockCandidates[hash := mapTxLockCandidates[hash].MarkAttacked(o)];
        }
        rest := rest - {hash};
      }
      assert hashes - rest == hashes;
      OnlyRecordedVotes(cs, mapTxLockCandidates, mapVotedOutpoints, mapLockedOutpoints, quorum, required, vote);
      SpoilsIsMarked(cs, mapTxLockCandidates, vote);
      MarkedKeepsVoting(cs, mapTxLockCandidates, o, mapVotedOutpoints, mapLockedOutpoints, quorum, required);
      RecordKeepsVoting(mapTxLockCandidates, mapVotedOutpoints, mapLockedOutpoints, quorum, required, o, hashes + {txHash});
      mapVotedOutpoints := mapVotedOutpoints[o := hashes + {txHash}];
    }

    /** Record a valid vote and add it to its candidate's lock. */
    method CastVote(vote: Vote) returns (ok: bool)
      requires Valid() && vote.txHash in mapTxLockCandidates && vote.masternode in quorum(vote.outpoint)
      modifies this`mapTxLockCandidates, this`mapVotedOutpoints
      ensures Valid() && mapTxLockCandidates.Keys == old(mapTxLockCandidates).Keys
      ensures forall g :: g in mapTxLockCandidates ==> mapTxLockCandidates[g] == AfterVote(old(mapTxLockCandidates), vote, g)
      ensures ok <==> vote.outpoint in old(mapTxLockCandidates)[vote.txHash].locks
                      && !old(mapTxLockCandidates)[vote.txHash].HasVoted(vote.outpoint, vote.masternode)
    {
      hide VotingOk, Spoils, Majority;
      ghost var cs := mapTxLockCandidates;
      UpdateVotedOutpoints(vote);
      SpoilsIsMarked(cs, mapTxLockCandidates, vote);
      MarkedSameVotes(cs, mapTxLockCandidates, vote.outpoint, vote.txHash);
      SpoilsIsAfterVote(cs, mapTxLockCandidates, vote);
      var c := mapTxLockCandidates[vote.txHash];
      if vote.outpoint !in c.locks || vote.masternode in c.locks[vote.outpoint].votes {
        return false;
      }
      SpoilsExposes(cs, mapTxLockCandidates, vote);
      AddVoteKeepsVoting(mapTxLockCandidates, mapVotedOutpoints, mapLockedOutpoints, quorum, required, vote.txHash, vote);
      mapTxLockCandidates := mapTxLockCandidates[vote.txHash := WithVote(c, vote)];
      return true;
    }

    /** The average time up to which masternodes with orphan votes are remembered. */
    method AverageOrphanVoteTime() returns (average: nat)
      ensures average == Average(mapMasternodeOrphanVotes)
    {
      if mapMasternodeOrphanVotes == map[] {
        return 0;
      }
      var total := TotalOrphanVoteTime();
      return total / |mapMasternodeOrphanVotes|;
    }

    method TotalOrphanVoteTime() returns (total: nat)
      ensures total == Sum(mapMasternodeOrphanVotes, Until)
    {
      total := 0;
      var rest := mapMasternodeOrphanVotes.Keys;
      PartEnds(mapMasternodeOrphanVotes);
      hide Sum, Part;
      while rest != {}
        invariant rest <= mapMasternodeOrphanVotes.Keys
        invariant total + Sum(Part(mapMasternodeOrphanVotes, rest), Until) == Sum(mapMasternodeOrphanVotes, Until)
        decreases rest
      {
        var m :| m in rest;
        PartStep(mapMasternodeOrphanVotes, rest, m);
        total := total + mapMasternodeOrphanVotes[m];
        rest := rest - {m};
      }
    }

    /** A vote from the network. `isValid` is the outcome of the signature and rank checks,
        which only members of the outpoint's quorum pass. */
    method ProcessNewTxLockVote(vote: Vote, isValid: bool, env: Env) returns (ok: bool)
      requires Valid() && (isValid ==> vote.masternode in quorum(vote.outpoint))
      modifies this
      ensures Valid() && LocksKept(old(mapLockedOutpoints), mapLockedOutpoints)
      ensures var cs := old(mapTxLockCandidates);
              if !isValid then !ok && mapTxLockCandidates == cs && mapTxLockVotesOrphan == old(mapTxLockVotesOrphan)
              else if !HasRequest(cs, vote.txHash) then
                (ok <==> !TooFast(old(mapMasternodeOrphanVotes), vote.masternode, env.nNow))
                && mapTxLockVotesOrphan == old(mapTxLockVotesOrphan) + {vote}
                && mapTxLockCandidates == if vote.txHash in cs then cs else cs[vote.txHash := Candidate(None, map[], env.nNow)]
              else
                mapTxLockVotesOrphan == old(mapTxLockVotesOrphan) && mapTxLockCandidates.Keys == cs.Keys
                && (ok <==> Countable(cs, vote, env.nNow) && !cs[vote.txHash].HasVoted(vote.outpoint, vote.masternode))
                && (cs[vote.txHash].IsTimedOut(env.nNow) ==> mapTxLockCandidates == cs)
                && (!cs[vote.txHash].IsTimedOut(env.nNow) ==>
                      forall g :: g in cs ==> mapTxLockCandidates[g] == AfterVote(cs, vote, g))
      ensures mapMasternodeOrphanVotes ==
                if isValid && !HasRequest(old(mapTxLockCandidates), vote.txHash) && ok
                then old(mapMasternodeOrphanVotes)[vote.masternode := env.nNow + ORPHAN_VOTE_SECONDS]
                else old(mapMasternodeOrphanVotes)
      ensures if ok && HasRequest(old(mapTxLockCandidates), vote.txHash)
              then IsFinalised(old(mapLockedOutpoints), mapLockedOutpoints, mapTxLockCandidates[vote.txHash], vote.txHash, required, env)
              else mapLockedOutpoints == old(mapLockedOutpoints)
    {
      hide VotingOk, Majority, AfterVote, IsLocking, Lockable;
      if !isValid {
        return false;
      }
      if vote.txHash !in mapTxLockCandidates || mapTxLockCandidates[vote.txHash].request.None? {
        if vote.txHash !in mapTxLockCandidates {
          NewCandidateKeepsVoting(mapTxLockCandidates, mapVotedOutpoints, mapLockedOutpoints, quorum, required,
                                  vote.txHash, Candidate(None, map[], env.nNow));
          mapTxLockCandidates := mapTxLockCandidates[vote.txHash := Candidate(None, map[], env.nNow)];
        }
        mapTxLockVotesOrphan := mapTxLockVotesOrphan + {vote};
        var average := AverageOrphanVoteTime();
        if vote.masternode in mapMasternodeOrphanVotes && mapMasternodeOrphanVotes[vote.masternode] > env.nNow
           && mapMasternodeOrphanVotes[vote.masternode] > average {
          return false;
        }
        mapMasternodeOrphanVotes := mapMasternodeOrphanVotes[vote.masternode := env.nNow + ORPHAN_VOTE_SECONDS];
        return true;
      }
      if mapTxLockCandidates[vote.txHash].IsTimedOut(env.nNow) {
        return false;
      }
      ghost var cs := mapTxLockCandidates;
      ok := CastVote(vote);
      AfterVoteShape(cs, vote, vote.txHash);
      if ok {
        TryToFinalizeLockCandidate(vote.txHash, env);
      }
    }

    /** Turn the orphan votes whose request is now known into votes. In whatever order that happens, exactly
        those that can be counted are, and those that were not counted already leave the orphans. */
    method ProcessOrphanTxLockVotes(nNow: int)
      requires Valid()
      modifies this`mapTxLockCandidates, this`mapVotedOutpoints, this`mapTxLockVotesOrphan
      ensures Valid() && SameShape(old(mapTxLockCandidates), mapTxLockCandidates)
      ensures OrphansCounted(old(mapTxLockCandidates), mapTxLockCandidates, old(mapTxLockVotesOrphan), nNow)
      ensures MarksJustified(old(mapTxLockCandidates), mapTxLockCandidates, old(mapTxLockVotesOrphan), nNow)
      ensures forall v :: v in mapTxLockVotesOrphan <==>
                v in old(mapTxLockVotesOrphan) && !NewlyCounted(old(mapTxLockCandidates), v, nNow)
    {
      hide VotingOk, Majority, AfterVote;
      ghost var cs := mapTxLockCandidates;
      ghost var all := mapTxLockVotesOrphan;
      assert MarksJustified(cs, cs, {}, nNow);
      hide MarksJustified, AllCandidatesOk;
      var rest := mapTxLockVotesOrphan;
      assert all - rest == {};
      while rest != {}
        invariant Valid() && rest <= all && SameShape(cs, mapTxLockCandidates)
        invariant OrphansCounted(cs, mapTxLockCandidates, all - rest, nNow)
        invariant MarksJustified(cs, mapTxLockCandidates, all - rest, nNow)
        invariant forall v :: v in mapTxLockVotesOrphan <==> v in all && (v in rest || !NewlyCounted(cs, v, nNow))
        decreases rest
      {
        var vote :| vote in rest;
        ghost var before, done := mapTxLockCandidates, all - rest;
        rest := rest - {vote};
        assert all - rest == done + {vote};
        if vote.txHash in mapTxLockCandidates && mapTxLockCandidates[vote.txHash].request.Some?
           && !mapTxLockCandidates[vote.txHash].IsTimedOut(nNow) {
          CandidatesOk(before, mapVotedOutpoints, mapLockedOutpoints, quorum, required);
          var ok := CastVote(vote);
          OrphanCast(cs, before, mapTxLockCandidates, done, vote, nNow);
          MarksCast(cs, before, mapTxLockCandidates, done, vote, nNow);
          if ok {
            mapTxLockVotesOrphan := mapTxLockVotesOrphan - {vote};
          }
        } else {
          OrphanKept(cs, before, done, vote, nNow);
          MarksWiden(cs, before, done, vote, nNow);
        }
      }
      assert all - rest == all;
    }

    /** Fresh locks, without votes, on all inputs of a transaction. */
    method OutPointLocks(tx: Tx) returns (locks: map<OutPoint, OutPointLock>)
      ensures locks == FreshLocks(tx)
    {
      locks := map[];
      for i := 0 to |tx.vin|
        invariant locks.Keys == set o | o in tx.vin[..i]
        invariant forall o :: o in locks ==> locks[o] == OutPointLock(map[], false)
      {
        assert tx.vin[..i + 1] == tx.vin[..i] + [tx.vin[i]];
        if tx.vin[i] !in locks {
          locks := locks[tx.vin[i] := OutPointLock(map[], false)];
        }
      }
      assert tx.vin[..|tx.vin|] == tx.vin;
    }

    method CreateTxLockCandidate(tx: Tx, isValid: bool, nNow: int) returns (ok: bool)
      requires Valid()
      modifies this`mapTxLockCandidates
      ensures Valid()
      ensures mapTxLockCandidates == if isValid then Created(old(mapTxLockCandidates), tx, nNow) else old(mapTxLockCandidates)
      ensures ok <==> isValid && (HasRequest(old(mapTxLockCandidates), tx.hash) || tx.hash !in old(mapTxLockCandidates)
                                  || !old(mapTxLockCandidates)[tx.hash].IsTimedOut(nNow))
    {
      hide VotingOk, Majority;
      if !isValid {
        return false;
      }
      ghost var cs := mapTxLockCandidates;
      if tx.hash !in mapTxLockCandidates {
        var locks := OutPointLocks(tx);
        NewCandidateKeepsVoting(cs, mapVotedOutpoints, mapLockedOutpoints, quorum, required, tx.hash,
                                Candidate(Some(tx), locks, nNow));
        mapTxLockCandidates := mapTxLockCandidates[tx.hash := Candidate(Some(tx), locks, nNow)];
      } else if mapTxLockCandidates[tx.hash].request.None? {
        CandidateAt(cs, mapVotedOutpoints, mapLockedOutpoints, quorum, required, tx.hash);
        var c := mapTxLockCandidates[tx.hash].(request := Some(tx));
        if c.IsTimedOut(nNow) {
          NewCandidateKeepsVoting(cs, mapVotedOutpoints, mapLockedOutpoints, quorum, required, tx.hash, c);
          mapTxLockCandidates := mapTxLockCandidates[tx.hash := c];
          return false;
        }
        var locks := OutPointLocks(tx);
        NewCandidateKeepsVoting(cs, mapVotedOutpoints, mapLockedOutpoints, quorum, required, tx.hash, c.(locks := locks));
        mapTxLockCandidates := mapTxLockCandidates[tx.hash := c.(locks := locks)];
      }
      return true;
    }

    /** A lock request. `isValid` is the outcome of its checks against the UTXO set and fees. */
    method ProcessTxLockRequest(tx: Tx, isValid: bool, env: Env) returns (ok: bool)
      requires Valid()
      modifies this
      ensures Valid() && LocksKept(old(mapLockedOutpoints), mapLockedOutpoints)
      ensures ok <==> isValid && (HasRequest(old(mapTxLockCandidates), tx.hash) || tx.hash !in old(mapTxLockCandidates)
                                  || !old(mapTxLockCandidates)[tx.hash].IsTimedOut(env.nNow))
      ensures !ok ==> unchanged(`mapLockedOutpoints, `mapVotedOutpoints, `mapTxLockVotesOrphan)
      ensures !ok ==> mapTxLockCandidates == if isValid then Created(old(mapTxLockCandidates), tx, env.nNow) else old(mapTxLockCandidates)
      ensures ok ==>
        var cs := Created(old(mapTxLockCandidates), tx, env.nNow);
        && SameShape(cs, mapTxLockCandidates)
        && OrphansCounted(cs, mapTxLockCandidates, old(mapTxLockVotesOrphan), env.nNow)
        && MarksJustified(cs, mapTxLockCandidates, old(mapTxLockVotesOrphan), env.nNow)
        && (forall v :: v in mapTxLockVotesOrphan <==> v in old(mapTxLockVotesOrphan) && !NewlyCounted(cs, v, env.nNow))
        && IsFinalised(old(mapLockedOutpoints), mapLockedOutpoints, mapTxLockCandidates[tx.hash], tx.hash, required, env)
    {
      hide VotingOk, Majority, IsLocking, Lockable, OrphansCounted, MarksJustified;
      ok := CreateTxLockCandidate(tx, isValid, env.nNow);
      if ok {
        ProcessOrphanTxLockVotes(env.nNow);
        TryToFinalizeLockCandidate(tx.hash, env);
      }
    }

    predicate IsLockedInstantSendTransaction(h: Hash, filtering: bool)
      reads this
    {
      && filtering
      && h in mapTxLockCandidates && mapTxLockCandidates[h].locks != map[]
      && forall o :: o in mapTxLockCandidates[h].locks ==> o in mapLockedOutpoints && mapLockedOutpoints[o] == h
    }

    /** Lock a ready candidate, unless the mempool or the chain is against it. */
    method TryToFinalizeLockCandidate(h: Hash, env: Env)
      requires Valid() && h in mapTxLockCandidates
      modifies this`mapLockedOutpoints
      ensures Valid() && LocksKept(old(mapLockedOutpoints), mapLockedOutpoints)
      ensures IsFinalised(old(mapLockedOutpoints), mapLockedOutpoints, mapTxLockCandidates[h], h, required, env)
    {
      hide VotingOk, Majority;
      if !env.enabled {
        return;
      }
      CandidateAt(mapTxLockCandidates, mapVotedOutpoints, mapLockedOutpoints, quorum, required, h);
      if mapTxLockCandidates[h].AllReady(required) && !IsLockedInstantSendTransaction(h, env.filtering) {
        var fine := ResolveConflicts(h, env);
        if fine {
          LockTransactionInputs(h);
        }
      }
    }

    /** Whether nothing speaks against a ready candidate. A completed lock that conflicts with
        it cannot exist, so the branch that would drop both is dead. */
    method ResolveConflicts(h: Hash, env: Env) returns (fine: bool)
      requires Valid() && h in mapTxLockCandidates && mapTxLockCandidates[h].request.Some?
      ensures fine <==> Lockable(mapTxLockCandidates[h], h, required, env)
    {
      var c := mapTxLockCandidates[h];
      if !c.AllReady(required) {
        return false;
      }
      var vin := c.request.value.vin;
      CandidateAt(mapTxLockCandidates, mapVotedOutpoints, mapLockedOutpoints, quorum, required, h);
      hide VotingOk;
      for i := 0 to |vin|
        invariant forall j :: 0 <= j < i && vin[j] in env.mapNextTx ==> env.mapNextTx[vin[j]] == h
      {
        assert vin[i] in Inputs(c.request.value);
        ReadyOwnsOrFree(mapTxLockCandidates, mapVotedOutpoints, mapLockedOutpoints, quorum, total, required, h, vin[i]);
        if vin[i] in mapLockedOutpoints && mapLockedOutpoints[vin[i]] != h {
          assert false; // "conflicting completed Transaction Lock, dropping both"
        } else if vin[i] in env.mapNextTx && env.mapNextTx[vin[i]] != h {
          return false;
        }
      }
      if h in env.mined {
        return true;
      }
      for i := 0 to |vin|
        invariant forall j :: 0 <= j < i ==> vin[j] in env.utxo
      {
        if vin[i] !in env.utxo {
          return false;
        }
      }
      return true;
    }

    /** Map every input of a ready candidate to it. */
    method LockTransactionInputs(h: Hash)
      requires Valid() && h in mapTxLockCandidates
      modifies this`mapLockedOutpoints
      ensures Valid() && LocksKept(old(mapLockedOutpoints), mapLockedOutpoints)
      ensures if mapTxLockCandidates[h].AllReady(required)
              then IsLocking(old(mapLockedOutpoints), mapLockedOutpoints, mapTxLockCandidates[h], h)
              else mapLockedOutpoints == old(mapLockedOutpoints)
    {
      hide VotingOk;
      var c := mapTxLockCandidates[h];
      if !c.AllReady(required) {
        return;
      }
      ghost var locked := mapLockedOutpoints;
      forall o | o in c.locks ensures o in locked ==> locked[o] == h {
        ReadyOwnsOrFree(mapTxLockCandidates, mapVotedOutpoints, locked, quorum, total, required, h, o);
      }
      var rest := c.locks.Keys;
      while rest != {}
        invariant rest <= c.locks.Keys
        invariant forall o :: Lookup(mapLockedOutpoints, o) ==
                    if o in c.locks.Keys - rest then Some(h) else Lookup(locked, o)
        decreases rest
      {
        var o :| o in rest;
        if o !in mapLockedOutpoints {
          mapLockedOutpoints := mapLockedOutpoints[o := h];
        }
        rest := rest - {o};
      }
      LockKeepsVoting(mapTxLockCandidates, mapVotedOutpoints, locked, mapLockedOutpoints, quorum, required, h);
    }

    /** Vote, on a node that is not a masternode and so has no vote of its own: a known candidate is looked at once more. */
    method VoteOn(h: Hash, env: Env)
      requires Valid()
      modifies this`mapLockedOutpoints
      ensures Valid() && LocksKept(old(mapLockedOutpoints), mapLockedOutpoints)
      ensures if h in mapTxLockCandidates
              then IsFinalised(old(mapLockedOutpoints), mapLockedOutpoints, mapTxLockCandidates[h], h, required, env)
              else mapLockedOutpoints == old(mapLockedOutpoints)
    {
      hide VotingOk, Majority, IsFinalised;
      if h in mapTxLockCandidates {
        TryToFinalizeLockCandidate(h, env);
      }
    }

    /** Every run keeps the voting invariant and every lock ever made. */
    method Run(ops: seq<Op>)
      requires Valid() && forall i :: 0 <= i < |ops| ==> Honest(ops[i], quorum)
      modifies this
      ensures Valid() && LocksKept(old(mapLockedOutpoints), mapLockedOutpoints)
    {
      hide VotingOk, Majority;
      for i := 0 to |ops|
        invariant Valid() && LocksKept(old(mapLockedOutpoints), mapLockedOutpoints)
      {
        ghost var locked := mapLockedOutpoints;
        match ops[i] {
          case VoteMessage(vote, isValid, env) => var _ := ProcessNewTxLockVote(vote, isValid, env);
          case Request(tx, isValid, env) => var _ := ProcessTxLockRequest(tx, isValid, env);
          case VoteOn(h, env) => VoteOn(h, env);
          case DropOrphans(votes, masternodes) =>
            mapTxLockVotesOrphan := mapTxLockVotesOrphan - votes;
            mapMasternodeOrphanVotes := mapMasternodeOrphanVotes - masternodes;
        }
        assert LocksKept(locked, mapLockedOutpoints);
      }
    }
  }

  datatype Op =
    | VoteMessage(vote: Vote, isValid: bool, env: Env)
    | Request(tx: Tx, isValid: bool, env: Env)
    | VoteOn(h: Hash, env: Env)
    | DropOrphans(votes: set<Vote>, masternodes: set<Masternode>)

  /** Votes pass validation only if their masternode is in the outpoint's quorum; it may
      vote for as many transactions as it likes. */
  ghost predicate Honest(op: Op, quorum: OutPoint -> set<Masternode>) {
    op.VoteMessage? && op.isValid ==> op.vote.masternode in quorum(op.vote.outpoint)
  }

  function Until(m: Masternode, nTime: nat): nat {
    nTime
  }

  ghost function Part(times: map<Masternode, nat>, ms: set<Masternode>): map<Masternode, nat> {
    map m | m in times && m in ms :: times[m]
  }

  lemma PartStep(times: map<Masternode, nat>, ms: set<Masternode>, m: Masternode)
    requires m in ms && m in times
    ensures Sum(Part(times, ms), Until) == times[m] + Sum(Part(times, ms - {m}), Until)
  {
    SumRemove(Part(times, ms), Until, m);
    assert Part(times, ms) - {m} == Part(times, ms - {m});
  }

  lemma PartEnds(times: map<Masternode, nat>)
    ensures Part(times, times.Keys) == times && Sum(Part(times, {}), Until) == 0
  {
    assert Part(times, {}) == map[];
  }

  ghost function Average(times: map<Masternode, nat>): nat {
    if times == map[] then 0 else Sum(times, Until) / |times|
  }

  /** The masternode is remembered for an orphan vote, and for longer than the others are on average. */
  ghost predicate TooFast(times: map<Masternode, nat>, m: Masternode, nNow: nat) {
    m in times && times[m] > nNow && times[m] > Average(times)
  }

  /** The candidate is known with its request. */
  ghost predicate HasRequest(cs: Candidates, h: Hash) { h in cs && cs[h].request.Some? }

  /** A vote that an existing candidate can count. */
  ghost predicate Countable(cs: Candidates, v: Vote, nNow: int) {
    HasRequest(cs, v.txHash) && !cs[v.txHash].IsTimedOut(nNow) && v.outpoint in cs[v.txHash].locks
  }

  ghost predicate NewlyCounted(cs: Candidates, v: Vote, nNow: int) {
    Countable(cs, v, nNow) && !cs[v.txHash].HasVoted(v.outpoint, v.masternode)
  }

  /** Only votes and attack marks differ. */
  ghost predicate SameShape(cs: Candidates, cs': Candidates) {
    cs'.Keys == cs.Keys && forall h :: h in cs ==> SameCandidate(cs[h], cs'[h])
  }

  ghost predicate SameCandidate(c: Candidate, c': Candidate) {
    c'.request == c.request && c'.nTimeCreated == c.nTimeCreated && c'.locks.Keys == c.locks.Keys
  }

  /** The votes are those there were and the countable ones among the orphans. */
  ghost predicate OrphansCounted(cs: Candidates, cs': Candidates, orphans: set<Vote>, nNow: int) {
    forall v: Vote :: v.txHash in cs && v.txHash in cs' ==>
      (cs'[v.txHash].HasVoted(v.outpoint, v.masternode) <==>
       cs[v.txHash].HasVoted(v.outpoint, v.masternode) || (v in orphans && Countable(cs, v, nNow)))
  }

  ghost predicate Attacked(cs: Candidates, g: Hash, o: OutPoint) {
    g in cs && o in cs[g].locks && cs[g].locks[o].attacked
  }

  /** A masternode with a vote for g on the outpoint has one for another transaction there: counted, or among those given
      for a request that is known and not timed out. */
  ghost predicate Contested(cs: Candidates, votes: set<Vote>, g: Hash, o: OutPoint, nNow: int) {
    exists v: Vote ::
      && v.txHash != g && v.outpoint == o && g in cs && cs[g].HasVoted(o, v.masternode) && HasRequest(cs, v.txHash)
      && (cs[v.txHash].HasVoted(o, v.masternode) || (v in votes && !cs[v.txHash].IsTimedOut(nNow)))
  }

  /** Marks stay, and those that came have a reason. */
  ghost predicate MarksJustified(cs: Candidates, cs': Candidates, votes: set<Vote>, nNow: int) {
    forall g, o ::
      (Attacked(cs, g, o) ==> Attacked(cs', g, o)) && (Attacked(cs', g, o) ==> Attacked(cs, g, o) || Contested(cs', votes, g, o, nNow))
  }

  /** More votes, counted or given, are no less of a reason. */
  lemma ContestedWidens(cs: Candidates, cs': Candidates, votes: set<Vote>, votes': set<Vote>, g: Hash, o: OutPoint, nNow: int)
    requires Contested(cs, votes, g, o, nNow) && votes <= votes' && SameShape(cs, cs')
    requires forall h, m :: h in cs && cs[h].HasVoted(o, m) ==> cs'[h].HasVoted(o, m)
    ensures Contested(cs', votes', g, o, nNow)
  {
    var v: Vote :|
      && v.txHash != g && v.outpoint == o && g in cs && cs[g].HasVoted(o, v.masternode) && HasRequest(cs, v.txHash)
      && (cs[v.txHash].HasVoted(o, v.masternode) || (v in votes && !cs[v.txHash].IsTimedOut(nNow)));
    assert SameCandidate(cs[v.txHash], cs'[v.txHash]);
  }

  lemma MarksWiden(cs: Candidates, before: Candidates, done: set<Vote>, vote: Vote, nNow: int)
    requires MarksJustified(cs, before, done, nNow)
    ensures MarksJustified(cs, before, done + {vote}, nNow)
  {
    hide Attacked, Contested;
    forall g, o | Attacked(before, g, o) && !Attacked(cs, g, o) ensures Contested(before, done + {vote}, g, o, nNow) {
      ContestedWidens(before, before, done, done + {vote}, g, o, nNow);
    }
  }

  /** A vote marks a candidate only against another vote of its masternode. */
  lemma VoteMarks(before: Candidates, after: Candidates, done: set<Vote>, vote: Vote, nNow: int, g: Hash, o: OutPoint)
    requires SameShape(before, after) && forall h :: h in after ==> after[h] == AfterVote(before, vote, h)
    requires HasRequest(before, vote.txHash) && !before[vote.txHash].IsTimedOut(nNow)
    requires AllCandidatesOk(before)
    ensures Attacked(before, g, o) ==> Attacked(after, g, o)
    ensures Attacked(after, g, o) && !Attacked(before, g, o) ==> Contested(after, done + {vote}, g, o, nNow)
  {
    if Attacked(after, g, o) && !Attacked(before, g, o) {
      assert Doubled(before, vote, g, before.Keys) && o == vote.outpoint;
      if g == vote.txHash {
        var x :| x in before && x != g && before[x].HasVoted(o, vote.masternode);
        assert after[x].HasVoted(o, vote.masternode) && CandidateOk(x, before[x]);
        var v := Vote(x, o, vote.masternode);
        assert v.txHash == x;
      }
    }
  }

  lemma MarksCast(cs: Candidates, before: Candidates, after: Candidates, done: set<Vote>, vote: Vote, nNow: int)
    requires MarksJustified(cs, before, done, nNow) && SameShape(before, after)
    requires forall h :: h in after ==> after[h] == AfterVote(before, vote, h)
    requires HasRequest(before, vote.txHash) && !before[vote.txHash].IsTimedOut(nNow)
    requires AllCandidatesOk(before)
    ensures MarksJustified(cs, after, done + {vote}, nNow)
  {
    forall h, p, m | h in before && before[h].HasVoted(p, m) ensures after[h].HasVoted(p, m) {
      AfterVoteShape(before, vote, h);
      assert Vote(h, p, m).txHash == h;
    }
    hide Attacked, Contested, AfterVote, SameShape, AllCandidatesOk;
    forall g, o
      ensures Attacked(cs, g, o) ==> Attacked(after, g, o)
      ensures Attacked(after, g, o) ==> Attacked(cs, g, o) || Contested(after, done + {vote}, g, o, nNow)
    {
      VoteMarks(before, after, done, vote, nNow, g, o);
      if Contested(before, done, g, o, nNow) {
        ContestedWidens(before, after, done, done + {vote}, g, o, nNow);
      }
    }
  }

  /** A ready candidate got its locks if nothing speaks against it; otherwise no lock changed. */
  ghost predicate IsFinalised(locked: map<OutPoint, Hash>, locked': map<OutPoint, Hash>, c: Candidate, h: Hash, required: nat, env: Env) {
    if c.request.Some? && env.enabled && Lockable(c, h, required, env) then IsLocking(locked, locked', c, h) else locked' == locked
  }

  ghost function FreshLocks(tx: Tx): map<OutPoint, OutPointLock> {
    map o | o in Inputs(tx) :: OutPointLock(map[], false)
  }

  /** What a valid request makes of the candidates: a new one, or an empty one completed unless it timed out. */
  ghost function Created(cs: Candidates, tx: Tx, nNow: int): Candidates {
    if tx.hash !in cs then cs[tx.hash := Candidate(Some(tx), FreshLocks(tx), nNow)]
    else if cs[tx.hash].request.Some? then cs
    else if cs[tx.hash].IsTimedOut(nNow) then cs[tx.hash := cs[tx.hash].(request := Some(tx))]
    else cs[tx.hash := cs[tx.hash].(request := Some(tx), locks := FreshLocks(tx))]
  }

  lemma AfterVoteShape(cs: Candidates, vote: Vote, g: Hash)
    requires g in cs
    ensures SameCandidate(cs[g], AfterVote(cs, vote, g))
    ensures forall v: Vote :: v.txHash == g ==>
      (AfterVote(cs, vote, g).HasVoted(v.outpoint, v.masternode) <==>
       cs[g].HasVoted(v.outpoint, v.masternode) || (v == vote && v.outpoint in cs[g].locks))
  {
    var c := if Doubled(cs, vote, g, cs.Keys) then cs[g].MarkAttacked(vote.outpoint) else cs[g];
    assert c.locks.Keys == cs[g].locks.Keys;
    hide Doubled;
  }

  /** Casting one more orphan vote. */
  lemma OrphanCast(cs: Candidates, before: Candidates, after: Candidates, done: set<Vote>, vote: Vote, nNow: int)
    requires SameShape(cs, before) && OrphansCounted(cs, before, done, nNow) && after.Keys == before.Keys
    requires HasRequest(before, vote.txHash) && !before[vote.txHash].IsTimedOut(nNow) && vote !in done
    requires forall g :: g in after ==> after[g] == AfterVote(before, vote, g)
    ensures SameShape(cs, after) && OrphansCounted(cs, after, done + {vote}, nNow)
    ensures NewlyCounted(cs, vote, nNow) == NewlyCounted(before, vote, nNow)
  {
    hide AfterVote;
    forall g | g in before ensures SameCandidate(cs[g], after[g]) {
      AfterVoteShape(before, vote, g);
    }
    forall v: Vote | v.txHash in cs && v.txHash in after
      ensures after[v.txHash].HasVoted(v.outpoint, v.masternode) <==>
        cs[v.txHash].HasVoted(v.outpoint, v.masternode) || (v in done + {vote} && Countable(cs, v, nNow))
    {
      AfterVoteShape(before, vote, v.txHash);
    }
  }

  lemma OrphanKept(cs: Candidates, before: Candidates, done: set<Vote>, vote: Vote, nNow: int)
    requires SameShape(cs, before) && OrphansCounted(cs, before, done, nNow)
    requires !(HasRequest(before, vote.txHash) && !before[vote.txHash].IsTimedOut(nNow))
    ensures OrphansCounted(cs, before, done + {vote}, nNow) && !NewlyCounted(cs, vote, nNow)
  {}

  lemma CandidatesOk(cs: Candidates, voted: map<OutPoint, set<Hash>>, locked: map<OutPoint, Hash>,
                     quorum: OutPoint -> set<Masternode>, required: nat)
    requires VotingOk(cs, voted, locked, quorum, required)
    ensures AllCandidatesOk(cs)
  {
  }

  lemma CandidateAt(cs: Candidates, voted: map<OutPoint, set<Hash>>, locked: map<OutPoint, Hash>,
                    quorum: OutPoint -> set<Masternode>, required: nat, h: Hash)
    requires VotingOk(cs, voted, locked, quorum, required) && h in cs
    ensures CandidateOk(h, cs[h])
  {
  }

  lemma ReadyOwnsOrFree(cs: Candidates, voted: map<OutPoint, set<Hash>>, locked: map<OutPoint, Hash>,
                        quorum: OutPoint -> set<Masternode>, total: nat, required: nat, h: Hash, o: OutPoint)
    requires VotingOk(cs, voted, locked, quorum, required) && Majority(quorum, total, required)
    requires h in cs && o in cs[h].locks && cs[h].AllReady(required)
    ensures o in locked ==> locked[o] == h
  {
    ReadyMeetsNoLock(cs, locked, quorum, total, required, h, o);
  }

  /** Whether the vote, compared with those of the given hashes, spoils candidate g: g has
      this masternode's vote on the outpoint already, or g is voted for now and another has. */
  ghost predicate Doubled(cs: Candidates, vote: Vote, g: Hash, hashes: set<Hash>) {
    if g == vote.txHash then
      exists x :: x in hashes && x in cs && x != g && cs[x].HasVoted(vote.outpoint, vote.masternode)
    else
      g in hashes && g in cs && cs[g].HasVoted(vote.outpoint, vote.masternode)
  }

  /** Exactly the spoilt candidates were marked. */
  ghost predicate Spoils(cs: Candidates, cs': Candidates, vote: Vote, hashes: set<Hash>) {
    && cs'.Keys == cs.Keys
    && forall g :: g in cs ==>
         cs'[g] == if Doubled(cs, vote, g, hashes) then cs[g].MarkAttacked(vote.outpoint) else cs[g]
  }

  /** What one vote does to candidate g: spoil it if it completes a double vote, and count
      for it if it is the one voted for and the masternode is new there. */
  ghost function AfterVote(cs: Candidates, vote: Vote, g: Hash): Candidate
    requires g in cs
  {
    var c := if Doubled(cs, vote, g, cs.Keys) then cs[g].MarkAttacked(vote.outpoint) else cs[g];
    if g == vote.txHash && vote.outpoint in c.locks && vote.masternode !in c.locks[vote.outpoint].votes
    then WithVote(c, vote) else c
  }

  lemma NothingSpoilt(cs: Candidates, vote: Vote)
    ensures Spoils(cs, cs, vote, {})
  {
  }

  /** One turn of the search for double votes. */
  lemma SpoilStep(cs: Candidates, cs': Candidates, vote: Vote, hash: Hash, done: set<Hash>)
    requires Spoils(cs, cs', vote, done) && vote.txHash in cs'
    ensures var o := vote.outpoint;
            if hash != vote.txHash && hash in cs' && cs'[hash].HasVoted(o, vote.masternode) then
              var m := cs'[vote.txHash := cs'[vote.txHash].MarkAttacked(o)];
              Spoils(cs, m[hash := m[hash].MarkAttacked(o)], vote, done + {hash})
            else
              Spoils(cs, cs', vote, done + {hash})
  {
    var o := vote.outpoint;
    if hash in cs {
      assert cs'[hash].HasVoted(o, vote.masternode) <==> cs[hash].HasVoted(o, vote.masternode);
    }
    if hash != vote.txHash && hash in cs' && cs'[hash].HasVoted(o, vote.masternode) {
      var m := cs'[vote.txHash := cs'[vote.txHash].MarkAttacked(o)];
      var m' := m[hash := m[hash].MarkAttacked(o)];
      assert m'.Keys == cs.Keys;
      assert Doubled(cs, vote, vote.txHash, done + {hash});
      forall g | g in cs && g != vote.txHash && g != hash
        ensures Doubled(cs, vote, g, done + {hash}) <==> Doubled(cs, vote, g, done) {}
    } else {
      forall g | g in cs ensures Doubled(cs, vote, g, done + {hash}) <==> Doubled(cs, vote, g, done) {
        if g == vote.txHash && Doubled(cs, vote, g, done + {hash}) {
          var x :| x in done + {hash} && x in cs && x != g && cs[x].HasVoted(o, vote.masternode);
          assert x in done;
        }
      }
    }
  }

  /** The hashes recorded for the outpoint are all that matters. */
  lemma OnlyRecordedVotes(cs: Candidates, cs': Candidates, voted: map<OutPoint, set<Hash>>,
                          locked: map<OutPoint, Hash>, quorum: OutPoint -> set<Masternode>, required: nat, vote: Vote)
    requires VotingOk(cs, voted, locked, quorum, required)
    requires Spoils(cs, cs', vote, if vote.outpoint in voted then voted[vote.outpoint] else {})
    ensures Spoils(cs, cs', vote, cs.Keys)
  {
    var hashes := if vote.outpoint in voted then voted[vote.outpoint] else {};
    forall g | g in cs ensures Doubled(cs, vote, g, cs.Keys) <==> Doubled(cs, vote, g, hashes) {
      if g == vote.txHash && Doubled(cs, vote, g, cs.Keys) {
        var x :| x in cs && x != g && cs[x].HasVoted(vote.outpoint, vote.masternode);
        assert x in hashes;
      }
    }
  }

  lemma SpoilsIsMarked(cs: Candidates, cs': Candidates, vote: Vote)
    requires Spoils(cs, cs', vote, cs.Keys)
    ensures Marked(cs, cs', vote.outpoint)
  {
  }

  lemma SpoilsIsAfterVote(cs: Candidates, cs': Candidates, vote: Vote)
    requires Spoils(cs, cs', vote, cs.Keys) && vote.txHash in cs
    ensures forall g :: g in cs && g != vote.txHash ==> cs'[g] == AfterVote(cs, vote, g)
    ensures var c := cs'[vote.txHash];
            AfterVote(cs, vote, vote.txHash) ==
              if vote.outpoint in c.locks && vote.masternode !in c.locks[vote.outpoint].votes then WithVote(c, vote) else c
  {
  }

  /** After the search, whoever else has this masternode's vote is attacked, and so is the
      candidate voted for. */
  lemma SpoilsExposes(cs: Candidates, cs': Candidates, vote: Vote)
    requires Spoils(cs, cs', vote, cs.Keys) && vote.txHash in cs && vote.outpoint in cs'[vote.txHash].locks
    ensures forall g :: g in cs' && g != vote.txHash && cs'[g].HasVoted(vote.outpoint, vote.masternode) ==>
              cs'[g].locks[vote.outpoint].attacked && cs'[vote.txHash].locks[vote.outpoint].attacked
  {
    forall g | g in cs' && g != vote.txHash && cs'[g].HasVoted(vote.outpoint, vote.masternode)
      ensures cs'[g].locks[vote.outpoint].attacked && cs'[vote.txHash].locks[vote.outpoint].attacked
    {
      assert g in cs && cs[g].HasVoted(vote.outpoint, vote.masternode);
      assert Doubled(cs, vote, g, cs.Keys) && Doubled(cs, vote, vote.txHash, cs.Keys);
    }
  }

  lemma RecordKeepsVoting(cs: Candidates, voted: map<OutPoint, set<Hash>>, locked: map<OutPoint, Hash>,
                          quorum: OutPoint -> set<Masternode>, required: nat, o: OutPoint, hashes: set<Hash>)
    requires VotingOk(cs, voted, locked, quorum, required)
    requires o in voted ==> voted[o] <= hashes
    ensures VotingOk(cs, voted[o := hashes], locked, quorum, required)
  {
  }
}

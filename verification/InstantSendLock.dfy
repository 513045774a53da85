/**
 * That InstantSend locks: a transaction whose request and votes all arrive in time, in any order and among any other
 * traffic, ends with all its inputs locked. Stated by counting votes.
 */
module InstantSendLock {
  import opened Arith
  import opened Foundations
  import opened InstantSend

  /** The old InstantSend is on, no other mempool transaction spends an input, and the transaction is mined or all its
      inputs are unspent. */
  ghost predicate Unopposed(env: Env, tx: Tx) {
    && env.enabled
    && (forall o :: o in tx.vin && o in env.mapNextTx ==> env.mapNextTx[o] == tx.hash)
    && (tx.hash in env.mined || forall o :: o in tx.vin ==> o in env.utxo)
  }

  /** Every input has enough votes and none was voted on twice by one masternode. */
  ghost predicate Enough(c: Candidate, required: nat) {
    forall o :: o in c.locks ==> !c.locks[o].attacked && |c.locks[o].votes| >= required
  }

  lemma EnoughIsFinal(c: Candidate, tx: Tx, required: nat, env: Env, locked: map<OutPoint, Hash>, locked': map<OutPoint, Hash>)
    requires c.request == Some(tx) && c.locks.Keys == Inputs(tx) && tx.vin != []
    requires Enough(c, required) && Unopposed(env, tx) && IsFinalised(locked, locked', c, tx.hash, required, env)
    ensures forall o :: o in tx.vin ==> Lookup(locked', o) == Some(tx.hash)
    ensures forall o :: o !in tx.vin ==> Lookup(locked', o) == Lookup(locked, o)
  {
    assert tx.vin[0] in c.locks.Keys;
    assert forall o :: o in c.locks ==> c.locks[o].IsReady(required);
    assert Lockable(c, tx.hash, required, env);
    assert IsLocking(locked, locked', c, tx.hash);
  }

  /** Short of that, nothing is locked. */
  lemma NotFinal(c: Candidate, tx: Tx, required: nat, env: Env, locked: map<OutPoint, Hash>, locked': map<OutPoint, Hash>)
    requires c.request == Some(tx) && c.locks.Keys == Inputs(tx)
    requires !Enough(c, required) || !Unopposed(env, tx) || tx.vin == []
    requires IsFinalised(locked, locked', c, tx.hash, required, env)
    ensures locked' == locked
  {
    if tx.vin == [] {
      assert Inputs(tx) == {};
      assert c.locks.Keys == {};
      assert c.locks == map[];
    }
    if Lockable(c, tx.hash, required, env) {
      assert forall o :: o in c.locks ==> c.locks[o].IsReady(required);
    }
  }

  /** What a timely vote for a known request does to the locks. It is counted if it is for an input and the masternode has
      no vote there yet. Only then, and exactly if every input now has enough votes, none is attacked and nothing opposes
      the transaction, all its inputs are locked; no other lock changes. */
  method VoteOutcome(node: Node, vote: Vote, tx: Tx, env: Env) returns (ok: bool)
    requires node.Valid() && vote.masternode in node.quorum(vote.outpoint)
    requires vote.txHash == tx.hash && tx.hash in node.mapTxLockCandidates
    requires var c := node.mapTxLockCandidates[tx.hash];
             c.request == Some(tx) && c.locks.Keys == Inputs(tx) && env.nNow <= c.nTimeCreated + 15
    modifies node
    ensures node.Valid() && tx.hash in node.mapTxLockCandidates
    ensures ok <==> vote.outpoint in tx.vin && vote.masternode !in old(node.mapTxLockCandidates)[tx.hash].locks[vote.outpoint].votes
    ensures forall o :: o !in tx.vin ==> Lookup(node.mapLockedOutpoints, o) == Lookup(old(node.mapLockedOutpoints), o)
    ensures if ok && Enough(node.mapTxLockCandidates[tx.hash], node.required) && Unopposed(env, tx)
            then forall o :: o in tx.vin ==> Lookup(node.mapLockedOutpoints, o) == Some(tx.hash)
            else node.mapLockedOutpoints == old(node.mapLockedOutpoints)
  {
    hide VotingOk, Majority;
    ghost var cs, locked := node.mapTxLockCandidates, node.mapLockedOutpoints;
    assert vote.outpoint in tx.vin <==> vote.outpoint in cs[tx.hash].locks.Keys;
    AfterVoteShape(cs, vote, tx.hash);
    hide AfterVote;
    ok := node.ProcessNewTxLockVote(vote, true, env);
    ghost var c := node.mapTxLockCandidates[tx.hash];
    if ok {
      if Enough(c, node.required) && Unopposed(env, tx) {
        EnoughIsFinal(c, tx, node.required, env, locked, node.mapLockedOutpoints);
      } else {
        NotFinal(c, tx, node.required, env, locked, node.mapLockedOutpoints);
      }
    }
  }

  /** The vote that completes the count locks every input at once. */
  method LastVoteLocks(node: Node, vote: Vote, tx: Tx, env: Env)
    requires node.Valid() && vote.masternode in node.quorum(vote.outpoint)
    requires vote.txHash == tx.hash && tx.hash in node.mapTxLockCandidates
    requires var c := node.mapTxLockCandidates[tx.hash];
             && c.request == Some(tx) && vote.outpoint in tx.vin && c.locks.Keys == Inputs(tx)
             && env.nNow <= c.nTimeCreated + 15
             && vote.masternode !in c.locks[vote.outpoint].votes
             && (forall o :: o in c.locks ==>
                   !c.locks[o].attacked && |c.locks[o].votes| + (if o == vote.outpoint then 1 else 0) >= node.required)
    requires forall g :: g in node.mapTxLockCandidates && g != tx.hash ==>
               !node.mapTxLockCandidates[g].HasVoted(vote.outpoint, vote.masternode)
    requires Unopposed(env, tx)
    modifies node
    ensures node.Valid()
    ensures forall o :: o in tx.vin ==> Lookup(node.mapLockedOutpoints, o) == Some(tx.hash)
  {
    hide VotingOk, Majority;
    ghost var cs, locked := node.mapTxLockCandidates, node.mapLockedOutpoints;
    var ok := node.ProcessNewTxLockVote(vote, true, env);
    assert !Doubled(cs, vote, tx.hash, cs.Keys);
    assert node.mapTxLockCandidates[tx.hash] == WithVote(cs[tx.hash], vote);
    EnoughIsFinal(WithVote(cs[tx.hash], vote), tx, node.required, env, locked, node.mapLockedOutpoints);
  }

  /** A vote later than 15 seconds after the candidate was made changes nothing. */
  method LateVote(node: Node, vote: Vote, isValid: bool, env: Env) returns (ok: bool)
    requires node.Valid() && (isValid ==> vote.masternode in node.quorum(vote.outpoint))
    requires HasRequest(node.mapTxLockCandidates, vote.txHash)
    requires env.nNow > node.mapTxLockCandidates[vote.txHash].nTimeCreated + 15
    modifies node
    ensures !ok && unchanged(node`mapTxLockCandidates, node`mapLockedOutpoints, node`mapTxLockVotesOrphan)
  {
    hide VotingOk, Majority;
    ok := node.ProcessNewTxLockVote(vote, isValid, env);
  }

  /** A request later than 15 seconds after the first vote for it is refused: it is remembered, but gets no locks. */
  method LateRequest(node: Node, tx: Tx, isValid: bool, env: Env) returns (ok: bool)
    requires node.Valid() && tx.hash in node.mapTxLockCandidates && !HasRequest(node.mapTxLockCandidates, tx.hash)
    requires env.nNow > node.mapTxLockCandidates[tx.hash].nTimeCreated + 15
    modifies node
    ensures !ok && unchanged(node`mapLockedOutpoints, node`mapTxLockVotesOrphan)
    ensures var c := old(node.mapTxLockCandidates)[tx.hash];
            node.mapTxLockCandidates == old(node.mapTxLockCandidates)[tx.hash := if isValid then c.(request := Some(tx)) else c]
    ensures node.mapTxLockCandidates[tx.hash].locks == map[]
  {
    CandidateAt(node.mapTxLockCandidates, node.mapVotedOutpoints, node.mapLockedOutpoints, node.quorum, node.required, tx.hash);
    hide VotingOk, Majority;
    ok := node.ProcessTxLockRequest(tx, isValid, env);
  }

  lemma {:induction false} SumAtMost(times: map<Masternode, nat>, top: nat)
    requires forall m :: m in times ==> times[m] <= top
    ensures Sum(times, Until) <= |times| * top
    decreases |times|
  {
    hide Sum;
    NoTimes();
    if times != map[] {
      var m := AnyOf(times.Keys);
      var rest := times - {m};
      SumRemove(times, Until, m);
      assert times.Keys == rest.Keys + {m};
      assert |times| == |times.Keys| && |rest| == |rest.Keys|;
      SumAtMost(rest, top);
      OneMoreTime(|rest|, top);
    }
  }

  lemma NoTimes()
    ensures Sum<Masternode, nat>(map[], Until) == 0
  {
  }

  lemma OneMoreTime(n: nat, top: nat)
    ensures (n + 1) * top == n * top + top
  {
  }

  /** The masternode remembered longest is remembered longer than the average, unless it is the only one. */
  lemma LongestIsTooFast(times: map<Masternode, nat>, m: Masternode, nNow: nat)
    requires m in times && forall x :: x in times && x != m ==> times[x] < times[m]
    ensures TooFast(times, m, nNow) <==> times[m] > nNow && |times| > 1
  {
    var rest, t := times - {m}, times[m];
    SumRemove(times, Until, m);
    assert times.Keys == rest.Keys + {m};
    assert |times| == |times.Keys| && |rest| == |rest.Keys|;
    NoTimes();
    hide Sum;
    if rest != map[] {
      assert rest.Keys != {};
      var x := AnyOf(rest.Keys);
      SumAtMost(rest, t - 1);
      BelowAverage(|rest|, t, Sum(rest, Until));
    }
  }

  /** One time above all others is above the average. */
  lemma BelowAverage(n: nat, t: nat, rest: nat)
    requires n > 0 && t > 0 && rest <= n * (t - 1)
    ensures (t + rest) / (n + 1) < t
  {
    assert n * (t - 1) == n * t - n;
    assert (n + 1) * t == n * t + t;
    DivBounds(t + rest, n + 1, t);
  }

  /** The rate of orphan votes. A masternode not remembered for one is heard and remembered for ten minutes; the one
      remembered longest is refused while others are remembered too. */
  method OrphanRate(node: Node, vote: Vote, env: Env) returns (ok: bool)
    requires node.Valid() && vote.masternode in node.quorum(vote.outpoint)
    requires !HasRequest(node.mapTxLockCandidates, vote.txHash)
    modifies node
    ensures node.mapTxLockVotesOrphan == old(node.mapTxLockVotesOrphan) + {vote}
    ensures var times, m := old(node.mapMasternodeOrphanVotes), vote.masternode;
            && (m !in times ==> ok) && (m in times && times[m] <= env.nNow ==> ok)
            && (m in times && times[m] > env.nNow && (forall x :: x in times && x != m ==> times[x] < times[m]) ==> (ok <==> |times| == 1))
            && node.mapMasternodeOrphanVotes == if ok then times[m := env.nNow + 600] else times
  {
    ghost var times, m := node.mapMasternodeOrphanVotes, vote.masternode;
    if m in times && forall x :: x in times && x != m ==> times[x] < times[m] {
      LongestIsTooFast(times, m, env.nNow);
    }
    hide VotingOk, Majority, Average, Sum;
    ok := node.ProcessNewTxLockVote(vote, true, env);
  }

  // ------------------------------------------------------------------
  // Whole runs
  // ------------------------------------------------------------------

  /** The valid votes among some messages. */
  ghost function Votes(ops: seq<Op>): set<Vote> {
    set i | 0 <= i < |ops| && ops[i].VoteMessage? && ops[i].isValid :: ops[i].vote
  }

  /** The vote was counted or waits for its request. */
  ghost predicate Known(cs: Candidates, orphans: set<Vote>, v: Vote) {
    (v.txHash in cs && cs[v.txHash].HasVoted(v.outpoint, v.masternode)) || v in orphans
  }

  /** The votes known and those to come. */
  ghost function AllVotes(cs: Candidates, orphans: set<Vote>, ops: seq<Op>): iset<Vote> {
    iset v | Known(cs, orphans, v) || v in Votes(ops)
  }

  /** No masternode among the votes in u votes on an input of tx both for tx and for another transaction. */
  ghost predicate NoneTwice(u: iset<Vote>, tx: Tx) {
    forall v: Vote :: v in u && v.outpoint in tx.vin && v.txHash != tx.hash ==> Vote(tx.hash, v.outpoint, v.masternode) !in u
  }

  /** What holds of tx while messages about it come in: every vote seen is counted, or waits if the request is still
      missing, and a full count has led to the locks. */
  ghost predicate Following(cs: Candidates, orphans: set<Vote>, locked: map<OutPoint, Hash>, tx: Tx, required: nat,
                            seen: set<Vote>, u: iset<Vote>, t0: int) {
    && (forall v :: Known(cs, orphans, v) ==> v in u)
    && (forall v :: v in orphans && v.txHash == tx.hash ==> v in seen)
    && (tx.hash in cs ==> cs[tx.hash].nTimeCreated >= t0)
    && if HasRequest(cs, tx.hash) then Counting(cs[tx.hash], locked, tx, required, seen)
       else forall v :: v in seen && v.txHash == tx.hash ==> v in orphans
  }

  ghost predicate Counting(c: Candidate, locked: map<OutPoint, Hash>, tx: Tx, required: nat, seen: set<Vote>) {
    && c.request == Some(tx) && c.locks.Keys == Inputs(tx)
    && (forall v :: v in seen && v.txHash == tx.hash && v.outpoint in tx.vin ==> c.HasVoted(v.outpoint, v.masternode))
    && (forall o :: o in c.locks ==> !c.locks[o].attacked)
    && (Enough(c, required) ==> forall o :: o in tx.vin ==> Lookup(locked, o) == Some(tx.hash))
  }

  /** On an input of tx no other vote competes with one for tx. */
  lemma NotContested(cs: Candidates, orphans: set<Vote>, tx: Tx, u: iset<Vote>, o: OutPoint, nNow: int)
    requires (forall v :: Known(cs, orphans, v) ==> v in u) && NoneTwice(u, tx) && o in tx.vin
    ensures !Contested(cs, orphans, tx.hash, o, nNow)
  {
    if Contested(cs, orphans, tx.hash, o, nNow) {
      var v: Vote :|
        && v.txHash != tx.hash && v.outpoint == o && tx.hash in cs && cs[tx.hash].HasVoted(o, v.masternode)
        && HasRequest(cs, v.txHash)
        && (cs[v.txHash].HasVoted(o, v.masternode) || (v in orphans && !cs[v.txHash].IsTimedOut(nNow)));
      assert Known(cs, orphans, v);
      assert Known(cs, orphans, Vote(tx.hash, o, v.masternode));
      assert false;
    }
  }

  /** The same voters make the same count. */
  lemma SameCount(c: Candidate, c': Candidate, required: nat)
    requires c'.locks.Keys == c.locks.Keys
    requires forall o, m :: o in c.locks ==> (c'.HasVoted(o, m) <==> c.HasVoted(o, m))
    requires forall o :: o in c.locks ==> !c.locks[o].attacked
    ensures Enough(c', required) ==> Enough(c, required)
  {
    forall o | o in c.locks ensures |c'.locks[o].votes| == |c.locks[o].votes| {
      forall m ensures m in c'.locks[o].votes.Keys <==> m in c.locks[o].votes.Keys {
        assert c'.HasVoted(o, m) <==> c.HasVoted(o, m);
      }
      assert c'.locks[o].votes.Keys == c.locks[o].votes.Keys;
      assert |c'.locks[o].votes| == |c'.locks[o].votes.Keys| && |c.locks[o].votes| == |c.locks[o].votes.Keys|;
    }
  }

  /** A vote for another transaction, or a repeated one, leaves tx as it was. */
  lemma VoteElsewhere(cs: Candidates, orphans: set<Vote>, vote: Vote, tx: Tx, u: iset<Vote>)
    requires (forall v :: Known(cs, orphans, v) ==> v in u) && NoneTwice(u, tx) && vote in u
    requires tx.hash in cs && forall o :: o in cs[tx.hash].locks ==> o in tx.vin
    ensures vote.outpoint in cs[tx.hash].locks ==> !Doubled(cs, vote, tx.hash, cs.Keys)
    ensures vote.txHash != tx.hash ==> AfterVote(cs, vote, tx.hash) == cs[tx.hash]
  {
    if vote.outpoint in cs[tx.hash].locks && Doubled(cs, vote, tx.hash, cs.Keys) {
      if vote.txHash == tx.hash {
        var x :| x in cs && x != tx.hash && cs[x].HasVoted(vote.outpoint, vote.masternode);
        assert vote == Vote(tx.hash, vote.outpoint, vote.masternode);
        assert Known(cs, orphans, Vote(x, vote.outpoint, vote.masternode));
      } else {
        assert Known(cs, orphans, Vote(tx.hash, vote.outpoint, vote.masternode));
      }
      assert false;
    }
  }

  /** A vote message. */
  method VoteStep(node: Node, vote: Vote, isValid: bool, env: Env, tx: Tx, ghost seen: set<Vote>, ghost u: iset<Vote>, t0: int)
    requires node.Valid() && (isValid ==> vote.masternode in node.quorum(vote.outpoint))
    requires Following(node.mapTxLockCandidates, node.mapTxLockVotesOrphan, node.mapLockedOutpoints, tx, node.required, seen, u, t0)
    requires NoneTwice(u, tx) && (isValid ==> vote in u) && tx.vin != []
    requires t0 <= env.nNow <= t0 + 15 && Unopposed(env, tx)
    modifies node
    ensures node.Valid()
    ensures Following(node.mapTxLockCandidates, node.mapTxLockVotesOrphan, node.mapLockedOutpoints, tx, node.required,
                      if isValid then seen + {vote} else seen, u, t0)
    ensures old(HasRequest(node.mapTxLockCandidates, tx.hash)) ==> HasRequest(node.mapTxLockCandidates, tx.hash)
  {
    hide VotingOk, Majority;
    ghost var cs, orphans, locked := node.mapTxLockCandidates, node.mapTxLockVotesOrphan, node.mapLockedOutpoints;
    var ok := node.ProcessNewTxLockVote(vote, isValid, env);
    if isValid {
      if !HasRequest(cs, vote.txHash) {
        Waits(cs, orphans, locked, tx, node.required, seen, u, t0, vote, env.nNow);
      } else if cs[vote.txHash].IsTimedOut(env.nNow) {
        assert vote.txHash != tx.hash;
      } else {
        Counts(cs, node.mapTxLockCandidates, orphans, locked, node.mapLockedOutpoints, tx, node.required, seen, u, t0, vote, ok, env);
      }
    }
  }

  /** A vote without a request waits among the orphans. */
  lemma Waits(cs: Candidates, orphans: set<Vote>, locked: map<OutPoint, Hash>, tx: Tx, required: nat,
              seen: set<Vote>, u: iset<Vote>, t0: int, vote: Vote, nNow: int)
    requires Following(cs, orphans, locked, tx, required, seen, u, t0) && vote in u
    requires !HasRequest(cs, vote.txHash) && nNow >= t0
    ensures var cs' := if vote.txHash in cs then cs else cs[vote.txHash := Candidate(None, map[], nNow)];
            Following(cs', orphans + {vote}, locked, tx, required, seen + {vote}, u, t0)
  {
    var cs' := if vote.txHash in cs then cs else cs[vote.txHash := Candidate(None, map[], nNow)];
    forall v | Known(cs', orphans + {vote}, v) ensures v in u {
      assert Known(cs, orphans, v) || v == vote;
    }
  }

  /** A timely vote for a known request is counted. */
  lemma Counts(cs: Candidates, cs': Candidates, orphans: set<Vote>, locked: map<OutPoint, Hash>, locked': map<OutPoint, Hash>,
               tx: Tx, required: nat, seen: set<Vote>, u: iset<Vote>, t0: int, vote: Vote, ok: bool, env: Env)
    requires Following(cs, orphans, locked, tx, required, seen, u, t0) && NoneTwice(u, tx) && vote in u && tx.vin != []
    requires HasRequest(cs, vote.txHash) && cs'.Keys == cs.Keys && forall g :: g in cs ==> cs'[g] == AfterVote(cs, vote, g)
    requires LocksKept(locked, locked') && Unopposed(env, tx)
    requires ok <==> vote.outpoint in cs[vote.txHash].locks && !cs[vote.txHash].HasVoted(vote.outpoint, vote.masternode)
    requires if ok then IsFinalised(locked, locked', cs'[vote.txHash], vote.txHash, required, env) else locked' == locked
    ensures Following(cs', orphans, locked', tx, required, seen + {vote}, u, t0)
  {
    hide AfterVote;
    forall v | Known(cs', orphans, v) ensures v in u {
      if v.txHash in cs { AfterVoteShape(cs, vote, v.txHash); }
      assert Known(cs, orphans, v) || v == vote;
    }
    if tx.hash in cs { AfterVoteShape(cs, vote, tx.hash); }
    if HasRequest(cs, tx.hash) {
      VoteElsewhere(cs, orphans, vote, tx, u);
      if vote.txHash == tx.hash {
        VoteCounted(cs, vote, locked, locked', tx, required, seen, ok, env);
      }
    }
  }

  lemma VoteCounted(cs: Candidates, vote: Vote, locked: map<OutPoint, Hash>, locked': map<OutPoint, Hash>,
                    tx: Tx, required: nat, seen: set<Vote>, ok: bool, env: Env)
    requires vote.txHash == tx.hash && tx.hash in cs && tx.vin != [] && Counting(cs[tx.hash], locked, tx, required, seen)
    requires vote.outpoint in cs[tx.hash].locks ==> !Doubled(cs, vote, tx.hash, cs.Keys)
    requires Unopposed(env, tx)
    requires ok <==> vote.outpoint in cs[tx.hash].locks && !cs[tx.hash].HasVoted(vote.outpoint, vote.masternode)
    requires if ok then IsFinalised(locked, locked', AfterVote(cs, vote, tx.hash), tx.hash, required, env) else locked' == locked
    ensures Counting(AfterVote(cs, vote, tx.hash), locked', tx, required, seen + {vote})
  {
    var c, c' := cs[tx.hash], AfterVote(cs, vote, tx.hash);
    AfterVoteShape(cs, vote, tx.hash);
    forall v | v in seen + {vote} && v.txHash == tx.hash && v.outpoint in tx.vin ensures c'.HasVoted(v.outpoint, v.masternode) {
      assert v.outpoint in c.locks.Keys;
    }
    if ok {
      assert c' == WithVote(c, vote);
      if Enough(c', required) {
        EnoughIsFinal(c', tx, required, env, locked, locked');
      }
    } else {
      assert c' == c;
    }
  }

  /** A valid request alone: a candidate may come or be completed, without votes. */
  lemma CreatedKnown(cs: Candidates, orphans: set<Vote>, other: Tx, nNow: int, v: Vote)
    requires Known(Created(cs, other, nNow), orphans, v)
    ensures Known(cs, orphans, v)
  {
  }

  /** Counting the waiting votes adds no vote that was not known. */
  lemma OrphansKnown(cs: Candidates, cs1: Candidates, cs': Candidates, orphans: set<Vote>, u: iset<Vote>, other: Tx, nNow: int)
    requires (forall v :: Known(cs, orphans, v) ==> v in u) && cs1 == Created(cs, other, nNow)
    requires SameShape(cs1, cs') && OrphansCounted(cs1, cs', orphans, nNow)
    ensures forall v :: Known(cs', orphans, v) ==> v in u
  {
    forall v | Known(cs', orphans, v) ensures v in u {
      if v !in orphans {
        assert v.txHash in cs1.Keys;
        assert Known(cs1, orphans, v);
      }
      CreatedKnown(cs, orphans, other, nNow, v);
    }
  }

  /** A request of another transaction, or a repeated one, leaves the count for tx as it was. */
  lemma RequestElsewhere(cs: Candidates, cs': Candidates, orphans: set<Vote>, locked: map<OutPoint, Hash>,
                         locked': map<OutPoint, Hash>, tx: Tx, required: nat, seen: set<Vote>, u: iset<Vote>, nNow: int)
    requires HasRequest(cs, tx.hash) && Counting(cs[tx.hash], locked, tx, required, seen)
    requires forall v :: v in orphans && v.txHash == tx.hash ==> v in seen
    requires (forall v :: Known(cs', orphans, v) ==> v in u) && NoneTwice(u, tx)
    requires SameShape(cs, cs') && OrphansCounted(cs, cs', orphans, nNow) && MarksJustified(cs, cs', orphans, nNow)
    requires LocksKept(locked, locked')
    ensures HasRequest(cs', tx.hash) && Counting(cs'[tx.hash], locked', tx, required, seen)
  {
    var c, c' := cs[tx.hash], cs'[tx.hash];
    assert SameCandidate(c, c');
    forall o, m | o in c.locks ensures c'.HasVoted(o, m) <==> c.HasVoted(o, m) {
      var v := Vote(tx.hash, o, m);
      assert v.txHash in cs && v.outpoint == o && v.masternode == m;
      assert c'.HasVoted(v.outpoint, v.masternode) <==> c.HasVoted(v.outpoint, v.masternode) || (v in orphans && Countable(cs, v, nNow));
    }
    forall o | o in c'.locks ensures !c'.locks[o].attacked {
      NotContested(cs', orphans, tx, u, o, nNow);
      assert !Attacked(cs, tx.hash, o);
      assert !Attacked(cs', tx.hash, o);
    }
    SameCount(c, c', required);
  }

  /** The request of tx: the votes that waited are all counted. */
  lemma RequestArrives(cs: Candidates, cs1: Candidates, cs': Candidates, orphans: set<Vote>, locked: map<OutPoint, Hash>,
                       locked': map<OutPoint, Hash>, tx: Tx, required: nat, seen: set<Vote>, u: iset<Vote>, t0: int, env: Env)
    requires Following(cs, orphans, locked, tx, required, seen, u, t0) && !HasRequest(cs, tx.hash) && tx.vin != []
    requires cs1 == Created(cs, tx, env.nNow) && t0 <= env.nNow <= t0 + 15 && Unopposed(env, tx)
    requires (forall v :: Known(cs', orphans, v) ==> v in u) && NoneTwice(u, tx)
    requires SameShape(cs1, cs') && OrphansCounted(cs1, cs', orphans, env.nNow) && MarksJustified(cs1, cs', orphans, env.nNow)
    requires tx.hash in cs' && IsFinalised(locked, locked', cs'[tx.hash], tx.hash, required, env)
    ensures HasRequest(cs', tx.hash) && Counting(cs'[tx.hash], locked', tx, required, seen)
    ensures cs'[tx.hash].nTimeCreated >= t0
  {
    var c, c' := cs1[tx.hash], cs'[tx.hash];
    assert SameCandidate(c, c') && c.request == Some(tx) && c.locks.Keys == Inputs(tx);
    forall v | v in seen && v.txHash == tx.hash && v.outpoint in tx.vin ensures c'.HasVoted(v.outpoint, v.masternode) {
      assert v.outpoint in c.locks.Keys;
      assert v in orphans && Countable(cs1, v, env.nNow);
    }
    forall o | o in c'.locks ensures !c'.locks[o].attacked {
      NotContested(cs', orphans, tx, u, o, env.nNow);
      assert !Attacked(cs1, tx.hash, o);
      assert !Attacked(cs', tx.hash, o);
    }
    if Enough(c', required) {
      EnoughIsFinal(c', tx, required, env, locked, locked');
    }
  }

  /** A request message. */
  method RequestStep(node: Node, other: Tx, isValid: bool, env: Env, tx: Tx, ghost seen: set<Vote>, ghost u: iset<Vote>, t0: int)
    requires node.Valid() && (other.hash == tx.hash ==> other == tx)
    requires Following(node.mapTxLockCandidates, node.mapTxLockVotesOrphan, node.mapLockedOutpoints, tx, node.required, seen, u, t0)
    requires NoneTwice(u, tx) && tx.vin != []
    requires t0 <= env.nNow <= t0 + 15 && Unopposed(env, tx)
    modifies node
    ensures node.Valid()
    ensures Following(node.mapTxLockCandidates, node.mapTxLockVotesOrphan, node.mapLockedOutpoints, tx, node.required, seen, u, t0)
    ensures old(HasRequest(node.mapTxLockCandidates, tx.hash)) || (isValid && other == tx) ==>
              HasRequest(node.mapTxLockCandidates, tx.hash)
  {
    hide VotingOk, Majority, OrphansCounted, MarksJustified, IsFinalised;
    ghost var cs, orphans, locked := node.mapTxLockCandidates, node.mapTxLockVotesOrphan, node.mapLockedOutpoints;
    ghost var cs1 := Created(cs, other, env.nNow);
    var ok := node.ProcessTxLockRequest(other, isValid, env);
    if ok {
      OrphansKnown(cs, cs1, node.mapTxLockCandidates, orphans, u, other, env.nNow);
      Requested(cs, cs1, node.mapTxLockCandidates, orphans, node.mapTxLockVotesOrphan, locked, node.mapLockedOutpoints,
                tx, other, node.required, seen, u, t0, env);
    } else if isValid {
      forall v | Known(cs1, orphans, v) ensures v in u {
        CreatedKnown(cs, orphans, other, env.nNow, v);
      }
    }
  }

  lemma Requested(cs: Candidates, cs1: Candidates, cs': Candidates, orphans: set<Vote>, orphans': set<Vote>,
                  locked: map<OutPoint, Hash>, locked': map<OutPoint, Hash>, tx: Tx, other: Tx, required: nat,
                  seen: set<Vote>, u: iset<Vote>, t0: int, env: Env)
    requires Following(cs, orphans, locked, tx, required, seen, u, t0) && tx.vin != []
    requires other.hash == tx.hash ==> other == tx
    requires cs1 == Created(cs, other, env.nNow) && t0 <= env.nNow <= t0 + 15 && Unopposed(env, tx)
    requires (forall v :: Known(cs', orphans, v) ==> v in u) && NoneTwice(u, tx)
    requires SameShape(cs1, cs') && OrphansCounted(cs1, cs', orphans, env.nNow) && MarksJustified(cs1, cs', orphans, env.nNow)
    requires other.hash in cs' && IsFinalised(locked, locked', cs'[other.hash], other.hash, required, env)
    requires forall v :: v in orphans' <==> v in orphans && !NewlyCounted(cs1, v, env.nNow)
    requires LocksKept(locked, locked')
    ensures Following(cs', orphans', locked', tx, required, seen, u, t0)
    ensures HasRequest(cs, tx.hash) || other == tx ==> HasRequest(cs', tx.hash)
  {
    hide OrphansCounted, MarksJustified, IsFinalised, Counting;
    assert forall v :: Known(cs', orphans', v) ==> Known(cs', orphans, v);
    if HasRequest(cs, tx.hash) {
      assert cs1[tx.hash] == cs[tx.hash];
      RequestElsewhere(cs1, cs', orphans, locked, locked', tx, required, seen, u, env.nNow);
      assert SameCandidate(cs1[tx.hash], cs'[tx.hash]);
    } else if other == tx {
      RequestArrives(cs, cs1, cs', orphans, locked, locked', tx, required, seen, u, t0, env);
    } else if tx.hash in cs1 {
      assert cs1[tx.hash] == cs[tx.hash] && SameCandidate(cs1[tx.hash], cs'[tx.hash]);
    }
  }

  /** The masternodes that vote for h on o in some messages. */
  ghost function Voters(ops: seq<Op>, h: Hash, o: OutPoint): set<Masternode> {
    set v | v in Votes(ops) && v.txHash == h && v.outpoint == o :: v.masternode
  }

  /** The message comes within 15 seconds, finds nothing against tx and forgets no vote for it. */
  ghost predicate InTime(op: Op, tx: Tx, t0: int) {
    match op
    case VoteMessage(_, _, env) => t0 <= env.nNow <= t0 + 15 && Unopposed(env, tx)
    case Request(other, _, env) => t0 <= env.nNow <= t0 + 15 && Unopposed(env, tx) && (other.hash == tx.hash ==> other == tx)
    case VoteOn(_, _) => true
    case DropOrphans(votes, _) => forall v :: v in votes ==> v.txHash != tx.hash
  }

  /** Let a valid request for tx and, for each of its inputs, votes by enough masternodes that vote for nothing else
      there be among the messages of 15 seconds, in any order and with anything else between them. Then in the end all
      inputs of tx are locked to it. */
  method LocksInTime(node: Node, ops: seq<Op>, tx: Tx, t0: int)
    requires node.Valid() && tx.vin != []
    requires tx.hash !in node.mapTxLockCandidates && forall v :: v in node.mapTxLockVotesOrphan ==> v.txHash != tx.hash
    requires forall i :: 0 <= i < |ops| ==> Honest(ops[i], node.quorum) && InTime(ops[i], tx, t0)
    requires NoneTwice(AllVotes(node.mapTxLockCandidates, node.mapTxLockVotesOrphan, ops), tx)
    requires exists i :: 0 <= i < |ops| && ops[i].Request? && ops[i].isValid && ops[i].tx == tx
    requires forall o :: o in tx.vin ==> |Voters(ops, tx.hash, o)| >= node.required
    modifies node
    ensures node.Valid()
    ensures forall o :: o in tx.vin ==> Lookup(node.mapLockedOutpoints, o) == Some(tx.hash)
  {
    hide VotingOk, Majority, NoneTwice, Following;
    ghost var u := AllVotes(node.mapTxLockCandidates, node.mapTxLockVotesOrphan, ops);
    Starts(node.mapTxLockCandidates, node.mapTxLockVotesOrphan, node.mapLockedOutpoints, tx, node.required, u, t0);
    assert Votes(ops[..0]) == {};
    for i := 0 to |ops|
      invariant node.Valid()
      invariant Following(node.mapTxLockCandidates, node.mapTxLockVotesOrphan, node.mapLockedOutpoints, tx, node.required,
                          Votes(ops[..i]), u, t0)
      invariant (exists j :: 0 <= j < i && ops[j].Request? && ops[j].isValid && ops[j].tx == tx) ==>
                  HasRequest(node.mapTxLockCandidates, tx.hash)
    {
      VotesNext(ops, i);
      assert Honest(ops[i], node.quorum) && InTime(ops[i], tx, t0);
      match ops[i] {
        case VoteMessage(vote, isValid, env) =>
          VoteStep(node, vote, isValid, env, tx, Votes(ops[..i]), u, t0);
        case Request(other, isValid, env) =>
          RequestStep(node, other, isValid, env, tx, Votes(ops[..i]), u, t0);
        case VoteOn(h, env) =>
          ghost var locked := node.mapLockedOutpoints;
          node.VoteOn(h, env);
          FollowsOn(node.mapTxLockCandidates, node.mapTxLockVotesOrphan, node.mapTxLockVotesOrphan, locked,
                    node.mapLockedOutpoints, tx, node.required, Votes(ops[..i]), u, t0);
        case DropOrphans(votes, masternodes) =>
          ghost var orphans := node.mapTxLockVotesOrphan;
          node.mapTxLockVotesOrphan := node.mapTxLockVotesOrphan - votes;
          node.mapMasternodeOrphanVotes := node.mapMasternodeOrphanVotes - masternodes;
          FollowsOn(node.mapTxLockCandidates, orphans, node.mapTxLockVotesOrphan, node.mapLockedOutpoints,
                    node.mapLockedOutpoints, tx, node.required, Votes(ops[..i]), u, t0);
      }
    }
    assert ops[..|ops|] == ops;
    AllCounted(node.mapTxLockCandidates, node.mapTxLockVotesOrphan, node.mapLockedOutpoints, tx, node.required, ops, u, t0);
  }

  lemma Starts(cs: Candidates, orphans: set<Vote>, locked: map<OutPoint, Hash>, tx: Tx, required: nat, u: iset<Vote>, t0: int)
    requires tx.hash !in cs && forall v :: v in orphans ==> v.txHash != tx.hash
    requires forall v :: Known(cs, orphans, v) ==> v in u
    ensures Following(cs, orphans, locked, tx, required, {}, u, t0)
  {
  }

  lemma VotesNext(ops: seq<Op>, i: nat)
    requires i < |ops|
    ensures Votes(ops[..i + 1]) ==
              if ops[i].VoteMessage? && ops[i].isValid then Votes(ops[..i]) + {ops[i].vote} else Votes(ops[..i])
    ensures ops[i].VoteMessage? && ops[i].isValid ==> ops[i].vote in Votes(ops)
  {
    var a, b := ops[..i], ops[..i + 1];
    assert b == a + [ops[i]];
    forall v ensures v in Votes(b) <==> v in Votes(a) || (ops[i].VoteMessage? && ops[i].isValid && v == ops[i].vote) {
      if v in Votes(a) {
        var j :| 0 <= j < |a| && a[j].VoteMessage? && a[j].isValid && a[j].vote == v;
        assert b[j] == a[j];
      }
      if v in Votes(b) {
        var j :| 0 <= j < |b| && b[j].VoteMessage? && b[j].isValid && b[j].vote == v;
        if j < i { assert a[j] == b[j]; }
      }
      if ops[i].VoteMessage? && ops[i].isValid && v == ops[i].vote {
        assert b[i].vote == v;
      }
    }
  }

  /** More locks, or fewer waiting votes for others, change nothing. */
  lemma FollowsOn(cs: Candidates, orphans: set<Vote>, orphans': set<Vote>, locked: map<OutPoint, Hash>,
                  locked': map<OutPoint, Hash>, tx: Tx, required: nat, seen: set<Vote>, u: iset<Vote>, t0: int)
    requires Following(cs, orphans, locked, tx, required, seen, u, t0) && LocksKept(locked, locked')
    requires orphans' <= orphans && forall v :: v in orphans && v.txHash == tx.hash ==> v in orphans'
    ensures Following(cs, orphans', locked', tx, required, seen, u, t0)
  {
    assert forall v :: Known(cs, orphans', v) ==> Known(cs, orphans, v);
  }

  /** With the request known and enough voters on every input, the count is full. */
  lemma AllCounted(cs: Candidates, orphans: set<Vote>, locked: map<OutPoint, Hash>, tx: Tx, required: nat, ops: seq<Op>,
                   u: iset<Vote>, t0: int)
    requires Following(cs, orphans, locked, tx, required, Votes(ops), u, t0) && HasRequest(cs, tx.hash)
    requires forall o :: o in tx.vin ==> |Voters(ops, tx.hash, o)| >= required
    ensures forall o :: o in tx.vin ==> Lookup(locked, o) == Some(tx.hash)
  {
    var c := cs[tx.hash];
    forall o | o in c.locks ensures |c.locks[o].votes| >= required {
      assert o in Inputs(tx);
      forall m | m in Voters(ops, tx.hash, o) ensures m in c.locks[o].votes.Keys {
        var v :| v in Votes(ops) && v.txHash == tx.hash && v.outpoint == o && v.masternode == m;
        assert c.HasVoted(v.outpoint, v.masternode);
      }
      SubsetSize(Voters(ops, tx.hash, o), c.locks[o].votes.Keys);
      assert |c.locks[o].votes| == |c.locks[o].votes.Keys|;
    }
    assert Enough(c, required);
  }
}

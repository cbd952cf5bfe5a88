/** The candidate bookkeeping of consensus/vbft/block_pool.go and the commit
    quorum of consensus/vbft/node_utils.go.

    A candidate is reached through the pool's map only, so it is kept as a value
    that the pool replaces. Go's map iteration order is an arbitrary choice. */
module BlockPool {
  import opened Hashing

  /** A peer index. The largest 32-bit number is no peer; the source returns it
      for "none". */
  type Peer = p: nat | p < 0xFFFF_FFFF

  datatype Proposal = Proposal(blockNum: nat, proposer: Peer, sig: seq<byte>)

  datatype EndorseSig = EndorseSig(proposer: Peer, signature: seq<byte>, forEmpty: bool)

  datatype Commit = Commit(blockNum: nat, committer: Peer, proposer: Peer, blockHash: Hash,
                           endorsersSig: map<Peer, seq<byte>>, committerSig: seq<byte>, forEmpty: bool)

  datatype Candidate = Candidate(proposals: seq<Proposal>, commits: seq<Commit>, sigs: map<Peer, seq<EndorseSig>>,
                                 committed: Option<Proposal>, committedEmpty: Option<Proposal>)

  const NEW_CANDIDATE: Candidate := Candidate([], [], map[], None, None)

  datatype Outcome = Ok | DupProposal | DupCommit | NoCandidate | HadCommitted

  // --- what each message does to a candidate

  predicate HasEmpty(l: seq<EndorseSig>) {
    exists i :: 0 <= i < |l| && l[i].forEmpty
  }

  predicate HasProposer(l: seq<EndorseSig>, p: Peer) {
    exists i :: 0 <= i < |l| && l[i].proposer == p
  }

  /** An endorser's list after one more endorsement: nothing follows an empty
      endorsement, and no proposer is endorsed twice. */
  function Extended(l: seq<EndorseSig>, s: EndorseSig): seq<EndorseSig> {
    if HasEmpty(l) then l
    else if s.forEmpty then l + [s]
    else if HasProposer(l, s.proposer) then l
    else l + [s]
  }

  /** A commitment replaces what its committer endorsed before. */
  function AddEndorsement(sigs: map<Peer, seq<EndorseSig>>, e: Peer, s: EndorseSig, commitment: bool)
    : map<Peer, seq<EndorseSig>>
  {
    if e in sigs && !commitment then sigs[e := Extended(sigs[e], s)] else sigs[e := [s]]
  }

  function AddProposal(c: Candidate, msg: Proposal): (Candidate, Outcome) {
    if exists i :: 0 <= i < |c.proposals| && c.proposals[i].proposer == msg.proposer then
      (c, if exists i :: 0 <= i < |c.proposals| && c.proposals[i].proposer == msg.proposer &&
          c.proposals[i].sig == msg.sig then Ok else DupProposal)
    else
      var s := EndorseSig(msg.proposer, msg.sig, false);
      (c.(proposals := c.proposals + [msg], sigs := AddEndorsement(c.sigs, msg.proposer, s, false)), Ok)
  }

  /** The endorsements carried by a commit, each added to its own endorser. */
  function AddCarried(sigs: map<Peer, seq<EndorseSig>>, msg: Commit): map<Peer, seq<EndorseSig>> {
    map e | e in sigs.Keys + msg.endorsersSig.Keys ::
      if e in msg.endorsersSig.Keys then
        var s := EndorseSig(msg.proposer, msg.endorsersSig[e], msg.forEmpty);
        if e in sigs then Extended(sigs[e], s) else [s]
      else sigs[e]
  }

  function AddCommit(c: Candidate, msg: Commit): (Candidate, Outcome) {
    if exists i :: 0 <= i < |c.commits| && c.commits[i].committer == msg.committer then
      (c, if exists i :: 0 <= i < |c.commits| && c.commits[i].committer == msg.committer &&
          c.commits[i].blockHash == msg.blockHash then Ok else DupCommit)
    else
      var own := EndorseSig(msg.proposer, msg.committerSig, msg.forEmpty);
      (c.(commits := c.commits + [msg], sigs := AddEndorsement(AddCarried(c.sigs, msg), msg.committer, own, true)), Ok)
  }

  /** A proposer's second proposal changes nothing, and is an error if it is signed
      differently. */
  lemma SecondProposal(c: Candidate, msg: Proposal, i: nat)
    requires Orderly(c) && i < |c.proposals| && c.proposals[i].proposer == msg.proposer
    ensures AddProposal(c, msg) == (c, if c.proposals[i].sig == msg.sig then Ok else DupProposal)
  {
  }

  /** A committer's second commit changes nothing, and is an error if it is for a
      different block. */
  lemma SecondCommit(c: Candidate, msg: Commit, i: nat)
    requires Orderly(c) && i < |c.commits| && c.commits[i].committer == msg.committer
    ensures AddCommit(c, msg) == (c, if c.commits[i].blockHash == msg.blockHash then Ok else DupCommit)
  {
  }

  // --- the invariant of a candidate

  /** Nonempty; an empty endorsement comes last; no proposer twice. */
  ghost predicate OrderlySigs(l: seq<EndorseSig>) {
    && l != []
    && (forall i :: 0 <= i < |l| - 1 ==> !l[i].forEmpty)
    && (forall i, j :: 0 <= i < j < |l| && !l[j].forEmpty ==> l[i].proposer != l[j].proposer)
  }

  /** A recorded commit stays the first entry of its committer. */
  ghost predicate Recorded(c: Candidate, m: Commit) {
    && m.committer in c.sigs && c.sigs[m.committer] != []
    && c.sigs[m.committer][0] == EndorseSig(m.proposer, m.committerSig, m.forEmpty)
  }

  ghost predicate Orderly(c: Candidate) {
    && (forall i, j :: 0 <= i < j < |c.proposals| ==> c.proposals[i].proposer != c.proposals[j].proposer)
    && (forall i, j :: 0 <= i < j < |c.commits| ==> c.commits[i].committer != c.commits[j].committer)
    && (forall e :: e in c.sigs ==> OrderlySigs(c.sigs[e]))
    && (forall i :: 0 <= i < |c.commits| ==> Recorded(c, c.commits[i]))
    && !(c.committed.Some? && c.committedEmpty.Some?)
  }

  lemma ExtendedIsOrderly(l: seq<EndorseSig>, s: EndorseSig)
    requires OrderlySigs(l)
    ensures OrderlySigs(Extended(l, s)) && l <= Extended(l, s)
  {
  }

  lemma ProposalKeepsOrderly(c: Candidate, msg: Proposal)
    requires Orderly(c)
    ensures Orderly(AddProposal(c, msg).0)
  {
    var s := EndorseSig(msg.proposer, msg.sig, false);
    if msg.proposer in c.sigs {
      ExtendedIsOrderly(c.sigs[msg.proposer], s);
    }
  }

  lemma EndorsementKeepsOrderly(c: Candidate, e: Peer, s: EndorseSig)
    requires Orderly(c)
    ensures Orderly(c.(sigs := AddEndorsement(c.sigs, e, s, false)))
  {
    if e in c.sigs {
      ExtendedIsOrderly(c.sigs[e], s);
    }
  }

  lemma CarriedKeepsOrderly(c: Candidate, msg: Commit)
    requires Orderly(c)
    ensures Orderly(c.(sigs := AddCarried(c.sigs, msg)))
  {
    forall e | e in c.sigs && e in msg.endorsersSig.Keys {
      ExtendedIsOrderly(c.sigs[e], EndorseSig(msg.proposer, msg.endorsersSig[e], msg.forEmpty));
    }
  }

  lemma CommitKeepsOrderly(c: Candidate, msg: Commit)
    requires Orderly(c)
    ensures Orderly(AddCommit(c, msg).0)
  {
    CarriedKeepsOrderly(c, msg);
  }

  // --- counting endorsements

  predicate Backs(l: seq<EndorseSig>, p: Peer) {
    exists i :: 0 <= i < |l| && l[i].proposer == p && !l[i].forEmpty
  }

  /** The endorsers of a proposer's full block. */
  ghost function Backers(sigs: map<Peer, seq<EndorseSig>>, p: Peer): set<Peer> {
    set e | e in sigs && Backs(sigs[e], p)
  }

  /** The endorsers of an empty block. */
  ghost function EmptyBackers(sigs: map<Peer, seq<EndorseSig>>): set<Peer> {
    set e | e in sigs && HasEmpty(sigs[e])
  }

  // --- what is recorded

  lemma BacksExtended(l: seq<EndorseSig>, s: EndorseSig, p: Peer)
    ensures Backs(Extended(l, s), p) <==> Backs(l, p) || (s.proposer == p && !s.forEmpty && !HasEmpty(l))
    ensures HasEmpty(Extended(l, s)) <==> HasEmpty(l) || s.forEmpty
  {
    var a := l + [s];
    BacksSnoc(a, |l|, p);
    assert a[..|l|] == l && a[..|l| + 1] == a;
    assert s.forEmpty ==> a[|l|].forEmpty;
    if HasEmpty(l) {
      var i :| 0 <= i < |l| && l[i].forEmpty;
      assert a[i].forEmpty;
    }
    if !HasEmpty(l) && HasProposer(l, s.proposer) {
      var i :| 0 <= i < |l| && l[i].proposer == s.proposer;
      assert Backs(l, s.proposer);
    }
  }

  lemma OneEntry(s: EndorseSig, p: Peer)
    ensures Backs([s], p) <==> s.proposer == p && !s.forEmpty
    ensures HasEmpty([s]) <==> s.forEmpty
  {
    assert [s][0] == s;
  }

  /** A full endorsement is recorded for its proposer unless the endorser had
      endorsed empty; an empty one always counts; nobody else is touched. */
  lemma EndorsementIsRecorded(sigs: map<Peer, seq<EndorseSig>>, e: Peer, s: EndorseSig, p: Peer)
    ensures Backers(AddEndorsement(sigs, e, s, false), p) ==
            if s.proposer == p && !s.forEmpty && e !in EmptyBackers(sigs) then Backers(sigs, p) + {e}
            else Backers(sigs, p)
    ensures EmptyBackers(AddEndorsement(sigs, e, s, false)) ==
            if s.forEmpty then EmptyBackers(sigs) + {e} else EmptyBackers(sigs)
  {
    if e in sigs {
      BacksExtended(sigs[e], s, p);
    } else {
      OneEntry(s, p);
    }
    hide Backs, HasEmpty, Extended;
  }

  /** A commitment counts in place of all that its committer endorsed before. */
  lemma CommitmentIsRecorded(sigs: map<Peer, seq<EndorseSig>>, e: Peer, s: EndorseSig, p: Peer)
    ensures Backers(AddEndorsement(sigs, e, s, true), p) ==
            if s.proposer == p && !s.forEmpty then Backers(sigs, p) + {e} else Backers(sigs, p) - {e}
    ensures EmptyBackers(AddEndorsement(sigs, e, s, true)) ==
            if s.forEmpty then EmptyBackers(sigs) + {e} else EmptyBackers(sigs) - {e}
  {
    OneEntry(s, p);
    hide Backs, HasEmpty;
  }

  /** The endorsements that a commit carries are recorded like endorsements. */
  lemma CarriedAreRecorded(sigs: map<Peer, seq<EndorseSig>>, m: Commit, p: Peer)
    ensures Backers(AddCarried(sigs, m), p) ==
            if m.proposer == p && !m.forEmpty then Backers(sigs, p) + (m.endorsersSig.Keys - EmptyBackers(sigs))
            else Backers(sigs, p)
    ensures EmptyBackers(AddCarried(sigs, m)) ==
            if m.forEmpty then EmptyBackers(sigs) + m.endorsersSig.Keys else EmptyBackers(sigs)
  {
    hide Backs, HasEmpty, Extended;
    forall e | e in m.endorsersSig.Keys
      ensures e in AddCarried(sigs, m) && (Backs(AddCarried(sigs, m)[e], p) <==>
                (e in sigs && Backs(sigs[e], p)) || (m.proposer == p && !m.forEmpty && e !in EmptyBackers(sigs)))
      ensures HasEmpty(AddCarried(sigs, m)[e]) <==> (e in sigs && HasEmpty(sigs[e])) || m.forEmpty
    {
      CarriedEntry(sigs, m, e, p);
    }
  }

  lemma CarriedEntry(sigs: map<Peer, seq<EndorseSig>>, m: Commit, e: Peer, p: Peer)
    requires e in m.endorsersSig.Keys
    ensures e in AddCarried(sigs, m)
    ensures Backs(AddCarried(sigs, m)[e], p) <==>
            (e in sigs && Backs(sigs[e], p)) || (m.proposer == p && !m.forEmpty && e !in EmptyBackers(sigs))
    ensures HasEmpty(AddCarried(sigs, m)[e]) <==> (e in sigs && HasEmpty(sigs[e])) || m.forEmpty
  {
    var s := EndorseSig(m.proposer, m.endorsersSig[e], m.forEmpty);
    if e in sigs {
      BacksExtended(sigs[e], s, p);
    } else {
      OneEntry(s, p);
    }
    hide Backs, HasEmpty, Extended;
  }

  ghost predicate EndorsedEmpty(l: seq<EndorseSig>, p: Peer) {
    exists i :: 0 <= i < |l| && l[i].forEmpty && l[i].proposer == p
  }

  function Count(counts: map<Peer, nat>, p: Peer): nat {
    if p in counts then counts[p] else 0
  }

  /** The counters agree with the lists seen so far. */
  ghost predicate Counted(counts: map<Peer, nat>, emptyCount: nat, view: map<Peer, seq<EndorseSig>>) {
    && (forall p :: Count(counts, p) == |Backers(view, p)|)
    && emptyCount == |EmptyBackers(view)|
  }

  /** part shows some of the endorsers of full, each with a prefix of the list. */
  ghost predicate PartOf(part: map<Peer, seq<EndorseSig>>, full: map<Peer, seq<EndorseSig>>) {
    forall e :: e in part ==> e in full && part[e] <= full[e]
  }

  /** Seeing one more entry of an orderly list moves exactly one counter by one:
      an endorser counts once for empty ... */
  lemma CountEmpty(counts: map<Peer, nat>, emptyCount: nat, view: map<Peer, seq<EndorseSig>>, e: Peer,
                   l: seq<EndorseSig>, i: nat)
    requires OrderlySigs(l) && i < |l| && Counted(counts, emptyCount, view)
    requires e in view && view[e] == l[..i] && l[i].forEmpty
    ensures Counted(counts, emptyCount + 1, view[e := l[..i + 1]])
  {
    hide EmptyBackers;
    var view' := view[e := l[..i + 1]];
    FirstEmpty(view, e, l, i);
    forall p
      ensures Backers(view', p) == Backers(view, p)
    {
      assert Backs(l[..i + 1], p) <==> Backs(l[..i], p) by { BacksSnoc(l, i, p); }
    }
  }

  lemma FirstEmpty(view: map<Peer, seq<EndorseSig>>, e: Peer, l: seq<EndorseSig>, i: nat)
    requires OrderlySigs(l) && i < |l| && e in view && view[e] == l[..i] && l[i].forEmpty
    ensures e !in EmptyBackers(view) && EmptyBackers(view[e := l[..i + 1]]) == EmptyBackers(view) + {e}
  {
    assert HasEmpty(l[..i + 1]) by { assert l[..i + 1][i].forEmpty; }
    assert !HasEmpty(l[..i]);
    hide HasEmpty;
  }

  /** ... and once for each proposer. */
  lemma CountBacked(counts: map<Peer, nat>, emptyCount: nat, view: map<Peer, seq<EndorseSig>>, e: Peer,
                    l: seq<EndorseSig>, i: nat)
    requires OrderlySigs(l) && i < |l| && Counted(counts, emptyCount, view)
    requires e in view && view[e] == l[..i] && !l[i].forEmpty
    ensures Counted(counts[l[i].proposer := Count(counts, l[i].proposer) + 1], emptyCount, view[e := l[..i + 1]])
  {
    var view' := view[e := l[..i + 1]];
    var q := l[i].proposer;
    assert EmptyBackers(view') == EmptyBackers(view) by {
      assert l[..i + 1] == l[..i] + [l[i]];
    }
    assert e !in Backers(view, q);
    assert Backers(view', q) == Backers(view, q) + {e} by { BacksSnoc(l, i, q); }
    forall p | p != q
      ensures Backers(view', p) == Backers(view, p)
    {
      BacksSnoc(l, i, p);
    }
  }

  lemma BacksSnoc(l: seq<EndorseSig>, i: nat, p: Peer)
    requires i < |l|
    ensures Backs(l[..i + 1], p) <==> Backs(l[..i], p) || (p == l[i].proposer && !l[i].forEmpty)
  {
    var a := l[..i + 1];
    if Backs(l[..i], p) {
      var j :| 0 <= j < i && l[..i][j].proposer == p && !l[..i][j].forEmpty;
      assert a[j].proposer == p;
    }
    if p == l[i].proposer && !l[i].forEmpty {
      assert a[i].proposer == p;
    }
  }

  /** Taking up a new endorser, none of whose entries was seen yet. */
  lemma CountNewEndorser(counts: map<Peer, nat>, emptyCount: nat, view: map<Peer, seq<EndorseSig>>, e: Peer)
    requires Counted(counts, emptyCount, view) && e !in view
    ensures Counted(counts, emptyCount, view[e := []])
  {
    var view' := view[e := []];
    assert EmptyBackers(view') == EmptyBackers(view);
    forall p
      ensures Backers(view', p) == Backers(view, p)
    {
    }
  }

  lemma PartsCountLess(part: map<Peer, seq<EndorseSig>>, full: map<Peer, seq<EndorseSig>>, p: Peer)
    requires PartOf(part, full)
    ensures |Backers(part, p)| <= |Backers(full, p)|
    ensures |EmptyBackers(part)| <= |EmptyBackers(full)|
  {
    SubsetSize(Backers(part, p), Backers(full, p));
    SubsetSize(EmptyBackers(part), EmptyBackers(full));
  }

  /** More than bound endorsers back one proposer, or endorsed empty. */
  ghost predicate EndorseQuorum(sigs: map<Peer, seq<EndorseSig>>, bound: nat) {
    (exists p :: |Backers(sigs, p)| > bound) || |EmptyBackers(sigs)| > bound
  }

  lemma FewEndorsers(sigs: map<Peer, seq<EndorseSig>>, bound: nat)
    requires |sigs| <= bound
    ensures !EndorseQuorum(sigs, bound)
  {
    SubsetSize(EmptyBackers(sigs), sigs.Keys);
    forall p
      ensures |Backers(sigs, p)| <= bound
    {
      SubsetSize(Backers(sigs, p), sigs.Keys);
    }
  }

  ghost predicate AllWithin(counts: map<Peer, nat>, bound: nat) {
    forall p :: Count(counts, p) <= bound
  }

  lemma RaiseOne(counts: map<Peer, nat>, p: Peer, bound: nat)
    requires AllWithin(counts, bound)
    ensures Count(counts, p) < bound ==> AllWithin(counts[p := Count(counts, p) + 1], bound)
  {
    var counts' := counts[p := Count(counts, p) + 1];
    forall q
      ensures q != p ==> Count(counts', q) == Count(counts, q)
    {
    }
  }

  datatype Endorsed = NotYet | Done(proposer: Peer, forEmpty: bool)

  datatype Scan = Going | EmptyQuorum(proposer: Peer) | FullQuorum(proposer: Peer)

  /** Counts the endorsements of one endorser, stopping at a quorum. */
  method CountEndorser(eSigs: seq<EndorseSig>, C: nat, counts0: map<Peer, nat>, emptyCount0: nat,
                       ghost e: Peer, ghost view: map<Peer, seq<EndorseSig>>, ghost sigs: map<Peer, seq<EndorseSig>>)
    returns (counts: map<Peer, nat>, emptyCount: nat, scan: Scan)
    requires OrderlySigs(eSigs) && e !in view && PartOf(view[e := eSigs], sigs)
    requires Counted(counts0, emptyCount0, view) && emptyCount0 <= C && AllWithin(counts0, C)
    ensures scan.Going? ==> Counted(counts, emptyCount, view[e := eSigs]) && emptyCount <= C && AllWithin(counts, C)
    ensures scan.EmptyQuorum? ==>
        |EmptyBackers(sigs)| > C && EndorseQuorum(sigs, C) && EndorsedEmpty(eSigs, scan.proposer)
    ensures scan.FullQuorum? ==> |Backers(sigs, scan.proposer)| > C && EndorseQuorum(sigs, C)
  {
    hide Counted, OrderlySigs, EndorseQuorum, Backers, EmptyBackers;
    counts, emptyCount := counts0, emptyCount0;
    CountNewEndorser(counts, emptyCount, view, e);
    for i := 0 to |eSigs|
      invariant Counted(counts, emptyCount, view[e := eSigs[..i]]) && emptyCount <= C && AllWithin(counts, C)
    {
      ghost var v, v' := view[e := eSigs[..i]], view[e := eSigs[..i + 1]];
      assert v[e := eSigs[..i + 1]] == v';
      if eSigs[i].forEmpty {
        CountEmpty(counts, emptyCount, v, e, eSigs, i);
        emptyCount := emptyCount + 1;
        if emptyCount > C {
          QuorumFound(counts, emptyCount, v', sigs, C, eSigs[i].proposer);
          return counts, emptyCount, EmptyQuorum(eSigs[i].proposer);
        }
      } else {
        CountBacked(counts, emptyCount, v, e, eSigs, i);
        var p := eSigs[i].proposer;
        RaiseOne(counts, p, C);
        counts := counts[p := Count(counts, p) + 1];
        if counts[p] > C {
          QuorumFound(counts, emptyCount, v', sigs, C, p);
          return counts, emptyCount, FullQuorum(p);
        }
      }
    }
    assert eSigs[..|eSigs|] == eSigs;
    scan := Going;
  }

  /** The endorse check. Which quorum is reported may depend on the order of the
      map; whether one is reported does not. */
  method CheckEndorsements(sigs: map<Peer, seq<EndorseSig>>, C: nat) returns (r: Endorsed)
    requires forall e :: e in sigs ==> OrderlySigs(sigs[e])
    ensures r != NotYet <==> EndorseQuorum(sigs, C)
    ensures r.Done? && !r.forEmpty ==> |Backers(sigs, r.proposer)| > C
    ensures r.Done? && r.forEmpty ==>
              |EmptyBackers(sigs)| > C && exists e :: e in sigs && EndorsedEmpty(sigs[e], r.proposer)
  {
    if |sigs| < C + 1 {
      FewEndorsers(sigs, C);
      return NotYet;
    }
    hide Backers, EmptyBackers, OrderlySigs, EndorseQuorum, Counted;
    var counts: map<Peer, nat>, emptyCount: nat := map[], 0;
    var todo := sigs.Keys;
    NothingCounted();
    while todo != {}
      invariant todo <= sigs.Keys && Counted(counts, emptyCount, sigs - todo) && emptyCount <= C && AllWithin(counts, C)
    {
      var e :| e in todo;
      assert (sigs - todo)[e := sigs[e]] == sigs - (todo - {e});
      var scan;
      counts, emptyCount, scan := CountEndorser(sigs[e], C, counts, emptyCount, e, sigs - todo, sigs);
      match scan {
        case EmptyQuorum(p) => return Done(p, true);
        case FullQuorum(p) => return Done(p, false);
        case Going => todo := todo - {e};
      }
    }
    assert sigs - {} == sigs;
    NoQuorumFound(counts, emptyCount, sigs, C);
    return NotYet;
  }

  lemma NothingCounted()
    ensures Counted(map[], 0, map[])
  {
    assert EmptyBackers(map[]) == {};
    forall p
      ensures Backers(map[], p) == {}
    {
    }
  }

  lemma QuorumFound(counts: map<Peer, nat>, emptyCount: nat, view: map<Peer, seq<EndorseSig>>,
                    sigs: map<Peer, seq<EndorseSig>>, bound: nat, p: Peer)
    requires Counted(counts, emptyCount, view) && PartOf(view, sigs)
    ensures emptyCount > bound ==> |EmptyBackers(sigs)| > bound && EndorseQuorum(sigs, bound)
    ensures Count(counts, p) > bound ==> |Backers(sigs, p)| > bound && EndorseQuorum(sigs, bound)
  {
    PartsCountLess(view, sigs, p);
  }

  lemma NoQuorumFound(counts: map<Peer, nat>, emptyCount: nat, sigs: map<Peer, seq<EndorseSig>>, bound: nat)
    requires Counted(counts, emptyCount, sigs) && emptyCount <= bound && AllWithin(counts, bound)
    ensures !EndorseQuorum(sigs, bound)
    ensures forall p :: |Backers(sigs, p)| <= bound
  {
    forall p
      ensures |Backers(sigs, p)| <= bound
    {
      assert Count(counts, p) <= bound;
    }
  }

  // --- the commit quorum

  ghost function SignersOf(m: Commit, p: Peer): set<Peer> {
    if m.proposer == p then {m.committer} + m.endorsersSig.Keys else {}
  }

  /** Everyone whose signature the commits for p carry. */
  ghost function Signers(ms: seq<Commit>, p: Peer): set<Peer> {
    if ms == [] then {}
    else Signers(Init(ms), p) + SignersOf(Last(ms), p)
  }

  predicate Named(ms: seq<Commit>, p: Peer) {
    exists i :: 0 <= i < |ms| && ms[i].proposer == p
  }

  /** The commits for p carry, with the proposer, enough signatures. */
  ghost predicate CommitQuorum(ms: seq<Commit>, N: nat, p: Peer)
    requires N > 0
  {
    Named(ms, p) && |Signers(ms, p)| + 1 >= N - (N - 1) / 3
  }

  lemma {:induction false} SignersGrow(ms: seq<Commit>, i: nat, p: Peer)
    requires i <= |ms|
    ensures Signers(ms[..i], p) <= Signers(ms, p)
    decreases |ms|
  {
    if i == |ms| {
      assert ms[..i] == ms;
    } else {
      SignersGrow(Init(ms), i, p);
      assert Init(ms)[..i] == ms[..i];
    }
  }

  /** Later commits never undo a quorum. */
  lemma QuorumIsStable(ms: seq<Commit>, i: nat, N: nat, p: Peer)
    requires i <= |ms| && N > 0 && CommitQuorum(ms[..i], N, p)
    ensures CommitQuorum(ms, N, p)
  {
    SignersGrow(ms, i, p);
    SubsetSize(Signers(ms[..i], p), Signers(ms, p));
    var j :| 0 <= j < i && ms[..i][j].proposer == p;
    assert ms[j].proposer == p;
  }

  lemma SignersStep(ms: seq<Commit>, i: nat, p: Peer)
    requires i < |ms|
    ensures Signers(ms[..i + 1], p) == Signers(ms[..i], p) + SignersOf(ms[i], p)
    ensures Named(ms[..i + 1], p) <==> Named(ms[..i], p) || ms[i].proposer == p
  {
    var a := ms[..i + 1];
    assert Init(a) == ms[..i] && Last(a) == ms[i];
    if Named(ms[..i], p) {
      var j :| 0 <= j < i && ms[..i][j].proposer == p;
      assert a[j].proposer == p;
    }
    if ms[i].proposer == p {
      assert a[i].proposer == p;
    }
  }

  function SetAt(m: map<Peer, set<Peer>>, p: Peer): set<Peer> {
    if p in m then m[p] else {}
  }

  ghost predicate Tallied(signCount: map<Peer, set<Peer>>, ms: seq<Commit>) {
    forall p: Peer :: SetAt(signCount, p) == Signers(ms, p)
  }

  ghost predicate NoQuorum(ms: seq<Commit>, N: nat)
    requires N > 0
  {
    forall p: Peer :: !CommitQuorum(ms, N, p)
  }

  lemma TallyStep(signCount: map<Peer, set<Peer>>, ms: seq<Commit>, i: nat)
    requires i < |ms| && Tallied(signCount, ms[..i])
    ensures var c := ms[i];
            Tallied(signCount[c.proposer := SetAt(signCount, c.proposer) + {c.committer} + c.endorsersSig.Keys],
                    ms[..i + 1])
  {
    var c := ms[i];
    var signCount' := signCount[c.proposer := SetAt(signCount, c.proposer) + {c.committer} + c.endorsersSig.Keys];
    forall p: Peer
      ensures SetAt(signCount', p) == Signers(ms[..i + 1], p)
    {
      SignersStep(ms, i, p);
      assert SetAt(signCount, p) == Signers(ms[..i], p);
    }
  }

  /** A commit can complete a quorum for its own proposer only. */
  lemma QuorumStep(ms: seq<Commit>, i: nat, N: nat)
    requires i < |ms| && N > 0 && NoQuorum(ms[..i], N)
    ensures if |Signers(ms[..i + 1], ms[i].proposer)| + 1 >= N - (N - 1) / 3
            then CommitQuorum(ms[..i + 1], N, ms[i].proposer)
            else NoQuorum(ms[..i + 1], N)
  {
    var next := ms[..i + 1];
    forall p: Peer | p != ms[i].proposer
      ensures !CommitQuorum(next, N, p)
    {
      SignersStep(ms, i, p);
      assert !CommitQuorum(ms[..i], N, p);
    }
    SignersStep(ms, i, ms[i].proposer);
  }

  /** The number of commits for an empty block. */
  ghost function EmptyCommits(ms: seq<Commit>): nat {
    if ms == [] then 0 else EmptyCommits(Init(ms)) + (if Last(ms).forEmpty then 1 else 0)
  }

  lemma EmptyCommitsStep(ms: seq<Commit>, i: nat)
    requires i < |ms|
    ensures EmptyCommits(ms[..i + 1]) == EmptyCommits(ms[..i]) + (if ms[i].forEmpty then 1 else 0)
  {
    assert Init(ms[..i + 1]) == ms[..i];
  }

  /** The first i commits reach no quorum, commit i completes one for p. The
      verdict is for an empty block if more than C of these commits are. */
  ghost predicate Decides(ms: seq<Commit>, C: nat, N: nat, i: nat, p: Peer, forEmpty: bool)
    requires N > 0 && i < |ms|
  {
    && NoQuorum(ms[..i], N) && CommitQuorum(ms[..i + 1], N, p) && ms[i].proposer == p
    && (forEmpty <==> EmptyCommits(ms[..i + 1]) > C)
  }

  /** Reports the first proposer whose commits reach the quorum. Only the number
      of signers is used, so a signer's counter is kept as membership. */
  method GetCommitConsensus(commitMsgs: seq<Commit>, C0: nat, N: nat)
    returns (proposer: Option<Peer>, emptyCommit: bool)
    requires N > 0
    ensures proposer.Some? ==> CommitQuorum(commitMsgs, N, proposer.value)
    ensures proposer.Some? ==>
              exists i :: 0 <= i < |commitMsgs| && Decides(commitMsgs, C0, N, i, proposer.value, emptyCommit)
    ensures proposer.None? ==> NoQuorum(commitMsgs, N) && !emptyCommit
  {
    hide Signers, Named, CommitQuorum, NoQuorum, EmptyCommits;
    var emptyCommitCount, C := 0, C0;
    emptyCommit := false;
    var signCount: map<Peer, set<Peer>> := map[];
    NoSigners(N);
    for i := 0 to |commitMsgs|
      invariant emptyCommitCount == EmptyCommits(commitMsgs[..i])
      invariant (emptyCommit <==> emptyCommitCount > C0) && C == (if emptyCommit then C0 + 1 else C0)
      invariant Tallied(signCount, commitMsgs[..i]) && NoQuorum(commitMsgs[..i], N)
    {
      var c := commitMsgs[i];
      EmptyCommitsStep(commitMsgs, i);
      if c.forEmpty {
        emptyCommitCount := emptyCommitCount + 1;
        if emptyCommitCount > C && !emptyCommit {
          C, emptyCommit := C + 1, true;
        }
      }
      TallyStep(signCount, commitMsgs, i);
      QuorumStep(commitMsgs, i, N);
      signCount := signCount[c.proposer := SetAt(signCount, c.proposer) + {c.committer} + c.endorsersSig.Keys];
      assert SetAt(signCount, c.proposer) == Signers(commitMsgs[..i + 1], c.proposer);
      if |signCount[c.proposer]| + 1 >= N - (N - 1) / 3 {
        QuorumIsStable(commitMsgs, i + 1, N, c.proposer);
        assert Decides(commitMsgs, C0, N, i, c.proposer, emptyCommit);
        return Some(c.proposer), emptyCommit;
      }
    }
    assert commitMsgs[..|commitMsgs|] == commitMsgs;
    return None, false;
  }

  lemma NoSigners(N: nat)
    requires N > 0
    ensures Tallied(map[], []) && NoQuorum([], N) && EmptyCommits([]) == 0
  {
  }

  /** Counts one endorser's full endorsements, stopping at a quorum. */
  method CountFull(eSigs: seq<EndorseSig>, bound: nat, counts0: map<Peer, nat>, emptyCnt0: nat,
                   ghost e: Peer, ghost view: map<Peer, seq<EndorseSig>>, ghost sigs: map<Peer, seq<EndorseSig>>,
                   ghost empty0: nat)
    returns (counts: map<Peer, nat>, emptyCnt: nat, proposer: Option<Peer>, ghost empty: nat,
             ghost seen: map<Peer, seq<EndorseSig>>)
    requires OrderlySigs(eSigs) && e !in view && PartOf(view[e := eSigs], sigs)
    requires Counted(counts0, empty0, view) && AllWithin(counts0, bound)
    ensures proposer.None? ==> Counted(counts, empty, view[e := eSigs]) && AllWithin(counts, bound)
    ensures proposer.Some? ==> |Backers(sigs, proposer.value)| > bound && empty <= |EmptyBackers(sigs)|
    ensures proposer.Some? ==> PartOf(seen, sigs) && seen.Keys == view.Keys + {e}
    ensures proposer.Some? ==> |Backers(seen, proposer.value)| == bound + 1 && empty == |EmptyBackers(seen)|
    ensures emptyCnt - emptyCnt0 == empty - empty0
  {
    hide Counted, OrderlySigs, EndorseQuorum, Backers, EmptyBackers;
    counts, emptyCnt, proposer, empty, seen := counts0, emptyCnt0, None, empty0, map[];
    CountNewEndorser(counts, empty, view, e);
    for i := 0 to |eSigs|
      invariant Counted(counts, empty, view[e := eSigs[..i]]) && AllWithin(counts, bound) && proposer.None?
      invariant emptyCnt - emptyCnt0 == empty - empty0
    {
      ghost var v, v' := view[e := eSigs[..i]], view[e := eSigs[..i + 1]];
      assert v[e := eSigs[..i + 1]] == v';
      if eSigs[i].forEmpty {
        CountEmpty(counts, empty, v, e, eSigs, i);
        emptyCnt, empty := emptyCnt + 1, empty + 1;
      } else {
        CountBacked(counts, empty, v, e, eSigs, i);
        var p := eSigs[i].proposer;
        RaiseOne(counts, p, bound);
        counts := counts[p := Count(counts, p) + 1];
        if counts[p] > bound {
          QuorumFound(counts, empty, v', sigs, bound, p);
          EmptySeen(counts, empty, v', sigs);
          CountsAre(counts, empty, v', p);
          return counts, emptyCnt, Some(p), empty, v';
        }
      }
    }
    assert eSigs[..|eSigs|] == eSigs;
  }

  lemma CountsAre(counts: map<Peer, nat>, empty: nat, view: map<Peer, seq<EndorseSig>>, p: Peer)
    requires Counted(counts, empty, view)
    ensures Count(counts, p) == |Backers(view, p)| && empty == |EmptyBackers(view)|
  {
  }

  lemma EmptySeen(counts: map<Peer, nat>, empty: nat, view: map<Peer, seq<EndorseSig>>,
                  sigs: map<Peer, seq<EndorseSig>>)
    requires Counted(counts, empty, view) && PartOf(view, sigs)
    ensures empty <= |EmptyBackers(sigs)|
  {
    SubsetSize(EmptyBackers(view), EmptyBackers(sigs));
  }

  /** The empty endorsements of a peer that is no endorser of the block. */
  method CountOutsider(eSigs: seq<EndorseSig>, emptyCnt0: nat) returns (emptyCnt: nat)
    requires OrderlySigs(eSigs)
    ensures emptyCnt == emptyCnt0 + (if HasEmpty(eSigs) then 1 else 0)
  {
    emptyCnt := emptyCnt0;
    for i := 0 to |eSigs|
      invariant emptyCnt == emptyCnt0 + (if HasEmpty(eSigs[..i]) then 1 else 0)
    {
      if eSigs[i].forEmpty {
        assert eSigs[..i + 1][i].forEmpty;
        emptyCnt := emptyCnt + 1;
      }
    }
    assert eSigs[..|eSigs|] == eSigs;
  }

  /** The peers outside endorsers that endorsed empty; the commit check counts
      each of them a second time. */
  ghost function Outsiders(sigs: map<Peer, seq<EndorseSig>>, endorsers: set<Peer>): set<Peer> {
    EmptyBackers(sigs) - endorsers
  }

  lemma OneMoreOutsider(view: map<Peer, seq<EndorseSig>>, e: Peer, l: seq<EndorseSig>, endorsers: set<Peer>)
    requires e !in view
    ensures |Outsiders(view[e := l], endorsers)| ==
            |Outsiders(view, endorsers)| + (if e !in endorsers && HasEmpty(l) then 1 else 0)
  {
    hide HasEmpty, EmptyBackers;
    OneMoreEmpty(view, e, l);
    if e !in endorsers && HasEmpty(l) {
      assert Outsiders(view[e := l], endorsers) == Outsiders(view, endorsers) + {e};
    } else {
      assert Outsiders(view[e := l], endorsers) == Outsiders(view, endorsers);
    }
  }

  lemma OneMoreEmpty(view: map<Peer, seq<EndorseSig>>, e: Peer, l: seq<EndorseSig>)
    requires e !in view
    ensures e !in EmptyBackers(view)
    ensures EmptyBackers(view[e := l]) == if HasEmpty(l) then EmptyBackers(view) + {e} else EmptyBackers(view)
  {
    hide HasEmpty;
  }

  lemma OutsidersSeen(view: map<Peer, seq<EndorseSig>>, sigs: map<Peer, seq<EndorseSig>>, endorsers: set<Peer>)
    requires PartOf(view, sigs)
    ensures |Outsiders(view, endorsers)| <= |Outsiders(sigs, endorsers)|
  {
    SubsetSize(Outsiders(view, endorsers), Outsiders(sigs, endorsers));
  }

  ghost predicate EmptyMajority(sigs: map<Peer, seq<EndorseSig>>, endorsers: set<Peer>, bound: nat) {
    |EmptyBackers(sigs)| + |Outsiders(sigs, endorsers)| > bound
  }

  /** The whole lists of the endorsers of which some entry was looked at. */
  ghost function Whole(seen: map<Peer, seq<EndorseSig>>, sigs: map<Peer, seq<EndorseSig>>): map<Peer, seq<EndorseSig>> {
    map e | e in seen && e in sigs :: sigs[e]
  }

  /** Having looked at these entries only, the count for p has just passed bound;
      the report is for empty exactly if the count of empty endorsements has. */
  ghost predicate StopsAt(sigs: map<Peer, seq<EndorseSig>>, endorsers: set<Peer>, bound: nat,
                          seen: map<Peer, seq<EndorseSig>>, p: Peer, forEmpty: bool)
  {
    && PartOf(seen, sigs) && |Backers(seen, p)| == bound + 1
    && (forEmpty <==> |EmptyBackers(seen)| + |Outsiders(Whole(seen, sigs), endorsers)| > bound)
  }

  ghost predicate Stopped(sigs: map<Peer, seq<EndorseSig>>, endorsers: set<Peer>, bound: nat, p: Peer, forEmpty: bool) {
    exists seen :: StopsAt(sigs, endorsers, bound, seen, p, forEmpty)
  }

  /** A proposer backed by more than bound endorsers, if there is one. Which one,
      and how many empty endorsements were counted before it was found, depends on
      the order of the map. */
  method CheckSignatures(sigs: map<Peer, seq<EndorseSig>>, endorsers: set<Peer>, bound: nat)
    returns (proposer: Option<Peer>, forEmpty: bool)
    requires forall e :: e in sigs ==> OrderlySigs(sigs[e])
    ensures proposer.Some? ==> |Backers(sigs, proposer.value)| > bound
    ensures proposer.None? ==> forall p :: |Backers(sigs, p)| <= bound
    ensures forEmpty ==> proposer.Some? && EmptyMajority(sigs, endorsers, bound)
    ensures proposer.Some? ==> Stopped(sigs, endorsers, bound, proposer.value, forEmpty)
  {
    hide Backers, EmptyBackers, OrderlySigs, Counted, Outsiders, HasEmpty;
    var counts: map<Peer, nat>, emptyCnt: nat := map[], 0;
    var todo := sigs.Keys;
    ghost var empty: nat := 0;
    NothingCounted();
    NoOutsiders(endorsers);
    assert sigs - todo == map[];
    while todo != {}
      invariant todo <= sigs.Keys && Counted(counts, empty, sigs - todo) && AllWithin(counts, bound)
      invariant emptyCnt == empty + |Outsiders(sigs - todo, endorsers)|
    {
      var e :| e in todo;
      assert (sigs - todo)[e := sigs[e]] == sigs - (todo - {e});
      OneMoreOutsider(sigs - todo, e, sigs[e], endorsers);
      if e !in endorsers {
        emptyCnt := CountOutsider(sigs[e], emptyCnt);
      }
      ghost var seen;
      counts, emptyCnt, proposer, empty, seen :=
        CountFull(sigs[e], bound, counts, emptyCnt, e, sigs - todo, sigs, empty);
      if proposer.Some? {
        OutsidersSeen(sigs - (todo - {e}), sigs, endorsers);
        forEmpty := emptyCnt > bound;
        assert Whole(seen, sigs) == sigs - (todo - {e});
        assert StopsAt(sigs, endorsers, bound, seen, proposer.value, forEmpty);
        return;
      }
      todo := todo - {e};
    }
    assert sigs - {} == sigs;
    AllCounted(counts, empty, sigs, bound);
    return None, false;
  }

  lemma NoOutsiders(endorsers: set<Peer>)
    ensures |Outsiders(map[], endorsers)| == 0
  {
    assert Outsiders(map[], endorsers) == {};
  }

  lemma AllCounted(counts: map<Peer, nat>, emptyCount: nat, sigs: map<Peer, seq<EndorseSig>>, bound: nat)
    requires Counted(counts, emptyCount, sigs) && AllWithin(counts, bound)
    ensures forall p :: |Backers(sigs, p)| <= bound
  {
    forall p
      ensures |Backers(sigs, p)| <= bound
    {
      assert Count(counts, p) <= bound;
    }
  }

  /** p can be reported as committed, by commit messages or by signatures. */
  ghost predicate Reported(c: Candidate, C: nat, N: nat, p: Peer)
    requires C < N
  {
    CommitQuorum(c.commits, N, p) || |Backers(c.sigs, p)| > N - 1 - C
  }

  /** A report for an empty block rests on more than C commits for empty, or on
      more than N - 1 - C counted endorsements for empty. */
  ghost predicate ForEmpty(c: Candidate, endorsers: set<Peer>, C: nat, N: nat, p: Peer)
    requires C < N
  {
    || (exists i :: 0 <= i < |c.commits| && Decides(c.commits, C, N, i, p, true))
    || (NoQuorum(c.commits, N) && EmptyMajority(c.sigs, endorsers, N - 1 - C))
  }

  /** What decides a report: the first commit that completes a quorum, or else the
      endorsements looked at when the count of the proposer passed N - 1 - C. */
  ghost predicate Decided(c: Candidate, endorsers: set<Peer>, C: nat, N: nat, p: Peer, forEmpty: bool)
    requires C < N
  {
    || (exists i :: 0 <= i < |c.commits| && Decides(c.commits, C, N, i, p, forEmpty))
    || (NoQuorum(c.commits, N) && Stopped(c.sigs, endorsers, N - 1 - C, p, forEmpty))
  }

  /** The commit check on a candidate. */
  method CheckCommits(c: Candidate, endorsers: set<Peer>, C: nat, N: nat)
    returns (proposer: Option<Peer>, forEmpty: bool)
    requires Orderly(c) && C < N
    ensures proposer.Some? ==> Reported(c, C, N, proposer.value)
    ensures proposer.None? ==> forall p :: !Reported(c, C, N, p)
    ensures proposer.Some? ==> Decided(c, endorsers, C, N, proposer.value, forEmpty)
    ensures forEmpty ==> proposer.Some? && ForEmpty(c, endorsers, C, N, proposer.value)
  {
    hide Decides, NoQuorum, EmptyMajority, Backers, Stopped;
    proposer, forEmpty := GetCommitConsensus(c.commits, C, N);
    if proposer.None? {
      NoQuorumAtAll(c.commits, N);
      proposer, forEmpty := CheckSignatures(c.sigs, endorsers, N - 1 - C);
    }
  }

  lemma NoQuorumAtAll(ms: seq<Commit>, N: nat)
    requires N > 0 && NoQuorum(ms, N)
    ensures forall p :: !CommitQuorum(ms, N, p)
  {
  }

  /** With N == 3C + 1: commits signed by 2C peers, or 2C + 1 endorsements. */
  lemma ReportedOfFull(c: Candidate, C: nat, N: nat, p: Peer)
    requires N == 3 * C + 1
    ensures Reported(c, C, N, p) <==>
            (Named(c.commits, p) && |Signers(c.commits, p)| >= 2 * C) || |Backers(c.sigs, p)| >= 2 * C + 1
  {
    hide Named, Signers, Backers;
    assert (N - 1) / 3 == C;
  }

  // --- the pool

  function SetCommitted(c: Candidate, proposal: Proposal, forEmpty: bool): (Candidate, Outcome) {
    if c.committed.Some? || c.committedEmpty.Some? then (c, HadCommitted)
    else if forEmpty then (c.(committedEmpty := Some(proposal)), Ok)
    else (c.(committed := Some(proposal)), Ok)
  }

  type Candidates = map<nat, Candidate>

  function CandidateAt(cs: Candidates, blkNum: nat): Candidate {
    if blkNum in cs then cs[blkNum] else NEW_CANDIDATE
  }

  /** Without the heights that lie more than historyLen behind blockNum. */
  function Freed(cs: Candidates, blockNum: nat, historyLen: nat): Candidates {
    map n | n in cs && n + historyLen >= blockNum :: cs[n]
  }

  class Pool {
    var candidateBlocks: Candidates
    const historyLen: nat

    ghost predicate Valid()
      reads this
    {
      forall n :: n in candidateBlocks ==> Orderly(candidateBlocks[n])
    }

    constructor (history: nat)
      ensures Valid() && candidateBlocks == map[] && historyLen == history
    {
      candidateBlocks, historyLen := map[], history;
    }

    method Clean()
      modifies this
      ensures Valid() && candidateBlocks == map[]
    {
      candidateBlocks := map[];
    }

    /** Forgets the heights that lie more than the history length behind. */
    method OnBlockSealed(blockNum: nat)
      requires Valid()
      modifies this
      ensures Valid() && candidateBlocks == Freed(old(candidateBlocks), blockNum, historyLen)
      ensures forall n :: n in candidateBlocks <==> n in old(candidateBlocks) && n as int >= blockNum - historyLen
      ensures forall n :: n in candidateBlocks ==> candidateBlocks[n] == old(candidateBlocks)[n]
    {
      hide Orderly;
      if blockNum <= historyLen {
        return;
      }
      var toFreeCandidates := set n | n in candidateBlocks && n < blockNum - historyLen;
      while toFreeCandidates != {}
        invariant forall n :: n in toFreeCandidates ==> n in old(candidateBlocks) && n < blockNum - historyLen
        invariant forall n :: n in candidateBlocks ==>
                                n in old(candidateBlocks) && candidateBlocks[n] == old(candidateBlocks)[n]
        invariant forall n :: n in old(candidateBlocks) && (n >= blockNum - historyLen || n in toFreeCandidates) ==>
                                n in candidateBlocks
        invariant forall n :: n in candidateBlocks ==> n >= blockNum - historyLen || n in toFreeCandidates
      {
        var n :| n in toFreeCandidates;
        candidateBlocks := candidateBlocks - {n};
        toFreeCandidates := toFreeCandidates - {n};
      }
    }

    method NewBlockProposal(msg: Proposal) returns (o: Outcome)
      requires Valid()
      modifies this
      ensures Valid()
      ensures var c := old(CandidateAt(candidateBlocks, msg.blockNum));
              && candidateBlocks == old(candidateBlocks)[msg.blockNum := AddProposal(c, msg).0]
              && o == AddProposal(c, msg).1
    {
      var c := CandidateAt(candidateBlocks, msg.blockNum);
      ProposalKeepsOrderly(c, msg);
      candidateBlocks := candidateBlocks[msg.blockNum := c];
      for i := 0 to |c.proposals|
        invariant forall j :: 0 <= j < i ==> c.proposals[j].proposer != msg.proposer
        invariant candidateBlocks == old(candidateBlocks)[msg.blockNum := c]
      {
        if c.proposals[i].proposer == msg.proposer {
          return if c.proposals[i].sig == msg.sig then Ok else DupProposal;
        }
      }
      var sig := EndorseSig(msg.proposer, msg.sig, false);
      c := c.(proposals := c.proposals + [msg], sigs := AddEndorsement(c.sigs, msg.proposer, sig, false));
      candidateBlocks := candidateBlocks[msg.blockNum := c];
      return Ok;
    }

    method NewBlockEndorsement(blkNum: nat, endorser: Peer, sig: EndorseSig)
      requires Valid()
      modifies this
      ensures Valid()
      ensures var c := old(CandidateAt(candidateBlocks, blkNum));
              candidateBlocks ==
              old(candidateBlocks)[blkNum := c.(sigs := AddEndorsement(c.sigs, endorser, sig, false))]
      ensures var before, after := old(CandidateAt(candidateBlocks, blkNum).sigs), candidateBlocks[blkNum].sigs;
              && (!sig.forEmpty && endorser !in EmptyBackers(before) ==>
                    Backers(after, sig.proposer) == Backers(before, sig.proposer) + {endorser})
              && (forall p :: p != sig.proposer || sig.forEmpty ==> Backers(after, p) == Backers(before, p))
              && EmptyBackers(after) == if sig.forEmpty then EmptyBackers(before) + {endorser} else EmptyBackers(before)
    {
      hide Backers, EmptyBackers, AddEndorsement;
      var c := CandidateAt(candidateBlocks, blkNum);
      EndorsementKeepsOrderly(c, endorser, sig);
      EndorsementIsRecorded(c.sigs, endorser, sig, sig.proposer);
      forall p
        ensures p != sig.proposer ==> Backers(AddEndorsement(c.sigs, endorser, sig, false), p) == Backers(c.sigs, p)
      {
        EndorsementIsRecorded(c.sigs, endorser, sig, p);
      }
      candidateBlocks := candidateBlocks[blkNum := c.(sigs := AddEndorsement(c.sigs, endorser, sig, false))];
    }

    /** The carried endorsements are added in any order. */
    method NewBlockCommitment(msg: Commit) returns (o: Outcome)
      requires Valid()
      modifies this
      ensures Valid()
      ensures var c := old(CandidateAt(candidateBlocks, msg.blockNum));
              && candidateBlocks == old(candidateBlocks)[msg.blockNum := AddCommit(c, msg).0]
              && o == AddCommit(c, msg).1
    {
      hide Orderly, AddEndorsement;
      var c := CandidateAt(candidateBlocks, msg.blockNum);
      CommitKeepsOrderly(c, msg);
      candidateBlocks := candidateBlocks[msg.blockNum := c];
      for i := 0 to |c.commits|
        invariant forall j :: 0 <= j < i ==> c.commits[j].committer != msg.committer
        invariant candidateBlocks == old(candidateBlocks)[msg.blockNum := c]
      {
        if c.commits[i].committer == msg.committer {
          return if c.commits[i].blockHash == msg.blockHash then Ok else DupCommit;
        }
      }
      var sigs := AddAllCarried(c.sigs, msg);
      var own := EndorseSig(msg.proposer, msg.committerSig, msg.forEmpty);
      c := c.(sigs := AddEndorsement(sigs, msg.committer, own, true), commits := c.commits + [msg]);
      candidateBlocks := candidateBlocks[msg.blockNum := c];
      return Ok;
    }

    method EndorseDone(blkNum: nat, C: nat) returns (r: Endorsed)
      requires Valid()
      ensures var sigs := CandidateAt(candidateBlocks, blkNum).sigs;
              && (r != NotYet <==> EndorseQuorum(sigs, C))
              && (r.Done? && !r.forEmpty ==> |Backers(sigs, r.proposer)| > C)
              && (r.Done? && r.forEmpty ==>
                    |EmptyBackers(sigs)| > C && exists e :: e in sigs && EndorsedEmpty(sigs[e], r.proposer))
    {
      if blkNum !in candidateBlocks {
        FewEndorsers(map[], C);
        return NotYet;
      }
      r := CheckEndorsements(candidateBlocks[blkNum].sigs, C);
    }

    method CommitDone(blkNum: nat, endorsers: set<Peer>, C: nat, N: nat)
      returns (proposer: Option<Peer>, forEmpty: bool)
      requires Valid() && C < N
      ensures proposer.Some? ==> Reported(CandidateAt(candidateBlocks, blkNum), C, N, proposer.value)
      ensures proposer.None? ==> forall p :: !Reported(CandidateAt(candidateBlocks, blkNum), C, N, p)
      ensures proposer.Some? ==>
                Decided(CandidateAt(candidateBlocks, blkNum), endorsers, C, N, proposer.value, forEmpty)
      ensures forEmpty ==>
                proposer.Some? && ForEmpty(CandidateAt(candidateBlocks, blkNum), endorsers, C, N, proposer.value)
    {
      assert Orderly(NEW_CANDIDATE);
      if blkNum !in candidateBlocks {
        NothingReported(C, N);
        return None, false;
      }
      proposer, forEmpty := CheckCommits(candidateBlocks[blkNum], endorsers, C, N);
    }

    /** A node commits to one proposal per height: the first one stays. */
    method SetProposalCommitted(proposal: Proposal, forEmpty: bool) returns (o: Outcome)
      requires Valid()
      modifies this
      ensures Valid()
      ensures proposal.blockNum !in old(candidateBlocks) ==> o == NoCandidate && candidateBlocks == old(candidateBlocks)
      ensures proposal.blockNum in old(candidateBlocks) ==>
                var c := old(candidateBlocks)[proposal.blockNum];
                && candidateBlocks == old(candidateBlocks)[proposal.blockNum := SetCommitted(c, proposal, forEmpty).0]
                && o == SetCommitted(c, proposal, forEmpty).1
      ensures o == Ok ==>
                var c, d := old(candidateBlocks)[proposal.blockNum], candidateBlocks[proposal.blockNum];
                && c.committed == c.committedEmpty == None
                && d.committed == (if forEmpty then None else Some(proposal))
                && d.committedEmpty == (if forEmpty then Some(proposal) else None)
      ensures o == HadCommitted ==> candidateBlocks == old(candidateBlocks)
    {
      if proposal.blockNum !in candidateBlocks {
        return NoCandidate;
      }
      var c := candidateBlocks[proposal.blockNum];
      if c.committed.Some? || c.committedEmpty.Some? {
        return HadCommitted;
      }
      c := if forEmpty then c.(committedEmpty := Some(proposal)) else c.(committed := Some(proposal));
      candidateBlocks := candidateBlocks[proposal.blockNum := c];
      return Ok;
    }
  }

  lemma NothingReported(C: nat, N: nat)
    requires C < N
    ensures forall p :: !Reported(NEW_CANDIDATE, C, N, p)
  {
    forall p
      ensures !Reported(NEW_CANDIDATE, C, N, p)
    {
      assert Backers(map[], p) == {};
    }
  }

  /** Adds the carried endorsements one by one; their order does not matter. */
  method AddAllCarried(sigs0: map<Peer, seq<EndorseSig>>, msg: Commit) returns (sigs: map<Peer, seq<EndorseSig>>)
    ensures sigs == AddCarried(sigs0, msg)
  {
    sigs := sigs0;
    var todo := msg.endorsersSig.Keys;
    while todo != {}
      invariant todo <= msg.endorsersSig.Keys
      invariant sigs.Keys == sigs0.Keys + (msg.endorsersSig.Keys - todo)
      invariant forall e :: e in sigs && e in todo ==> e in sigs0 && sigs[e] == sigs0[e]
      invariant forall e :: e in sigs && e !in todo ==> sigs[e] == AddCarried(sigs0, msg)[e]
    {
      var e :| e in todo;
      var s := EndorseSig(msg.proposer, msg.endorsersSig[e], msg.forEmpty);
      sigs := AddEndorsement(sigs, e, s, false);
      todo := todo - {e};
    }
  }

  // --- runs

  datatype Event =
    | Propose(proposal: Proposal)
    | Endorse(blkNum: nat, endorser: Peer, sig: EndorseSig)
    | CommitTo(commit: Commit)
    | CommitOwn(proposal: Proposal, forEmpty: bool)
    | Sealed(blockNum: nat, historyLen: nat)
    | Cleaned

  function Step(cs: Candidates, e: Event): Candidates {
    match e
    case Propose(p) => cs[p.blockNum := AddProposal(CandidateAt(cs, p.blockNum), p).0]
    case Endorse(n, en, s) =>
      var c := CandidateAt(cs, n);
      cs[n := c.(sigs := AddEndorsement(c.sigs, en, s, false))]
    case CommitTo(m) => cs[m.blockNum := AddCommit(CandidateAt(cs, m.blockNum), m).0]
    case CommitOwn(p, forEmpty) =>
      if p.blockNum in cs then cs[p.blockNum := SetCommitted(cs[p.blockNum], p, forEmpty).0] else cs
    case Sealed(blockNum, historyLen) => Freed(cs, blockNum, historyLen)
    case Cleaned => map[]
  }

  /** The step forgets height n. */
  predicate Frees(e: Event, n: nat) {
    match e
    case Sealed(blockNum, historyLen) => n + historyLen < blockNum
    case Cleaned => true
    case _ => false
  }

  function Run(cs: Candidates, es: seq<Event>): Candidates {
    if es == [] then cs else Step(Run(cs, Init(es)), Last(es))
  }

  lemma StepIsOrderly(cs: Candidates, e: Event)
    requires forall n :: n in cs ==> Orderly(cs[n])
    ensures forall n :: n in Step(cs, e) ==> Orderly(Step(cs, e)[n])
  {
    match e
    case Propose(p) => ProposalKeepsOrderly(CandidateAt(cs, p.blockNum), p);
    case Endorse(n, en, s) => EndorsementKeepsOrderly(CandidateAt(cs, n), en, s);
    case CommitTo(m) => CommitKeepsOrderly(CandidateAt(cs, m.blockNum), m);
    case CommitOwn(p, forEmpty) =>
    case Sealed(blockNum, historyLen) =>
    case Cleaned =>
  }

  /** After every run of messages the bookkeeping of every height is orderly. */
  lemma {:induction false} RunIsOrderly(es: seq<Event>)
    ensures forall n :: n in Run(map[], es) ==> Orderly(Run(map[], es)[n])
  {
    if es == [] {
    } else {
      RunIsOrderly(Init(es));
      StepIsOrderly(Run(map[], Init(es)), Last(es));
    }
  }

  /** What a run never takes back. */
  ghost predicate Follows(c: Candidate, d: Candidate) {
    && c.proposals <= d.proposals && c.commits <= d.commits
    && (forall e :: e in c.sigs ==> e in d.sigs)
    && (c.committed.Some? || c.committedEmpty.Some? ==>
        d.committed == c.committed && d.committedEmpty == c.committedEmpty)
  }

  lemma StepFollows(cs: Candidates, e: Event, n: nat)
    requires !Frees(e, n)
    ensures Follows(CandidateAt(cs, n), CandidateAt(Step(cs, e), n))
  {
  }

  /** A run that does not forget height n. */
  lemma {:induction false} RunFollows(cs: Candidates, es: seq<Event>, n: nat)
    requires forall e :: e in es ==> !Frees(e, n)
    ensures Follows(CandidateAt(cs, n), CandidateAt(Run(cs, es), n))
  {
    if es == [] {
    } else {
      RunFollows(cs, Init(es), n);
      StepFollows(Run(cs, Init(es)), Last(es), n);
    }
  }

  /** Once the commits of a height reach a quorum for a proposer, they do so after
      every further run that does not forget the height. */
  lemma RunKeepsQuorum(cs: Candidates, es: seq<Event>, n: nat, N: nat, p: Peer)
    requires forall e :: e in es ==> !Frees(e, n)
    requires N > 0 && CommitQuorum(CandidateAt(cs, n).commits, N, p)
    ensures CommitQuorum(CandidateAt(Run(cs, es), n).commits, N, p)
  {
    RunFollows(cs, es, n);
    var before, after := CandidateAt(cs, n).commits, CandidateAt(Run(cs, es), n).commits;
    assert after[..|before|] == before;
    QuorumIsStable(after, |before|, N, p);
  }
}

/** Which endorsements a pool holds after any messages in any order, read off the
    messages alone. */
module Recording {
  import opened Hashing
  import opened BlockPool

  // --- what a message says

  predicate CommitsAs(e: Event, n: nat, x: Peer) {
    e.CommitTo? && e.commit.blockNum == n && e.commit.committer == x
  }

  predicate ProposesAs(e: Event, n: nat, x: Peer) {
    e.Propose? && e.proposal.blockNum == n && e.proposal.proposer == x
  }

  /** Message e endorses the full block of p for height n on behalf of x. */
  predicate EndorsesFull(e: Event, n: nat, x: Peer, p: Peer) {
    match e
    case Propose(m) => m.blockNum == n && m.proposer == x == p
    case Endorse(blkNum, endorser, s) => blkNum == n && endorser == x && s.proposer == p && !s.forEmpty
    case CommitTo(m) =>
      m.blockNum == n && m.proposer == p && !m.forEmpty && SignsCommit(m, x)
    case _ => false
  }

  /** Message e endorses an empty block for height n on behalf of x. */
  predicate EndorsesEmpty(e: Event, n: nat, x: Peer) {
    match e
    case Endorse(blkNum, endorser, s) => blkNum == n && endorser == x && s.forEmpty
    case CommitTo(m) => m.blockNum == n && m.forEmpty && SignsCommit(m, x)
    case _ => false
  }

  /** Message k is no second proposal or second commit of its sender. */
  ghost predicate Taken(es: seq<Event>, k: nat)
    requires k < |es|
  {
    match es[k]
    case Propose(m) => forall j :: 0 <= j < k ==> !ProposesAs(es[j], m.blockNum, m.proposer)
    case CommitTo(m) => forall j :: 0 <= j < k ==> !CommitsAs(es[j], m.blockNum, m.committer)
    case _ => true
  }

  /** Message k is x's commit. */
  ghost predicate Replaces(es: seq<Event>, k: nat, n: nat, x: Peer)
    requires k < |es|
  {
    CommitsAs(es[k], n, x) && Taken(es, k)
  }

  /** What message k says for x was taken and not replaced by a commit of x. */
  ghost predicate Stands(es: seq<Event>, k: nat, n: nat, x: Peer)
    requires k < |es|
  {
    Taken(es, k) && forall j :: k < j < |es| ==> !Replaces(es, j, n, x)
  }

  ghost predicate StandsEmpty(es: seq<Event>, n: nat, x: Peer) {
    exists k :: 0 <= k < |es| && EndorsesEmpty(es[k], n, x) && Stands(es, k, n, x)
  }

  /** A full endorsement counts if it stands and none for empty stood before it;
      x's own commit counts regardless. */
  ghost predicate StandsFull(es: seq<Event>, n: nat, x: Peer, p: Peer) {
    exists k :: 0 <= k < |es| && EndorsesFull(es[k], n, x, p) && Stands(es, k, n, x) &&
                (CommitsAs(es[k], n, x) || !StandsEmpty(es[..k], n, x))
  }

  // --- one more message

  lemma TakenSnoc(es: seq<Event>, k: nat)
    requires k < |es| - 1
    ensures Taken(es, k) <==> Taken(Init(es), k)
  {
    assert forall j :: 0 <= j <= k ==> es[j] == Init(es)[j];
  }

  lemma StandsSnoc(es: seq<Event>, k: nat, n: nat, x: Peer)
    requires k < |es| - 1
    ensures Stands(es, k, n, x) <==> Stands(Init(es), k, n, x) && !Replaces(es, |es| - 1, n, x)
  {
    hide Taken, CommitsAs;
    forall j | 0 <= j < |es| - 1
      ensures Taken(es, j) <==> Taken(Init(es), j)
    {
      TakenSnoc(es, j);
    }
    assert forall j :: 0 <= j < |es| - 1 ==> (Replaces(es, j, n, x) <==> Replaces(Init(es), j, n, x));
    hide Replaces;
  }

  lemma StandsLast(es: seq<Event>, n: nat, x: Peer)
    requires es != []
    ensures Stands(es, |es| - 1, n, x) <==> Taken(es, |es| - 1)
  {
  }

  lemma StandsEmptySnoc(es: seq<Event>, n: nat, x: Peer)
    requires es != []
    ensures StandsEmpty(es, n, x) <==>
            || (StandsEmpty(Init(es), n, x) && !Replaces(es, |es| - 1, n, x))
            || (EndorsesEmpty(Last(es), n, x) && Taken(es, |es| - 1))
  {
    hide Stands, Replaces, Taken, EndorsesEmpty;
    StandsLast(es, n, x);
    forall k | 0 <= k < |es| - 1
      ensures Stands(es, k, n, x) <==> Stands(Init(es), k, n, x) && !Replaces(es, |es| - 1, n, x)
      ensures es[k] == Init(es)[k]
    {
      StandsSnoc(es, k, n, x);
    }
  }

  /** The witness of StandsFull. */
  ghost predicate FullAt(es: seq<Event>, k: nat, n: nat, x: Peer, p: Peer)
    requires k < |es|
  {
    EndorsesFull(es[k], n, x, p) && Stands(es, k, n, x) && (CommitsAs(es[k], n, x) || !StandsEmpty(es[..k], n, x))
  }

  lemma FullAtSnoc(es: seq<Event>, k: nat, n: nat, x: Peer, p: Peer)
    requires k < |es| - 1
    ensures FullAt(es, k, n, x, p) <==> FullAt(Init(es), k, n, x, p) && !Replaces(es, |es| - 1, n, x)
  {
    StandsSnoc(es, k, n, x);
    assert es[..k] == Init(es)[..k];
    hide Stands, Replaces, StandsEmpty, EndorsesFull, CommitsAs;
  }

  lemma StandsFullSnoc(es: seq<Event>, n: nat, x: Peer, p: Peer)
    requires es != []
    ensures StandsFull(es, n, x, p) <==>
            || (StandsFull(Init(es), n, x, p) && !Replaces(es, |es| - 1, n, x))
            || (EndorsesFull(Last(es), n, x, p) && Taken(es, |es| - 1) &&
                (CommitsAs(Last(es), n, x) || !StandsEmpty(Init(es), n, x)))
  {
    hide *;
    var last := |es| - 1;
    FullAtLast(es, n, x, p);
    FullAtWitness(es, n, x, p);
    FullAtWitness(Init(es), n, x, p);
    InitShorter(es);
    forall k | 0 <= k < last
      ensures FullAt(es, k, n, x, p) <==> FullAt(Init(es), k, n, x, p) && !Replaces(es, last, n, x)
    {
      FullAtSnoc(es, k, n, x, p);
    }
  }

  lemma FullAtLast(es: seq<Event>, n: nat, x: Peer, p: Peer)
    requires es != []
    ensures FullAt(es, |es| - 1, n, x, p) <==>
            EndorsesFull(Last(es), n, x, p) && Taken(es, |es| - 1) &&
            (CommitsAs(Last(es), n, x) || !StandsEmpty(Init(es), n, x))
  {
    StandsLast(es, n, x);
    assert es[..|es| - 1] == Init(es);
    hide Stands, StandsEmpty, EndorsesFull, CommitsAs, Taken;
  }

  lemma InitShorter(es: seq<Event>)
    requires es != []
    ensures |Init(es)| == |es| - 1
  {
  }

  lemma FullAtWitness(es: seq<Event>, n: nat, x: Peer, p: Peer)
    ensures StandsFull(es, n, x, p) <==> exists k :: 0 <= k < |es| && FullAt(es, k, n, x, p)
  {
    hide EndorsesFull, Stands, CommitsAs, StandsEmpty;
    if StandsFull(es, n, x, p) {
      var k :| 0 <= k < |es| && EndorsesFull(es[k], n, x, p) && Stands(es, k, n, x) &&
               (CommitsAs(es[k], n, x) || !StandsEmpty(es[..k], n, x));
      assert FullAt(es, k, n, x, p);
    }
  }

  // --- one step of the pool

  predicate HasProposal(c: Candidate, x: Peer) {
    exists i :: 0 <= i < |c.proposals| && c.proposals[i].proposer == x
  }

  predicate HasCommit(c: Candidate, x: Peer) {
    exists i :: 0 <= i < |c.commits| && c.commits[i].committer == x
  }

  /** A candidate takes one proposal per proposer and one commit per committer. */
  predicate Accepts(c: Candidate, e: Event) {
    match e
    case Propose(m) => !HasProposal(c, m.proposer)
    case CommitTo(m) => !HasCommit(c, m.committer)
    case _ => true
  }

  lemma ProposalStep(c: Candidate, m: Proposal, x: Peer, p: Peer)
    ensures var e, d := Propose(m), AddProposal(c, m).0;
            && (x in EmptyBackers(d.sigs) <==> x in EmptyBackers(c.sigs))
            && (x in Backers(d.sigs, p) <==>
                  x in Backers(c.sigs, p) || (Accepts(c, e) && m.proposer == x == p && x !in EmptyBackers(c.sigs)))
  {
    EndorsementIsRecorded(c.sigs, m.proposer, EndorseSig(m.proposer, m.sig, false), p);
    hide Backers, EmptyBackers, AddEndorsement;
  }

  lemma CommitStep(c: Candidate, m: Commit, x: Peer, p: Peer)
    ensures var e, d := CommitTo(m), AddCommit(c, m).0;
            && (x in EmptyBackers(d.sigs) <==>
                  (x in EmptyBackers(c.sigs) && !(Accepts(c, e) && x == m.committer)) ||
                  (Accepts(c, e) && EndorsesEmpty(e, m.blockNum, x)))
            && (x in Backers(d.sigs, p) <==>
                  (x in Backers(c.sigs, p) && !(Accepts(c, e) && x == m.committer)) ||
                  (Accepts(c, e) && EndorsesFull(e, m.blockNum, x, p) &&
                   (x == m.committer || x !in EmptyBackers(c.sigs))))
  {
    var own := EndorseSig(m.proposer, m.committerSig, m.forEmpty);
    CarriedAreRecorded(c.sigs, m, p);
    CommitmentIsRecorded(AddCarried(c.sigs, m), m.committer, own, p);
    hide Backers, EmptyBackers, AddEndorsement, AddCarried;
  }

  /** Who is recorded for empty and for p at height n after a message that does
      not forget the height. */
  lemma StepRecords(cs: Candidates, e: Event, n: nat, x: Peer, p: Peer)
    requires !Frees(e, n)
    ensures var c, d := CandidateAt(cs, n), CandidateAt(Step(cs, e), n);
            && (x in EmptyBackers(d.sigs) <==>
                  (x in EmptyBackers(c.sigs) && !(Accepts(c, e) && CommitsAs(e, n, x))) ||
                  (Accepts(c, e) && EndorsesEmpty(e, n, x)))
            && (x in Backers(d.sigs, p) <==>
                  (x in Backers(c.sigs, p) && !(Accepts(c, e) && CommitsAs(e, n, x))) ||
                  (Accepts(c, e) && EndorsesFull(e, n, x, p) && (CommitsAs(e, n, x) || x !in EmptyBackers(c.sigs))))
  {
    hide Backers, EmptyBackers, AddEndorsement, AddCarried, AddCommit, AddProposal;
    var c := CandidateAt(cs, n);
    match e
    case Propose(m) => ProposalStep(c, m, x, p);
    case Endorse(blkNum, endorser, s) => EndorsementIsRecorded(c.sigs, endorser, s, p);
    case CommitTo(m) => CommitStep(c, m, x, p);
    case CommitOwn(_, _) =>
    case Sealed(_, _) =>
  }

  /** Whose proposal and whose commit is stored after a message. */
  lemma StepStores(cs: Candidates, e: Event, n: nat, x: Peer)
    requires !Frees(e, n)
    ensures var c, d := CandidateAt(cs, n), CandidateAt(Step(cs, e), n);
            && (HasProposal(d, x) <==> HasProposal(c, x) || ProposesAs(e, n, x))
            && (HasCommit(d, x) <==> HasCommit(c, x) || CommitsAs(e, n, x))
  {
    hide AddEndorsement, AddCarried;
    var c, d := CandidateAt(cs, n), CandidateAt(Step(cs, e), n);
    if ProposesAs(e, n, x) && !HasProposal(c, x) {
      assert d.proposals[|c.proposals|].proposer == x;
    }
    if CommitsAs(e, n, x) && !HasCommit(c, x) {
      assert d.commits[|c.commits|].committer == x;
    }
    StepFollows(cs, e, n);
    assert HasProposal(c, x) ==> HasProposal(d, x);
    assert HasCommit(c, x) ==> HasCommit(d, x);
  }

  // --- runs

  ghost predicate NeverFreed(es: seq<Event>, n: nat) {
    forall e :: e in es ==> !Frees(e, n)
  }

  lemma {:induction false} RunStores(es: seq<Event>, n: nat, x: Peer)
    requires NeverFreed(es, n)
    ensures var c := CandidateAt(Run(map[], es), n);
            && (HasProposal(c, x) <==> exists k :: 0 <= k < |es| && ProposesAs(es[k], n, x))
            && (HasCommit(c, x) <==> exists k :: 0 <= k < |es| && CommitsAs(es[k], n, x))
  {
    if es == [] {
    } else {
      RunStores(Init(es), n, x);
      StepStores(Run(map[], Init(es)), Last(es), n, x);
      hide HasProposal, HasCommit, ProposesAs, CommitsAs, Step;
      assert forall k :: 0 <= k < |es| - 1 ==> es[k] == Init(es)[k];
      assert Last(es) == es[|es| - 1];
    }
  }

  /** A candidate accepts the last message exactly if it is taken. */
  lemma AcceptsIsTaken(es: seq<Event>, n: nat)
    requires es != [] && NeverFreed(es, n)
    requires match Last(es) case Propose(m) => m.blockNum == n case CommitTo(m) => m.blockNum == n case _ => true
    ensures Accepts(CandidateAt(Run(map[], Init(es)), n), Last(es)) <==> Taken(es, |es| - 1)
  {
    hide HasProposal, HasCommit, ProposesAs, CommitsAs, Run;
    assert forall k :: 0 <= k < |es| - 1 ==> es[k] == Init(es)[k];
    match Last(es)
    case Propose(m) => RunStores(Init(es), n, m.proposer);
    case CommitTo(m) => RunStores(Init(es), n, m.committer);
    case _ =>
  }

  /** After every run that does not forget a height, exactly those are recorded
      for an empty block, and for the full block of p, whose messages say so. */
  lemma {:induction false} RunRecords(es: seq<Event>, n: nat, x: Peer, p: Peer)
    requires NeverFreed(es, n)
    ensures var sigs := CandidateAt(Run(map[], es), n).sigs;
            (x in EmptyBackers(sigs) <==> StandsEmpty(es, n, x)) && (x in Backers(sigs, p) <==> StandsFull(es, n, x, p))
  {
    if es == [] {
    } else {
      RunRecords(Init(es), n, x, p);
      StepRecords(Run(map[], Init(es)), Last(es), n, x, p);
      StandsEmptySnoc(es, n, x);
      StandsFullSnoc(es, n, x, p);
      LastIsRecorded(es, n, x, p);
      hide Backers, EmptyBackers, StandsEmpty, StandsFull, Step, Taken, Accepts, EndorsesFull, EndorsesEmpty, CommitsAs;
    }
  }

  lemma LastIsRecorded(es: seq<Event>, n: nat, x: Peer, p: Peer)
    requires es != [] && NeverFreed(es, n)
    ensures var c, e, last := CandidateAt(Run(map[], Init(es)), n), Last(es), |es| - 1;
            && (Accepts(c, e) && CommitsAs(e, n, x) <==> Replaces(es, last, n, x))
            && (Accepts(c, e) && EndorsesEmpty(e, n, x) <==> Taken(es, last) && EndorsesEmpty(e, n, x))
            && (Accepts(c, e) && EndorsesFull(e, n, x, p) <==> Taken(es, last) && EndorsesFull(e, n, x, p))
  {
    hide Accepts, Taken, Run;
    var e := Last(es);
    if CommitsAs(e, n, x) || EndorsesEmpty(e, n, x) || EndorsesFull(e, n, x, p) {
      AcceptsIsTaken(es, n);
    }
  }

  predicate SignsCommit(m: Commit, x: Peer) {
    x == m.committer || x in m.endorsersSig
  }

  /** A commit of es that was taken names p for height n. */
  ghost predicate CommitNames(es: seq<Event>, k: nat, n: nat, p: Peer)
    requires k < |es|
  {
    es[k].CommitTo? && es[k].commit.blockNum == n && es[k].commit.proposer == p && Taken(es, k)
  }

  ghost predicate CommitNamed(es: seq<Event>, n: nat, p: Peer) {
    exists k :: 0 <= k < |es| && CommitNames(es, k, n, p)
  }

  ghost predicate CommitSigned(es: seq<Event>, n: nat, x: Peer, p: Peer) {
    exists k :: 0 <= k < |es| && CommitNames(es, k, n, p) && SignsCommit(es[k].commit, x)
  }

  lemma CommitSignedSnoc(es: seq<Event>, n: nat, x: Peer, p: Peer)
    requires es != []
    ensures var last := |es| - 1;
            && (CommitNamed(es, n, p) <==> CommitNamed(Init(es), n, p) || CommitNames(es, last, n, p))
            && (CommitSigned(es, n, x, p) <==>
                  CommitSigned(Init(es), n, x, p) ||
                  (CommitNames(es, last, n, p) && SignsCommit(es[last].commit, x)))
  {
    hide Taken;
    forall k | 0 <= k < |es| - 1
      ensures CommitNames(es, k, n, p) <==> CommitNames(Init(es), k, n, p)
      ensures es[k] == Init(es)[k]
    {
      TakenSnoc(es, k);
    }
    hide CommitNames;
  }

  lemma SignersSnoc(ms: seq<Commit>, m: Commit, p: Peer)
    ensures Signers(ms + [m], p) == Signers(ms, p) + SignersOf(m, p)
    ensures Named(ms + [m], p) <==> Named(ms, p) || m.proposer == p
  {
    var a := ms + [m];
    SignersStep(a, |ms|, p);
    assert a[..|ms| + 1] == a && a[..|ms|] == ms;
  }

  /** After every run that does not forget a height, its commits name p and are
      signed by x exactly if a commit that was taken does and is. */
  lemma {:induction false} RunSigners(es: seq<Event>, n: nat, x: Peer, p: Peer)
    requires NeverFreed(es, n)
    ensures var ms := CandidateAt(Run(map[], es), n).commits;
            (Named(ms, p) <==> CommitNamed(es, n, p)) && (x in Signers(ms, p) <==> CommitSigned(es, n, x, p))
  {
    if es == [] {
    } else {
      RunSigners(Init(es), n, x, p);
      CommitSignedSnoc(es, n, x, p);
      StepSigners(es, n, x, p);
      hide Signers, Named, CommitNamed, CommitSigned, CommitNames, Step;
    }
  }

  lemma StepSigners(es: seq<Event>, n: nat, x: Peer, p: Peer)
    requires es != [] && NeverFreed(es, n)
    ensures var ms, ms' := CandidateAt(Run(map[], Init(es)), n).commits, CandidateAt(Run(map[], es), n).commits;
            var last := |es| - 1;
            && (Named(ms', p) <==> Named(ms, p) || CommitNames(es, last, n, p))
            && (x in Signers(ms', p) <==>
                  x in Signers(ms, p) ||
                  (CommitNames(es, last, n, p) && SignsCommit(es[last].commit, x)))
  {
    hide Signers, Named, AddEndorsement, AddCarried, Taken;
    var c, e := CandidateAt(Run(map[], Init(es)), n), Last(es);
    if e.CommitTo? && e.commit.blockNum == n {
      AcceptsIsTaken(es, n);
      SignersSnoc(c.commits, e.commit, p);
      assert AddCommit(c, e.commit).0.commits == if Accepts(c, e) then c.commits + [e.commit] else c.commits;
    } else {
      assert e in es && !Frees(e, n);
      assert CandidateAt(Step(Run(map[], Init(es)), e), n).commits == c.commits;
    }
  }

  /** After every run that does not forget a height, p is reported exactly if the
      commits that were taken name p and are signed by enough peers, or the
      endorsements of enough peers for p stand. */
  lemma RunReports(es: seq<Event>, n: nat, peers: set<Peer>, C: nat, N: nat, p: Peer)
    requires NeverFreed(es, n) && C < N
    requires forall x :: CommitSigned(es, n, x, p) || StandsFull(es, n, x, p) ==> x in peers
    ensures Reported(CandidateAt(Run(map[], es), n), C, N, p) <==>
            || (CommitNamed(es, n, p) && |set x | x in peers && CommitSigned(es, n, x, p)| + 1 >= N - (N - 1) / 3)
            || |set x | x in peers && StandsFull(es, n, x, p)| > N - 1 - C
  {
    var c := CandidateAt(Run(map[], es), n);
    forall x
      ensures x in Signers(c.commits, p) <==> CommitSigned(es, n, x, p)
      ensures x in Backers(c.sigs, p) <==> StandsFull(es, n, x, p)
    {
      RunSigners(es, n, x, p);
      RunRecords(es, n, x, p);
    }
    RunSigners(es, n, p, p);
    hide *;
    assert (set x | x in peers && CommitSigned(es, n, x, p)) == Signers(c.commits, p);
    assert (set x | x in peers && StandsFull(es, n, x, p)) == Backers(c.sigs, p);
    ReportedIs(c, C, N, p);
  }

  lemma ReportedIs(c: Candidate, C: nat, N: nat, p: Peer)
    requires C < N
    ensures Reported(c, C, N, p) <==>
            (Named(c.commits, p) && |Signers(c.commits, p)| + 1 >= N - (N - 1) / 3) || |Backers(c.sigs, p)| > N - 1 - C
  {
  }

  /** What came before a message that forgets the height does not matter. */
  lemma {:induction false} FreedIsForgotten(es: seq<Event>, e: Event, rest: seq<Event>, n: nat)
    requires Frees(e, n)
    ensures CandidateAt(Run(map[], es + [e] + rest), n) == CandidateAt(Run(map[], rest), n)
    ensures n in Run(map[], es + [e] + rest) <==> n in Run(map[], rest)
    decreases |rest|
  {
    var all := es + [e] + rest;
    if rest == [] {
      assert Init(all) == es && Last(all) == e;
    } else {
      assert Init(all) == es + [e] + Init(rest) && Last(all) == Last(rest);
      FreedIsForgotten(es, e, Init(rest), n);
      SameStep(Run(map[], Init(all)), Run(map[], Init(rest)), Last(rest), n);
    }
  }

  lemma SameStep(cs: Candidates, cs': Candidates, e: Event, n: nat)
    requires CandidateAt(cs, n) == CandidateAt(cs', n) && (n in cs <==> n in cs')
    ensures CandidateAt(Step(cs, e), n) == CandidateAt(Step(cs', e), n) && (n in Step(cs, e) <==> n in Step(cs', e))
  {
    hide AddEndorsement, AddCommit, AddProposal;
  }

  /** Endorser 1 endorses 7 and then 8, endorser 2 endorses 8: 8 has two endorsers. */
  method SecondEndorsementCounts(n: nat, sig: seq<byte>) returns (r: Endorsed)
    ensures r == Done(8, false)
  {
    hide Backers, EmptyBackers, AddEndorsement, Orderly;
    var pool := new Pool(0);
    NobodyYet();
    pool.NewBlockEndorsement(n, 1, EndorseSig(7, sig, false));
    pool.NewBlockEndorsement(n, 1, EndorseSig(8, sig, false));
    pool.NewBlockEndorsement(n, 2, EndorseSig(8, sig, false));
    ghost var sigs := pool.candidateBlocks[n].sigs;
    assert Backers(sigs, 8) == {1, 2} && EmptyBackers(sigs) == {};
    assert forall p :: p != 8 ==> |Backers(sigs, p)| <= 1;
    r := pool.EndorseDone(n, 1);
    assert EndorseQuorum(sigs, 1);
  }

  lemma NobodyYet()
    ensures EmptyBackers(NEW_CANDIDATE.sigs) == {} && forall p :: Backers(NEW_CANDIDATE.sigs, p) == {}
  {
  }
}

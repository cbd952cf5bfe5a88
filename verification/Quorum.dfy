/** Why the commit quorum of VBFT is safe: two reports of a committed proposer,
    at any two nodes and by either of the two checks, rest on common supporters. */
module Quorum {
  import opened Hashing
  import opened BlockPool

  /** The peers whose support for p a node's candidate shows: the signers of
      commits for p, the endorsers of p, and p itself if a commit names it. */
  ghost function Support(c: Candidate, p: Peer): set<Peer> {
    Signers(c.commits, p) + (if Named(c.commits, p) then {p} else {}) + Backers(c.sigs, p)
  }

  /** The configuration of a chain of the given peers: C = N/3. */
  ghost predicate Configured(peers: set<Peer>, C: nat, N: nat) {
    N == |peers| && N > 0 && C == N / 3
  }

  /** p signed a commit for its own proposal, so the commit check counts it twice. */
  ghost predicate Own(c: Candidate, p: Peer) {
    p in Signers(c.commits, p)
  }

  /** How many supporters every report has. */
  function LeastSupport(N: nat, own: bool): nat
    requires N > 0
  {
    if own then N - 1 - (N - 1) / 3 else N - N / 3
  }

  lemma SupportIsLarge(c: Candidate, p: Peer, C: nat, N: nat)
    requires N > 0 && C == N / 3 && Reported(c, C, N, p)
    ensures |Support(c, p)| >= LeastSupport(N, Own(c, p)) && Support(c, p) != {}
  {
    if CommitQuorum(c.commits, N, p) {
      SubsetSize(Signers(c.commits, p) + {p}, Support(c, p));
      assert Own(c, p) ==> Signers(c.commits, p) + {p} == Signers(c.commits, p);
      assert p in Support(c, p);
    } else {
      SubsetSize(Backers(c.sigs, p), Support(c, p));
    }
  }

  lemma Overlap(a: set<Peer>, b: set<Peer>, peers: set<Peer>)
    requires a <= peers && b <= peers
    ensures |a * b| >= |a| + |b| - |peers|
    ensures |peers| == 1 && a != {} && b != {} ==> |a * b| >= 1
  {
    SubsetSize(a + b, peers);
    if |peers| == 1 && a != {} && b != {} {
      var x, y :| x in a && y in b;
      if x != y {
        SubsetSize({x, y}, peers);
      }
      SubsetSize({x}, a * b);
    }
  }

  /** Reports of two proposers with the given own signatures must overlap. */
  predicate Safe(N: nat, own1: bool, own2: bool) {
    N == 1 || N % 3 == 0 || (N % 3 == 2 && !(own1 && own2)) || (!own1 && !own2)
  }

  /** Two nodes of the same chain report p and q. */
  ghost predicate BothReport(c1: Candidate, p: Peer, c2: Candidate, q: Peer, peers: set<Peer>, N: nat) {
    && Configured(peers, N / 3, N) && Support(c1, p) <= peers && Support(c2, q) <= peers
    && Reported(c1, N / 3, N, p) && Reported(c2, N / 3, N, q)
  }

  /** Two reports have more than (N-1)/3 supporters in common. */
  lemma ReportsShareSupporters(c1: Candidate, p: Peer, c2: Candidate, q: Peer, peers: set<Peer>, N: nat)
    requires BothReport(c1, p, c2, q, peers, N) && Safe(N, Own(c1, p), Own(c2, q))
    ensures |Support(c1, p) * Support(c2, q)| >= (N - 1) / 3 + 1
  {
    hide Support, Own, Reported;
    SupportIsLarge(c1, p, N / 3, N);
    SupportIsLarge(c2, q, N / 3, N);
    Overlap(Support(c1, p), Support(c2, q), peers);
  }

  // --- runs

  /** Message e, for height n, carries a signature of x in favour of p. An
      endorsement of an empty block favours nobody. */
  ghost predicate Signed(e: Event, n: nat, x: Peer, p: Peer) {
    match e
    case Propose(m) => m.blockNum == n && m.proposer == x == p
    case Endorse(blkNum, endorser, s) => blkNum == n && endorser == x && s.proposer == p && !s.forEmpty
    case CommitTo(m) =>
      m.blockNum == n && m.proposer == p && (x == m.committer || x in m.endorsersSig || x == m.proposer)
    case _ => false
  }

  ghost predicate SignedIn(es: seq<Event>, n: nat, x: Peer, p: Peer) {
    exists e :: e in es && Signed(e, n, x, p)
  }

  lemma CommitSupport(c: Candidate, m: Commit, p: Peer, x: Peer)
    requires x in Support(AddCommit(c, m).0, p)
    ensures x in Support(c, p) || Signed(CommitTo(m), m.blockNum, x, p)
  {
    hide Backers, AddCarried, AddEndorsement;
    var ms := c.commits + [m];
    assert Init(ms) == c.commits && Last(ms) == m;
    if AddCommit(c, m).0 != c && !Signed(CommitTo(m), m.blockNum, x, p) {
      if x in Backers(AddCommit(c, m).0.sigs, p) {
        var own := EndorseSig(m.proposer, m.committerSig, m.forEmpty);
        CommitmentIsRecorded(AddCarried(c.sigs, m), m.committer, own, p);
        CarriedAreRecorded(c.sigs, m, p);
      }
      assert Named(ms, p) ==> m.proposer == p || Named(c.commits, p);
    }
  }

  /** A step adds no support but what its message signs. */
  lemma StepSupport(cs: Candidates, e: Event, n: nat, p: Peer, x: Peer)
    requires x in Support(CandidateAt(Step(cs, e), n), p)
    ensures x in Support(CandidateAt(cs, n), p) || Signed(e, n, x, p)
  {
    hide Backers, Signers, AddEndorsement, AddCommit;
    match e
    case Propose(m) =>
      var c := CandidateAt(cs, n);
      if m.blockNum == n && AddProposal(c, m).0 != c && x in Backers(AddProposal(c, m).0.sigs, p) {
        EndorsementIsRecorded(c.sigs, m.proposer, EndorseSig(m.proposer, m.sig, false), p);
      }
    case Endorse(blkNum, endorser, s) =>
      var c := CandidateAt(cs, n);
      if blkNum == n && x in Backers(AddEndorsement(c.sigs, endorser, s, false), p) {
        EndorsementIsRecorded(c.sigs, endorser, s, p);
      }
    case CommitTo(m) =>
      if m.blockNum == n {
        CommitSupport(CandidateAt(cs, n), m, p, x);
      }
    case Sealed(_, _) => NoSupport(p);
    case Cleaned => NoSupport(p);
    case CommitOwn(_, _) =>
  }

  /** After every run, whoever shows up as a supporter has signed a message. */
  lemma {:induction false} SupportIsSigned(es: seq<Event>, n: nat, p: Peer, x: Peer)
    requires x in Support(CandidateAt(Run(map[], es), n), p)
    ensures SignedIn(es, n, x, p)
  {
    hide Support, Signed;
    if es == [] {
      NoSupport(p);
    } else {
      StepSupport(Run(map[], Init(es)), Last(es), n, p, x);
      if x in Support(CandidateAt(Run(map[], Init(es)), n), p) {
        SupportIsSigned(Init(es), n, p, x);
      }
    }
  }

  lemma NoSupport(p: Peer)
    ensures Support(NEW_CANDIDATE, p) == {}
  {
  }

  /** Only peers sign the messages for height n. */
  ghost predicate SignedByPeers(es: seq<Event>, n: nat, peers: set<Peer>) {
    forall x, p :: SignedIn(es, n, x, p) ==> x in peers
  }

  /** A commit to p for height n carries a commit or endorsement signature of p. */
  ghost predicate OwnSigned(e: Event, n: nat, p: Peer) {
    && e.CommitTo? && e.commit.blockNum == n && e.commit.proposer == p
    && (p == e.commit.committer || p in e.commit.endorsersSig)
  }

  ghost predicate OwnIn(es: seq<Event>, n: nat, p: Peer) {
    exists e :: e in es && OwnSigned(e, n, p)
  }

  lemma {:induction false} OwnIsSigned(es: seq<Event>, n: nat, p: Peer)
    requires Own(CandidateAt(Run(map[], es), n), p)
    ensures OwnIn(es, n, p)
  {
    if es == [] {
    } else {
      var before, e := CandidateAt(Run(map[], Init(es)), n), Last(es);
      if Own(before, p) {
        OwnIsSigned(Init(es), n, p);
      } else {
        OwnByStep(Run(map[], Init(es)), e, n, p);
      }
    }
  }

  lemma OwnByStep(cs: Candidates, e: Event, n: nat, p: Peer)
    requires Own(CandidateAt(Step(cs, e), n), p) && !Own(CandidateAt(cs, n), p)
    ensures OwnSigned(e, n, p)
  {
    hide AddEndorsement, AddCarried;
    var before := CandidateAt(cs, n).commits;
    if e.CommitTo? {
      assert Init(before + [e.commit]) == before;
    }
  }

  /** x has signed for two different proposers of height n. */
  ghost predicate SignsTwo(runs: seq<seq<Event>>, n: nat, x: Peer) {
    exists i, j, p, q ::
      0 <= i < |runs| && 0 <= j < |runs| && p != q && SignedIn(runs[i], n, x, p) && SignedIn(runs[j], n, x, q)
  }

  /** Nodes i and j of a chain, each of which received its own messages in its own
      order, report p and q, and at most (N-1)/3 peers sign for two proposers. */
  ghost predicate RunsReport(runs: seq<seq<Event>>, i: nat, p: Peer, j: nat, q: Peer, n: nat, peers: set<Peer>,
                             N: nat)
  {
    && Configured(peers, N / 3, N) && i < |runs| && j < |runs|
    && SignedByPeers(runs[i], n, peers) && SignedByPeers(runs[j], n, peers)
    && Reported(CandidateAt(Run(map[], runs[i]), n), N / 3, N, p)
    && Reported(CandidateAt(Run(map[], runs[j]), n), N / 3, N, q)
    && |set x | x in peers && SignsTwo(runs, n, x)| <= (N - 1) / 3
  }

  lemma SupportedByPeers(es: seq<Event>, n: nat, peers: set<Peer>, p: Peer)
    requires SignedByPeers(es, n, peers)
    ensures Support(CandidateAt(Run(map[], es), n), p) <= peers
  {
    hide Support, SignedIn, Run;
    forall x | x in Support(CandidateAt(Run(map[], es), n), p)
      ensures x in peers
    {
      SupportIsSigned(es, n, p, x);
    }
  }

  /** Nodes that receive any messages in any order never report two proposers. */
  lemma RunsAgree(runs: seq<seq<Event>>, i: nat, p: Peer, j: nat, q: Peer, n: nat, peers: set<Peer>, N: nat)
    requires RunsReport(runs, i, p, j, q, n, peers, N)
    requires Safe(N, OwnIn(runs[i], n, p), OwnIn(runs[j], n, q))
    ensures p == q
  {
    hide Support, SignedIn, Reported, Run, CandidateAt, SignedByPeers, Own, OwnIn;
    var c1, c2 := CandidateAt(Run(map[], runs[i]), n), CandidateAt(Run(map[], runs[j]), n);
    SupportedByPeers(runs[i], n, peers, p);
    SupportedByPeers(runs[j], n, peers, q);
    if Own(c1, p) {
      OwnIsSigned(runs[i], n, p);
    }
    if Own(c2, q) {
      OwnIsSigned(runs[j], n, q);
    }
    ReportsShareSupporters(c1, p, c2, q, peers, N);
    var common, double := Support(c1, p) * Support(c2, q), set x | x in peers && SignsTwo(runs, n, x);
    if p != q {
      forall x | x in common
        ensures x in double
      {
        SupportIsSigned(runs[i], n, p, x);
        SupportIsSigned(runs[j], n, q, x);
      }
      SubsetSize(common, double);
    }
  }

  // --- the condition on own signatures is exact

  const MAX_PEERS: nat := 0xFFFF_FFFF

  /** The peers lo, lo + 1, ..., hi - 1. */
  ghost function Range(lo: nat, hi: nat): (r: set<Peer>)
    requires hi <= MAX_PEERS
    ensures forall x :: x in r <==> lo <= x < hi
    ensures |r| == if lo <= hi then hi - lo else 0
  {
    if lo < hi then Range(lo, hi - 1) + {hi - 1} else {}
  }

  /** A commit to p for height 1, signed by the committer and all of s but p. */
  ghost function CommitBy(p: Peer, committer: Peer, s: set<Peer>): Commit {
    Commit(1, committer, p, EMPTY_HASH, map e | e in s - {p} :: [], [], false)
  }

  lemma SignersOfOne(p: Peer, committer: Peer, s: set<Peer>)
    requires p in s && committer in s
    ensures Signers([CommitBy(p, committer, s)], p) == if committer == p then s else s - {p}
  {
    var m := CommitBy(p, committer, s);
    assert Init([m]) == [] && Last([m]) == m;
    assert m.endorsersSig.Keys == s - {p};
    assert Signers([m], p) == {} + SignersOf(m, p);
  }

  lemma FirstCommit(m: Commit)
    ensures CandidateAt(Run(map[], [CommitTo(m)]), m.blockNum) == AddCommit(NEW_CANDIDATE, m).0
    ensures AddCommit(NEW_CANDIDATE, m).0.commits == [m]
  {
    hide AddCarried, AddEndorsement;
    var e := CommitTo(m);
    assert Init([e]) == [] && Last([e]) == e && Run(map[], []) == map[];
  }

  lemma SupportOfOne(p: Peer, committer: Peer, s: set<Peer>)
    requires p in s && committer in s
    ensures var c := AddCommit(NEW_CANDIDATE, CommitBy(p, committer, s)).0;
            Support(c, p) == s && (Own(c, p) <==> committer == p)
  {
    hide Backers, AddCommit, Signers;
    var m := CommitBy(p, committer, s);
    var c := AddCommit(NEW_CANDIDATE, m).0;
    FirstCommit(m);
    SignersOfOne(p, committer, s);
    assert [m][0].proposer == p;
    forall x | x in Support(c, p)
      ensures x in s
    {
      CommitSupport(NEW_CANDIDATE, m, p, x);
      NoSupport(p);
    }
  }

  /** The supporters that a report by commits needs. */
  function Needed(N: nat, own: bool): (n: nat)
    requires N > 0
    ensures n <= N
  {
    N - (N - 1) / 3 - (if own then 1 else 0)
  }

  lemma OneIsReported(p: Peer, committer: Peer, s: set<Peer>, N: nat)
    requires N > 0 && p in s && committer in s && |s| == Needed(N, committer == p)
    ensures Reported(AddCommit(NEW_CANDIDATE, CommitBy(p, committer, s)).0, N / 3, N, p)
  {
    hide Backers, AddCommit, Signers;
    var m := CommitBy(p, committer, s);
    FirstCommit(m);
    SignersOfOne(p, committer, s);
    assert [m][0].proposer == p;
  }

  /** Two commits, to the first and to the last of N peers, with as few signers as
      a report needs. */
  ghost function First(N: nat, own: bool): Commit
    requires 2 <= N <= MAX_PEERS
  {
    CommitBy(0, if own then 0 else 1, Range(0, Needed(N, own)))
  }

  ghost function Final(N: nat, own: bool): Commit
    requires 2 <= N <= MAX_PEERS
  {
    CommitBy(N - 1, if own then N - 1 else N - 2, Range(N - Needed(N, own), N))
  }

  /** The node that received nothing but m. */
  ghost function After(m: Commit): Candidate {
    AddCommit(NEW_CANDIDATE, m).0
  }

  lemma FirstReports(N: nat, own: bool)
    requires 2 <= N <= MAX_PEERS && (own || N > 2)
    ensures var c := After(First(N, own));
            Reported(c, N / 3, N, 0) && Support(c, 0) == Range(0, Needed(N, own)) && (Own(c, 0) <==> own)
  {
    hide Reported, Support, Own, CommitBy, AddCommit;
    var s, committer := Range(0, Needed(N, own)), if own then 0 else 1;
    SupportOfOne(0, committer, s);
    OneIsReported(0, committer, s, N);
  }

  lemma NeededBounds(N: nat, own: bool)
    requires 2 <= N && (own || N > 2)
    ensures (if own then 1 else 2) <= Needed(N, own) <= N
  {
  }

  lemma FinalReports(N: nat, own: bool)
    requires 2 <= N <= MAX_PEERS && (own || N > 2)
    ensures var c := After(Final(N, own));
            && Reported(c, N / 3, N, N - 1) && Support(c, N - 1) == Range(N - Needed(N, own), N)
            && (Own(c, N - 1) <==> own)
  {
    hide Reported, Support, Own, CommitBy, AddCommit, Range, Needed;
    NeededBounds(N, own);
    var s, committer := Range(N - Needed(N, own), N), if own then N - 1 else N - 2;
    SupportOfOne(N - 1, committer, s);
    OneIsReported(N - 1, committer, s, N);
  }

  lemma SmallOverlap(N: nat, own1: bool, own2: bool)
    requires 0 < N <= MAX_PEERS && !Safe(N, own1, own2)
    ensures N >= 2 && (N > 2 || (own1 && own2))
    ensures var common := Range(0, Needed(N, own1)) * Range(N - Needed(N, own2), N);
            common == Range(N - Needed(N, own2), Needed(N, own1)) && |common| <= (N - 1) / 3
  {
    hide Range;
    var lo, hi := N - Needed(N, own2), Needed(N, own1);
    assert Range(0, hi) * Range(lo, N) == Range(lo, hi);
  }

  /** Every two reports with these own signatures overlap. */
  ghost predicate AlwaysShare(N: nat, own1: bool, own2: bool) {
    forall c1, p, c2, q, peers ::
      BothReport(c1, p, c2, q, peers, N) && (Own(c1, p) <==> own1) && (Own(c2, q) <==> own2) ==>
        |Support(c1, p) * Support(c2, q)| >= (N - 1) / 3 + 1
  }

  /** Reports overlap exactly if the number of peers and the own signatures are
      safe. */
  lemma SharingIsExact(N: nat, own1: bool, own2: bool)
    requires 0 < N <= MAX_PEERS
    ensures Safe(N, own1, own2) <==> AlwaysShare(N, own1, own2)
  {
    hide Support, Own, Reported, Range, After;
    if Safe(N, own1, own2) {
      forall c1, p, c2, q, peers
        | BothReport(c1, p, c2, q, peers, N) && (Own(c1, p) <==> own1) && (Own(c2, q) <==> own2)
        ensures |Support(c1, p) * Support(c2, q)| >= (N - 1) / 3 + 1
      {
        ReportsShareSupporters(c1, p, c2, q, peers, N);
      }
    } else {
      SmallOverlap(N, own1, own2);
      FirstReports(N, own1);
      FinalReports(N, own2);
      RangesOfAll(N, own1, own2);
      assert BothReport(After(First(N, own1)), 0, After(Final(N, own2)), N - 1, Range(0, N), N);
    }
  }

  lemma RangesOfAll(N: nat, own1: bool, own2: bool)
    requires 2 <= N <= MAX_PEERS
    ensures Range(0, Needed(N, own1)) <= Range(0, N) && Range(N - Needed(N, own2), N) <= Range(0, N)
  {
  }

  ghost predicate AlwaysAgree(N: nat, own1: bool, own2: bool) {
    forall runs, i, p, j, q, n, peers ::
      RunsReport(runs, i, p, j, q, n, peers, N) && (OwnIn(runs[i], n, p) <==> own1) &&
      (OwnIn(runs[j], n, q) <==> own2) ==>
        p == q
  }

  ghost function TwoRuns(N: nat, own1: bool, own2: bool): seq<seq<Event>>
    requires 2 <= N <= MAX_PEERS
  {
    [[CommitTo(First(N, own1))], [CommitTo(Final(N, own2))]]
  }

  lemma SignedInOne(p: Peer, committer: Peer, s: set<Peer>, n: nat, x: Peer, q: Peer)
    requires p in s && committer in s
    ensures SignedIn([CommitTo(CommitBy(p, committer, s))], n, x, q) <==> n == 1 && q == p && x in s
    ensures OwnIn([CommitTo(CommitBy(p, committer, s))], 1, p) <==> committer == p
  {
    var e := CommitTo(CommitBy(p, committer, s));
    assert e in [e];
  }

  lemma TwoRunsSign(N: nat, own1: bool, own2: bool, n: nat, x: Peer, q: Peer)
    requires 2 <= N <= MAX_PEERS && (own1 || N > 2) && (own2 || N > 2)
    ensures var runs := TwoRuns(N, own1, own2);
            && (SignedIn(runs[0], n, x, q) <==> n == 1 && q == 0 && x in Range(0, Needed(N, own1)))
            && (SignedIn(runs[1], n, x, q) <==> n == 1 && q == N - 1 && x in Range(N - Needed(N, own2), N))
            && (OwnIn(runs[0], 1, 0) <==> own1) && (OwnIn(runs[1], 1, N - 1) <==> own2)
  {
    hide SignedIn, OwnIn, CommitBy, Range, Needed;
    NeededBounds(N, own1);
    NeededBounds(N, own2);
    SignedInOne(0, if own1 then 0 else 1, Range(0, Needed(N, own1)), n, x, q);
    SignedInOne(N - 1, if own2 then N - 1 else N - 2, Range(N - Needed(N, own2), N), n, x, q);
  }

  lemma FewSignTwo(N: nat, own1: bool, own2: bool)
    requires 0 < N <= MAX_PEERS && !Safe(N, own1, own2)
    ensures N >= 2 && |set x | x in Range(0, N) && SignsTwo(TwoRuns(N, own1, own2), 1, x)| <= (N - 1) / 3
  {
    hide SignedIn, Range, TwoRuns, Needed;
    SmallOverlap(N, own1, own2);
    var runs := TwoRuns(N, own1, own2);
    var double := set x | x in Range(0, N) && SignsTwo(runs, 1, x);
    var common := Range(0, Needed(N, own1)) * Range(N - Needed(N, own2), N);
    forall x | x in double
      ensures x in common
    {
      TwoRunsCount(N, own1, own2);
      var i, j, p, q :| 0 <= i < |runs| && 0 <= j < |runs| && p != q
                        && SignedIn(runs[i], 1, x, p) && SignedIn(runs[j], 1, x, q);
      TwoRunsSign(N, own1, own2, 1, x, p);
      TwoRunsSign(N, own1, own2, 1, x, q);
    }
    SubsetSize(double, common);
  }

  lemma TwoRunsCount(N: nat, own1: bool, own2: bool)
    requires 2 <= N <= MAX_PEERS
    ensures |TwoRuns(N, own1, own2)| == 2
  {
  }

  lemma TwoRunsReport(N: nat, own1: bool, own2: bool)
    requires 0 < N <= MAX_PEERS && !Safe(N, own1, own2)
    ensures N >= 2 && |TwoRuns(N, own1, own2)| == 2
    ensures RunsReport(TwoRuns(N, own1, own2), 0, 0, 1, N - 1, 1, Range(0, N), N)
  {
    hide Reported, Range, Run, SignedIn, Support, Own, CandidateAt, SignsTwo, AddCommit;
    SmallOverlap(N, own1, own2);
    FewSignTwo(N, own1, own2);
    FirstReports(N, own1);
    FinalReports(N, own2);
    FirstCommit(First(N, own1));
    FirstCommit(Final(N, own2));
    var runs := TwoRuns(N, own1, own2);
    RangesOfAll(N, own1, own2);
    forall x, p
      ensures SignedIn(runs[0], 1, x, p) || SignedIn(runs[1], 1, x, p) ==> x in Range(0, N)
    {
      TwoRunsSign(N, own1, own2, 1, x, p);
    }
  }

  /** The conditions can be met: in a chain of three or more peers one commit with
      enough signatures makes a node report, with nobody signing twice. */
  lemma RunsDoReport(N: nat)
    requires 3 <= N <= MAX_PEERS
    ensures var runs := [[CommitTo(First(N, false))]];
            RunsReport(runs, 0, 0, 0, 0, 1, Range(0, N), N) && Safe(N, OwnIn(runs[0], 1, 0), OwnIn(runs[0], 1, 0))
  {
    hide Reported, Range, Run, SignedIn, OwnIn, Support, Own, CandidateAt, AddCommit;
    FirstReports(N, false);
    FirstCommit(First(N, false));
    var runs, two := [[CommitTo(First(N, false))]], TwoRuns(N, false, false);
    RangesOfAll(N, false, false);
    assert runs[0] == two[0];
    forall x, p
      ensures SignedIn(runs[0], 1, x, p) ==> x in Range(0, N) && p == 0
    {
      TwoRunsSign(N, false, false, 1, x, p);
    }
    assert forall x :: !SignsTwo(runs, 1, x);
    TwoRunsSign(N, false, false, 1, 0, 0);
    assert (set x | x in Range(0, N) && SignsTwo(runs, 1, x)) == {};
  }

  /** All nodes agree, over all runs, exactly if the number of peers and the own
      signatures are safe. */
  lemma AgreementIsExact(N: nat, own1: bool, own2: bool)
    requires 0 < N <= MAX_PEERS
    ensures Safe(N, own1, own2) <==> AlwaysAgree(N, own1, own2)
  {
    hide OwnIn, TwoRuns, Range, SignedByPeers, Reported, Run, SignsTwo;
    if Safe(N, own1, own2) {
      forall runs, i, p, j, q, n, peers
        | RunsReport(runs, i, p, j, q, n, peers, N)
          && (OwnIn(runs[i], n, p) <==> own1) && (OwnIn(runs[j], n, q) <==> own2)
        ensures p == q
      {
        RunsAgree(runs, i, p, j, q, n, peers, N);
      }
    } else {
      TwoRunsReport(N, own1, own2);
      SmallOverlap(N, own1, own2);
      TwoRunsSign(N, own1, own2, 1, 0, 0);
    }
  }
}

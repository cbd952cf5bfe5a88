/** Selection of the participants of a block from the VRF of the previous one:
    calcParticipant, calcParticipantPeers and buildParticipantConfig of
    consensus/vbft/node_utils.go. */
module Participants {
  import opened Hashing

  const VRF_SIZE: nat := 64
  const MAX_PROPOSERS: nat := 32
  const MAX_ENDORSERS: nat := 240
  const MAX_COMMITTERS: nat := 240
  const DRAWS: nat := 512

  type Vrf = v: seq<byte> | |v| == VRF_SIZE witness seq(VRF_SIZE, _ => 0)

  const POWERS: seq<nat> := [1, 2, 4, 8, 16, 32, 64, 128, 256, 512, 1024, 2048, 4096, 8192, 16384, 32768]

  /** 1 shifted left by n. */
  function Shift(n: nat): (p: nat)
    requires n < 16
    ensures p > 0
  {
    POWERS[n]
  }

  /** Byte i of the VRF, taken as a ring. */
  function ByteOf(vrf: Vrf, i: nat): (b: nat)
    requires i <= VRF_SIZE
    ensures b < 256
  {
    if i < VRF_SIZE then vrf[i] as nat else vrf[0] as nat
  }

  /** The 16 bits of two neighbouring bytes, least significant first, shifted
      right to start at bit k. */
  function Window(vrf: Vrf, k: nat): nat
    requires k < DRAWS
  {
    (ByteOf(vrf, k / 8) + 256 * ByteOf(vrf, k / 8 + 1)) / Shift(k % 8)
  }

  /** The peer drawn by draw k. */
  function Draw(vrf: Vrf, posTable: seq<nat>, k: nat): (p: nat)
    requires k < DRAWS && posTable != []
    ensures p in posTable
  {
    posTable[Window(vrf, k) % |posTable|]
  }

  /** A byte shifted by s below and its neighbour shifted by 8 - s above make the
      16-bit window shifted by s; the mask in between changes nothing. */
  lemma WindowByShifts(lo: nat, hi: nat, s: nat)
    requires lo < 256 && hi < 256 && s < 8
    ensures (hi % Shift(8 + s)) * Shift(8 - s) + lo / Shift(s) == (lo + 256 * hi) / Shift(s)
  {
    match s
    case 0 => case 1 => case 2 => case 3 => case 4 => case 5 => case 6 => case 7 =>
  }

  /** None behind the last draw. */
  method CalcParticipant(vrf: Vrf, dposTable: seq<nat>, k: nat) returns (r: Option<nat>)
    requires dposTable != []
    ensures r == if k < DRAWS then Some(Draw(vrf, dposTable, k)) else None
  {
    var bIdx, bits1 := k / 8, k % 8;
    var bits2 := 8 + bits1;
    if k >= DRAWS {
      return None;
    }
    var v1 := vrf[bIdx] as nat / Shift(bits1);
    var v2: nat;
    if bIdx + 1 < |vrf| {
      v2 := vrf[bIdx + 1] as nat;
    } else {
      v2 := vrf[0] as nat;
    }
    WindowByShifts(vrf[bIdx] as nat, v2, bits1);
    v2 := v2 % Shift(bits2);
    var v := v2 * Shift(8 - bits1) + v1;
    return Some(dposTable[v % |dposTable|]);
  }

  // --- selecting peers

  /** The peers of draws start..stop that are not excluded, each once, in the
      order of their first draw. */
  function Picks(vrf: Vrf, posTable: seq<nat>, excluded: set<nat>, start: nat, stop: nat): (r: seq<nat>)
    requires start <= stop <= DRAWS && posTable != []
    ensures |r| <= stop - start
    ensures forall i :: 0 <= i < |r| ==> r[i] in posTable && r[i] !in excluded
    ensures forall i, j :: 0 <= i < j < |r| ==> r[i] != r[j]
    decreases stop - start
  {
    if stop == start then []
    else
      var before, p := Picks(vrf, posTable, excluded, start, stop - 1), Draw(vrf, posTable, stop - 1);
      if p in excluded || p in before then before else before + [p]
  }

  datatype Role = Proposer | Endorser | Committer

  /** First draw of a role, and the end that the source identifies the role by. */
  function FirstDraw(role: Role): nat {
    match role
    case Proposer => 0
    case Endorser => MAX_PROPOSERS
    case Committer => MAX_PROPOSERS + MAX_ENDORSERS
  }

  function LastDraw(role: Role): nat {
    match role
    case Proposer => MAX_PROPOSERS
    case Endorser => MAX_PROPOSERS + MAX_ENDORSERS
    case Committer => MAX_PROPOSERS + MAX_ENDORSERS + MAX_COMMITTERS
  }

  /** A selection stops after the N-th peer, but not before the first. */
  function AtLeastOne(N: nat): nat {
    if N == 0 then 1 else N
  }

  /** Draw i completes a selection of n peers: all peers, or for proposers more
      than C after draw 32, for the others 2C + 1. */
  predicate Enough(role: Role, n: nat, i: nat, C: nat, N: nat) {
    (n > 0 && n >= N) || (if role.Proposer? then i >= MAX_PROPOSERS && n > C else n > 2 * C)
  }

  /** The peers of the first proposers, as many as make C different ones, but at
      least one. */
  ghost function FirstProposers(proposers: seq<nat>, C: nat): set<nat>
    decreases |proposers|
  {
    if proposers == [] then {}
    else
      var before := FirstProposers(Init(proposers), C);
      if |proposers| > 1 && |before| >= C then before else before + {Last(proposers)}
  }

  /** For distinct proposers and C > 0 they are simply the first C. */
  lemma {:induction false} FirstProposersOfDistinct(proposers: seq<nat>, C: nat)
    requires C > 0 && forall i, j :: 0 <= i < j < |proposers| ==> proposers[i] != proposers[j]
    ensures |proposers| <= C ==> |FirstProposers(proposers, C)| == |proposers|
    ensures |proposers| >= C ==> |FirstProposers(proposers, C)| == C
    ensures forall x ::
              x in FirstProposers(proposers, C) <==> exists i :: 0 <= i < |proposers| && i < C && proposers[i] == x
    decreases |proposers|
  {
    if proposers == [] {
    } else {
      var p := Init(proposers);
      FirstProposersOfDistinct(p, C);
      assert forall i :: 0 <= i < |p| ==> p[i] == proposers[i];
      assert Last(proposers) == proposers[|p|];
      if |proposers| <= C {
        assert Last(proposers) !in FirstProposers(p, C);
      }
    }
  }

  /** With C == 0 it is the first one. */
  lemma {:induction false} FirstProposersOfNone(proposers: seq<nat>)
    requires proposers != []
    ensures FirstProposers(proposers, 0) == {proposers[0]}
    decreases |proposers|
  {
    if |proposers| == 1 {
    } else {
      FirstProposersOfNone(Init(proposers));
    }
  }

  method ExcludedProposers(proposers: seq<nat>, C: nat) returns (proposerMap: set<nat>)
    ensures proposerMap == FirstProposers(proposers, C)
  {
    hide FirstProposers;
    proposerMap := {};
    NoFirstProposers(C);
    for i := 0 to |proposers|
      invariant proposerMap == FirstProposers(proposers[..i], C)
      invariant i > 0 ==> |proposerMap| < C
    {
      FirstProposersStep(proposers, i, C);
      proposerMap := proposerMap + {proposers[i]};
      if |proposerMap| >= C {
        EnoughProposers(proposers, i + 1, C);
        return;
      }
    }
    assert proposers[..|proposers|] == proposers;
  }

  lemma NoFirstProposers(C: nat)
    ensures FirstProposers([], C) == {}
  {
  }

  lemma FirstProposersStep(proposers: seq<nat>, i: nat, C: nat)
    requires i < |proposers|
    ensures var before := FirstProposers(proposers[..i], C);
            FirstProposers(proposers[..i + 1], C) == if i > 0 && |before| >= C then before else before + {proposers[i]}
  {
    assert Init(proposers[..i + 1]) == proposers[..i];
  }

  lemma {:induction false} EnoughProposers(proposers: seq<nat>, i: nat, C: nat)
    requires 0 < i <= |proposers| && |FirstProposers(proposers[..i], C)| >= C
    ensures FirstProposers(proposers, C) == FirstProposers(proposers[..i], C)
    decreases |proposers|
  {
    if i < |proposers| {
      assert Init(proposers)[..i] == proposers[..i];
      EnoughProposers(Init(proposers), i, C);
    } else {
      assert proposers[..i] == proposers;
    }
  }

  /** The picks up to the first draw, from draw i on, that completes a selection;
      the empty list if none of the 512 draws does. */
  function Choice(vrf: Vrf, posTable: seq<nat>, excluded: set<nat>, role: Role, C: nat, N: nat, i: nat): (r: seq<nat>)
    requires FirstDraw(role) <= i <= DRAWS && posTable != []
    ensures forall k :: 0 <= k < |r| ==> r[k] in posTable && r[k] !in excluded
    ensures forall k, l :: 0 <= k < l < |r| ==> r[k] != r[l]
    decreases DRAWS - i
  {
    if i == DRAWS then []
    else
      var picks := Picks(vrf, posTable, excluded, FirstDraw(role), i + 1);
      if Enough(role, |picks|, i, C, N) then picks else Choice(vrf, posTable, excluded, role, C, N, i + 1)
  }

  /** The peers selected for a role. */
  function Selected(vrf: Vrf, posTable: seq<nat>, excluded: set<nat>, role: Role, C: nat, N: nat): (r: seq<nat>)
    requires posTable != []
    ensures forall k :: 0 <= k < |r| ==> r[k] in posTable && r[k] !in excluded
    ensures forall k, l :: 0 <= k < l < |r| ==> r[k] != r[l]
  {
    Choice(vrf, posTable, excluded, role, C, N, FirstDraw(role))
  }

  lemma ChoiceStep(vrf: Vrf, posTable: seq<nat>, excluded: set<nat>, role: Role, C: nat, N: nat, i: nat)
    requires FirstDraw(role) <= i < DRAWS && posTable != []
    ensures var picks := Picks(vrf, posTable, excluded, FirstDraw(role), i + 1);
            Choice(vrf, posTable, excluded, role, C, N, i) ==
            if Enough(role, |picks|, i, C, N) then picks else Choice(vrf, posTable, excluded, role, C, N, i + 1)
  {
  }

  lemma ChoiceEnds(vrf: Vrf, posTable: seq<nat>, excluded: set<nat>, role: Role, C: nat, N: nat)
    requires posTable != []
    ensures Choice(vrf, posTable, excluded, role, C, N, DRAWS) == []
  {
  }

  /** Draws until the selection is complete; the empty list when 512 draws do not
      suffice. */
  method CalcParticipantPeers(vrf: Vrf, posTable: seq<nat>, proposers: seq<nat>, role: Role, C: nat, N: nat)
    returns (peers: seq<nat>)
    requires posTable != []
    ensures peers == Selected(vrf, posTable, if role.Proposer? then {} else FirstProposers(proposers, C), role, C, N)
  {
    hide Picks, Draw, FirstProposers, Choice;
    peers := [];
    var proposerMap: set<nat> := {};
    if !role.Proposer? {
      proposerMap := ExcludedProposers(proposers, C);
    }
    ghost var result := Selected(vrf, posTable, proposerMap, role, C, N);
    var i, start := FirstDraw(role), FirstDraw(role);
    NoPicks(vrf, posTable, proposerMap, start);
    ChoiceEnds(vrf, posTable, proposerMap, role, C, N);
    while true
      invariant start <= i <= DRAWS && peers == Picks(vrf, posTable, proposerMap, start, i)
      invariant Choice(vrf, posTable, proposerMap, role, C, N, i) == result
      invariant |peers| < AtLeastOne(N) && (!role.Proposer? ==> |peers| <= 2 * C)
      decreases DRAWS - i
    {
      var drawn := CalcParticipant(vrf, posTable, i);
      if drawn.None? {
        return [];
      }
      var peerId := drawn.value;
      PicksStep(vrf, posTable, proposerMap, start, i);
      ChoiceStep(vrf, posTable, proposerMap, role, C, N, i);
      if !role.Proposer? && peerId in proposerMap {
        i := i + 1;
        continue;
      }
      if peerId !in peers {
        peers := peers + [peerId];
        if |peers| >= N {
          return;
        }
      }
      if role.Proposer? && i >= LastDraw(role) && |peers| > C {
        return;
      }
      if !role.Proposer? && |peers| > C * 2 {
        return;
      }
      i := i + 1;
    }
  }

  lemma NoPicks(vrf: Vrf, posTable: seq<nat>, excluded: set<nat>, start: nat)
    requires start <= DRAWS && posTable != []
    ensures Picks(vrf, posTable, excluded, start, start) == []
  {
  }

  lemma PicksStep(vrf: Vrf, posTable: seq<nat>, excluded: set<nat>, start: nat, i: nat)
    requires start <= i < DRAWS && posTable != []
    ensures var before, p := Picks(vrf, posTable, excluded, start, i), Draw(vrf, posTable, i);
            Picks(vrf, posTable, excluded, start, i + 1) ==
            if p in excluded || p in before then before else before + [p]
  {
  }

  // --- which draws select whom

  /** r lists the peers drawn by start..stop and not excluded, in the order of
      their first draws. */
  ghost predicate ListsDrawn(r: seq<nat>, vrf: Vrf, posTable: seq<nat>, excluded: set<nat>, start: nat, stop: nat)
    requires stop <= 512 && posTable != []
  {
    && (forall k :: start <= k < stop ==> Draw(vrf, posTable, k) in excluded || Draw(vrf, posTable, k) in r)
    && (forall j :: 0 <= j < |r| ==> DrawnAfter(r, vrf, posTable, start, stop, j))
  }

  /** r[j] is drawn, and before its first draw all of r[..j] are. */
  ghost predicate DrawnAfter(r: seq<nat>, vrf: Vrf, posTable: seq<nat>, start: nat, stop: nat, j: nat)
    requires stop <= 512 && posTable != [] && j < |r|
  {
    exists k :: FirstDrawn(r[j], vrf, posTable, start, stop, k) &&
                forall i :: 0 <= i < j ==> Drawn(r[i], vrf, posTable, start, k)
  }

  ghost predicate Drawn(p: nat, vrf: Vrf, posTable: seq<nat>, start: nat, stop: nat)
    requires stop <= 512 && posTable != []
  {
    exists k :: start <= k < stop && Draw(vrf, posTable, k) == p
  }

  ghost predicate FirstDrawn(p: nat, vrf: Vrf, posTable: seq<nat>, start: nat, stop: nat, k: nat)
    requires stop <= 512 && posTable != []
  {
    start <= k < stop && Draw(vrf, posTable, k) == p && !Drawn(p, vrf, posTable, start, k)
  }

  lemma {:induction false} PicksListDrawn(vrf: Vrf, posTable: seq<nat>, excluded: set<nat>, start: nat, stop: nat)
    requires start <= stop <= 512 && posTable != []
    ensures ListsDrawn(Picks(vrf, posTable, excluded, start, stop), vrf, posTable, excluded, start, stop)
    decreases stop - start
  {
    hide Draw, Picks;
    if stop == start {
      NoPicks(vrf, posTable, excluded, start);
    } else {
      var i := stop - 1;
      var before, after := Picks(vrf, posTable, excluded, start, i), Picks(vrf, posTable, excluded, start, stop);
      PicksListDrawn(vrf, posTable, excluded, start, i);
      PicksStep(vrf, posTable, excluded, start, i);
      forall j | 0 <= j < |after|
        ensures DrawnAfter(after, vrf, posTable, start, stop, j)
      {
        if j < |before| {
          DrawnAfterGrows(before, after, vrf, posTable, start, i, j);
        } else {
          DrawnLast(before, vrf, posTable, start, i);
        }
      }
      hide DrawnAfter;
    }
  }

  lemma DrawnAfterGrows(r: seq<nat>, r': seq<nat>, vrf: Vrf, posTable: seq<nat>, start: nat, stop: nat, j: nat)
    requires stop < 512 && posTable != [] && j < |r| && r <= r' && DrawnAfter(r, vrf, posTable, start, stop, j)
    ensures DrawnAfter(r', vrf, posTable, start, stop + 1, j)
  {
    hide Draw, Drawn;
    var k :| FirstDrawn(r[j], vrf, posTable, start, stop, k) &&
             forall i :: 0 <= i < j ==> Drawn(r[i], vrf, posTable, start, k);
    assert FirstDrawn(r'[j], vrf, posTable, start, stop + 1, k);
  }

  lemma DrawnLast(r: seq<nat>, vrf: Vrf, posTable: seq<nat>, start: nat, stop: nat)
    requires start <= stop < 512 && posTable != [] && Draw(vrf, posTable, stop) !in r
    requires forall j :: 0 <= j < |r| ==> DrawnAfter(r, vrf, posTable, start, stop, j)
    requires forall k :: start <= k < stop ==> Draw(vrf, posTable, k) != Draw(vrf, posTable, stop)
    ensures DrawnAfter(r + [Draw(vrf, posTable, stop)], vrf, posTable, start, stop + 1, |r|)
  {
    hide Draw;
    var r' := r + [Draw(vrf, posTable, stop)];
    assert FirstDrawn(r'[|r|], vrf, posTable, start, stop + 1, stop);
    forall i | 0 <= i < |r|
      ensures Drawn(r'[i], vrf, posTable, start, stop)
    {
      assert DrawnAfter(r, vrf, posTable, start, stop, i);
    }
  }

  /** The draws of proposers begin at 0, of endorsers at 32, of committers at 272. */
  function Begin(role: Role): nat {
    match role
    case Proposer => 0
    case Endorser => 32
    case Committer => 272
  }

  /** n peers after the draws before stop are a complete selection: all N of them,
      more than C proposers after 33 draws, or more than 2C of the others. */
  predicate Complete(role: Role, n: nat, stop: nat, C: nat, N: nat) {
    || (n > 0 && n >= N)
    || (role.Proposer? && stop >= 33 && n > C)
    || (!role.Proposer? && n > 2 * C)
  }

  /** The draws before stop complete the selection r. */
  ghost predicate StopsBefore(r: seq<nat>, vrf: Vrf, posTable: seq<nat>, excluded: set<nat>, role: Role, C: nat,
                              N: nat, stop: nat)
    requires posTable != []
  {
    && Begin(role) < stop <= 512 && r == Picks(vrf, posTable, excluded, Begin(role), stop)
    && Complete(role, |r|, stop, C, N) && Incomplete(vrf, posTable, excluded, role, C, N, stop)
  }

  /** No earlier draw completes a selection. */
  ghost predicate Incomplete(vrf: Vrf, posTable: seq<nat>, excluded: set<nat>, role: Role, C: nat, N: nat, stop: nat)
    requires stop <= 513 && posTable != []
  {
    forall i :: Begin(role) < i < stop ==> !Complete(role, |Picks(vrf, posTable, excluded, Begin(role), i)|, i, C, N)
  }

  lemma {:induction false} ChoiceStops(vrf: Vrf, posTable: seq<nat>, excluded: set<nat>, role: Role, C: nat, N: nat,
                                       i: nat)
    requires posTable != [] && Begin(role) <= i <= 512 && Incomplete(vrf, posTable, excluded, role, C, N, i + 1)
    ensures var r := Choice(vrf, posTable, excluded, role, C, N, i);
            || (exists stop :: StopsBefore(r, vrf, posTable, excluded, role, C, N, stop))
            || (r == [] && Incomplete(vrf, posTable, excluded, role, C, N, 513))
    decreases 512 - i
  {
    hide Picks, Choice, Draw;
    if i == 512 {
      ChoiceEnds(vrf, posTable, excluded, role, C, N);
    } else {
      ChoiceStep(vrf, posTable, excluded, role, C, N, i);
      var picks := Picks(vrf, posTable, excluded, Begin(role), i + 1);
      if Complete(role, |picks|, i + 1, C, N) {
        assert StopsBefore(picks, vrf, posTable, excluded, role, C, N, i + 1);
      } else {
        ChoiceStops(vrf, posTable, excluded, role, C, N, i + 1);
      }
    }
  }

  /** What is selected: the peers drawn, from the first draw of the role to the
      first one that completes the selection; nobody if none of the draws does. */
  lemma SelectionStops(vrf: Vrf, posTable: seq<nat>, excluded: set<nat>, role: Role, C: nat, N: nat)
    requires posTable != []
    ensures var r := Selected(vrf, posTable, excluded, role, C, N);
            if r == [] then Incomplete(vrf, posTable, excluded, role, C, N, 513)
            else exists stop ::
                   && StopsBefore(r, vrf, posTable, excluded, role, C, N, stop)
                   && ListsDrawn(r, vrf, posTable, excluded, Begin(role), stop)
  {
    hide Picks, Choice, Draw, ListsDrawn;
    ChoiceStops(vrf, posTable, excluded, role, C, N, Begin(role));
    var r := Selected(vrf, posTable, excluded, role, C, N);
    if r != [] {
      var stop :| StopsBefore(r, vrf, posTable, excluded, role, C, N, stop);
      PicksListDrawn(vrf, posTable, excluded, Begin(role), stop);
    }
  }

  /** The first one selected is the first one drawn outside the excluded peers,
      from draw 0, 32 or 272 on. */
  lemma FirstSelected(vrf: Vrf, posTable: seq<nat>, excluded: set<nat>, role: Role, C: nat, N: nat)
    requires posTable != [] && Selected(vrf, posTable, excluded, role, C, N) != []
    ensures exists k :: && Begin(role) <= k < 512
                        && Selected(vrf, posTable, excluded, role, C, N)[0] == Draw(vrf, posTable, k)
                        && forall i :: Begin(role) <= i < k ==> Draw(vrf, posTable, i) in excluded
  {
    hide Picks, Choice, Draw, Selected, Complete, Incomplete;
    SelectionStops(vrf, posTable, excluded, role, C, N);
    var r := Selected(vrf, posTable, excluded, role, C, N);
    var stop :| StopsBefore(r, vrf, posTable, excluded, role, C, N, stop) &&
                ListsDrawn(r, vrf, posTable, excluded, Begin(role), stop);
    FirstListed(r, vrf, posTable, excluded, Begin(role), stop);
  }

  lemma FirstListed(r: seq<nat>, vrf: Vrf, posTable: seq<nat>, excluded: set<nat>, start: nat, stop: nat)
    requires stop <= 512 && posTable != [] && r != [] && ListsDrawn(r, vrf, posTable, excluded, start, stop)
    ensures exists k :: && start <= k < stop && r[0] == Draw(vrf, posTable, k)
                        && forall i :: start <= i < k ==> Draw(vrf, posTable, i) in excluded
  {
    hide Draw;
    assert DrawnAfter(r, vrf, posTable, start, stop, 0);
    var k :| FirstDrawn(r[0], vrf, posTable, start, stop, k);
    hide ListsDrawn;
    forall i | start <= i < k
      ensures Draw(vrf, posTable, i) in excluded
    {
      FirstComesFirst(r, vrf, posTable, excluded, start, stop, i);
    }
  }

  lemma FirstComesFirst(r: seq<nat>, vrf: Vrf, posTable: seq<nat>, excluded: set<nat>, start: nat, stop: nat, i: nat)
    requires start <= i < stop <= 512 && posTable != [] && r != []
    requires ListsDrawn(r, vrf, posTable, excluded, start, stop)
    ensures Draw(vrf, posTable, i) in excluded || Drawn(r[0], vrf, posTable, start, i + 1)
  {
    hide Draw;
    if Draw(vrf, posTable, i) !in excluded {
      var j :| 0 <= j < |r| && r[j] == Draw(vrf, posTable, i);
      assert DrawnAfter(r, vrf, posTable, start, stop, j);
      var k: nat :| FirstDrawn(r[j], vrf, posTable, start, stop, k) &&
               forall h :: 0 <= h < j ==> Drawn(r[h], vrf, posTable, start, k);
      assert k <= i;
    }
  }

  /** With nobody excluded, that is the first draw of the role. */
  lemma FirstOfEachRole(vrf: Vrf, posTable: seq<nat>, C: nat, N: nat)
    requires posTable != []
    ensures var p := Selected(vrf, posTable, {}, Proposer, C, N); p != [] ==> p[0] == Draw(vrf, posTable, 0)
    ensures var e := Selected(vrf, posTable, {}, Endorser, C, N); e != [] ==> e[0] == Draw(vrf, posTable, 32)
    ensures var c := Selected(vrf, posTable, {}, Committer, C, N); c != [] ==> c[0] == Draw(vrf, posTable, 272)
  {
    hide Selected, Draw;
    if Selected(vrf, posTable, {}, Proposer, C, N) != [] {
      FirstSelected(vrf, posTable, {}, Proposer, C, N);
    }
    if Selected(vrf, posTable, {}, Endorser, C, N) != [] {
      FirstSelected(vrf, posTable, {}, Endorser, C, N);
    }
    if Selected(vrf, posTable, {}, Committer, C, N) != [] {
      FirstSelected(vrf, posTable, {}, Committer, C, N);
    }
  }

  ghost predicate SameDraws(vrf: Vrf, vrf': Vrf, posTable: seq<nat>, start: nat)
    requires posTable != []
  {
    forall k :: start <= k < 512 ==> Draw(vrf, posTable, k) == Draw(vrf', posTable, k)
  }

  lemma {:induction false} SamePicks(vrf: Vrf, vrf': Vrf, posTable: seq<nat>, excluded: set<nat>, start: nat, stop: nat)
    requires start <= stop <= 512 && posTable != [] && SameDraws(vrf, vrf', posTable, start)
    ensures Picks(vrf, posTable, excluded, start, stop) == Picks(vrf', posTable, excluded, start, stop)
    decreases stop - start
  {
    hide Draw;
    if stop == start {
    } else {
      SamePicks(vrf, vrf', posTable, excluded, start, stop - 1);
    }
  }

  lemma {:induction false} SameChoice(vrf: Vrf, vrf': Vrf, posTable: seq<nat>, excluded: set<nat>, role: Role, C: nat,
                                      N: nat, i: nat)
    requires posTable != [] && Begin(role) <= i <= 512 && SameDraws(vrf, vrf', posTable, Begin(role))
    ensures Choice(vrf, posTable, excluded, role, C, N, i) == Choice(vrf', posTable, excluded, role, C, N, i)
    decreases 512 - i
  {
    hide Draw, Picks, SameDraws, Choice;
    if i == 512 {
      ChoiceEnds(vrf, posTable, excluded, role, C, N);
      ChoiceEnds(vrf', posTable, excluded, role, C, N);
    } else {
      ChoiceStep(vrf, posTable, excluded, role, C, N, i);
      ChoiceStep(vrf', posTable, excluded, role, C, N, i);
      SamePicks(vrf, vrf', posTable, excluded, Begin(role), i + 1);
      SameChoice(vrf, vrf', posTable, excluded, role, C, N, i + 1);
    }
  }

  /** Seeds that agree on the draws from 0, 32 or 272 on select the same
      proposers, endorsers or committers. */
  lemma SameSelection(vrf: Vrf, vrf': Vrf, posTable: seq<nat>, excluded: set<nat>, role: Role, C: nat, N: nat)
    requires posTable != [] && SameDraws(vrf, vrf', posTable, Begin(role))
    ensures Selected(vrf, posTable, excluded, role, C, N) == Selected(vrf', posTable, excluded, role, C, N)
  {
    hide Draw, Choice;
    SameChoice(vrf, vrf', posTable, excluded, role, C, N, Begin(role));
  }

  /** Draw 8q + s reads the 16 bits of bytes q and q + 1 from bit s on, and the
      last byte is followed by the first. */
  lemma DrawBits(vrf: Vrf, posTable: seq<nat>, q: nat, s: nat)
    requires posTable != [] && q < 64 && s < 8
    ensures var lo, hi := vrf[q] as nat, if q == 63 then vrf[0] as nat else vrf[q + 1] as nat;
            var bits := [lo + 256 * hi, (lo + 256 * hi) / 2, (lo + 256 * hi) / 4, (lo + 256 * hi) / 8,
                         (lo + 256 * hi) / 16, (lo + 256 * hi) / 32, (lo + 256 * hi) / 64, (lo + 256 * hi) / 128];
            Draw(vrf, posTable, 8 * q + s) == posTable[bits[s] % |posTable|]
  {
    assert (8 * q + s) / 8 == q && (8 * q + s) % 8 == s;
  }

  // --- what a selection looks like

  /** The sizes of a complete selection. */
  predicate FullSize(role: Role, n: nat, C: nat, N: nat) {
    if role.Proposer? then n == AtLeastOne(N) || C < n < N
    else n == if 2 * C + 1 < N then 2 * C + 1 else AtLeastOne(N)
  }

  /** Of endorsers and committers a selection has exactly min(2C + 1, N); of
      proposers it has N, or between C + 1 and N - 1. With N = 0 one is selected. */
  lemma SelectionSize(vrf: Vrf, posTable: seq<nat>, excluded: set<nat>, role: Role, C: nat, N: nat)
    requires posTable != []
    ensures var r := Selected(vrf, posTable, excluded, role, C, N); r == [] || FullSize(role, |r|, C, N)
  {
    hide Picks, Choice;
    NoPicks(vrf, posTable, excluded, FirstDraw(role));
    ChoiceSize(vrf, posTable, excluded, role, C, N, FirstDraw(role));
  }

  lemma {:induction false} ChoiceSize(vrf: Vrf, posTable: seq<nat>, excluded: set<nat>, role: Role, C: nat, N: nat,
                                      i: nat)
    requires posTable != [] && FirstDraw(role) <= i <= DRAWS
    requires |Picks(vrf, posTable, excluded, FirstDraw(role), i)| < AtLeastOne(N)
    requires !role.Proposer? ==> |Picks(vrf, posTable, excluded, FirstDraw(role), i)| <= 2 * C
    ensures var r := Choice(vrf, posTable, excluded, role, C, N, i); r == [] || FullSize(role, |r|, C, N)
    decreases DRAWS - i
  {
    hide Picks, Choice, Draw;
    if i == DRAWS {
      ChoiceEnds(vrf, posTable, excluded, role, C, N);
    } else {
      ChoiceStep(vrf, posTable, excluded, role, C, N, i);
      PicksStep(vrf, posTable, excluded, FirstDraw(role), i);
      if !Enough(role, |Picks(vrf, posTable, excluded, FirstDraw(role), i + 1)|, i, C, N) {
        ChoiceSize(vrf, posTable, excluded, role, C, N, i + 1);
      }
    }
  }

  // --- the participants of a block

  datatype Config = Config(proposers: seq<nat>, endorsers: seq<nat>, committers: seq<nat>)

  /** The first C + 1 selected proposers. */
  ghost function ProposersOf(vrf: Vrf, posTable: seq<nat>, C: nat, N: nat): seq<nat>
    requires posTable != []
  {
    var all := Selected(vrf, posTable, {}, Proposer, C, N);
    if |all| <= C then [] else all[..C + 1]
  }

  /** The endorsers or committers that go with the proposers. */
  ghost function GroupOf(vrf: Vrf, posTable: seq<nat>, role: Role, C: nat, N: nat): seq<nat>
    requires posTable != []
  {
    Selected(vrf, posTable, FirstProposers(ProposersOf(vrf, posTable, C, N), C), role, C, N)
  }

  /** A group of endorsers or committers: min(2C + 1, N) distinct peers of the
      table, none of the first proposers. With C = 0 the group may also be empty,
      when the draws did not suffice. */
  ghost predicate Group(peers: seq<nat>, posTable: seq<nat>, proposers: seq<nat>, C: nat, N: nat) {
    && (forall i :: 0 <= i < |peers| ==> peers[i] in posTable && peers[i] !in FirstProposers(proposers, C))
    && (forall i, j :: 0 <= i < j < |peers| ==> peers[i] != peers[j])
    && (FullSize(Endorser, |peers|, C, N) || (C == 0 && peers == []))
  }

  ghost predicate WellFormed(cfg: Config, posTable: seq<nat>, C: nat, N: nat) {
    && |cfg.proposers| == C + 1
    && (forall i :: 0 <= i < |cfg.proposers| ==> cfg.proposers[i] in posTable)
    && (forall i, j :: 0 <= i < j < |cfg.proposers| ==> cfg.proposers[i] != cfg.proposers[j])
    && Group(cfg.endorsers, posTable, cfg.proposers, C, N)
    && Group(cfg.committers, posTable, cfg.proposers, C, N)
  }

  /** There are enough peers, and the draws complete all three selections. With
      C = 0 no endorsers or committers are asked for. */
  ghost predicate Drawable(vrf: Vrf, posTable: seq<nat>, C: nat, N: nat)
    requires posTable != []
  {
    && C < AtLeastOne(N) && 2 * C <= AtLeastOne(N) && Selected(vrf, posTable, {}, Proposer, C, N) != []
    && (C == 0 || (GroupOf(vrf, posTable, Endorser, C, N) != [] && GroupOf(vrf, posTable, Committer, C, N) != []))
  }

  lemma DrawableSizes(vrf: Vrf, posTable: seq<nat>, C: nat, N: nat)
    requires posTable != []
    ensures Drawable(vrf, posTable, C, N) <==>
            && |Selected(vrf, posTable, {}, Proposer, C, N)| >= C + 1
            && |GroupOf(vrf, posTable, Endorser, C, N)| >= 2 * C
            && |GroupOf(vrf, posTable, Committer, C, N)| >= 2 * C
  {
    hide Selected, FirstProposers;
    var excluded := FirstProposers(ProposersOf(vrf, posTable, C, N), C);
    SelectionSize(vrf, posTable, {}, Proposer, C, N);
    SelectionSize(vrf, posTable, excluded, Endorser, C, N);
    SelectionSize(vrf, posTable, excluded, Committer, C, N);
  }

  lemma GroupIsGood(vrf: Vrf, posTable: seq<nat>, role: Role, C: nat, N: nat)
    requires posTable != [] && !role.Proposer? && |GroupOf(vrf, posTable, role, C, N)| >= 2 * C
    ensures Group(GroupOf(vrf, posTable, role, C, N), posTable, ProposersOf(vrf, posTable, C, N), C, N)
  {
    hide Selected, FirstProposers;
    SelectionSize(vrf, posTable, FirstProposers(ProposersOf(vrf, posTable, C, N), C), role, C, N);
  }

  /** None for the genesis block, without a seed, or when the draws do not give
      enough participants. */
  method BuildParticipantConfig(blkNum: nat, seed: Option<Vrf>, posTable: seq<nat>, C: nat, N: nat)
    returns (r: Option<Config>)
    requires posTable != []
    ensures r.Some? <==> blkNum != 0 && seed.Some? && Drawable(seed.value, posTable, C, N)
    ensures r.Some? ==> WellFormed(r.value, posTable, C, N)
    ensures r.Some? ==>
              && r.value.proposers <= Selected(seed.value, posTable, {}, Proposer, C, N)
              && r.value.endorsers ==
                 Selected(seed.value, posTable, FirstProposers(r.value.proposers, C), Endorser, C, N)
              && r.value.committers ==
                 Selected(seed.value, posTable, FirstProposers(r.value.proposers, C), Committer, C, N)
    ensures r.Some? ==> r.value == Config(ProposersOf(seed.value, posTable, C, N),
                                          GroupOf(seed.value, posTable, Endorser, C, N),
                                          GroupOf(seed.value, posTable, Committer, C, N))
  {
    if blkNum == 0 || seed.None? {
      return None;
    }
    hide Selected, FirstProposers, Drawable, Group;
    var vrf := seed.value;
    DrawableSizes(vrf, posTable, C, N);
    var drawn := CalcParticipantPeers(vrf, posTable, [], Proposer, C, N);
    if |drawn| < C + 1 {
      return None;
    }
    var proposers := drawn[..C + 1];
    var endorsers := CalcParticipantPeers(vrf, posTable, proposers, Endorser, C, N);
    if |endorsers| < 2 * C {
      return None;
    }
    GroupIsGood(vrf, posTable, Endorser, C, N);
    var committers := CalcParticipantPeers(vrf, posTable, proposers, Committer, C, N);
    if |committers| < 2 * C {
      return None;
    }
    GroupIsGood(vrf, posTable, Committer, C, N);
    return Some(Config(proposers, endorsers, committers));
  }
}

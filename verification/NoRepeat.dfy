/** No transaction is put on the chain twice: consensus/solo/solo.go combines the
    window of recent blocks with a pool whose entries carry the height at which
    the stateful validator (validator/stateful/stateful_validator.go) looked them
    up. Together they cover the whole chain, in every run of the parts. */
module NoRepeat {
  import opened Hashing
  import opened Increment
  import opened TxPool

  // --- making a block

  /** The window after makeBlock and the height that entries must be checked at:
      the start of a window that ends at the ledger's height, else the ledger's
      height itself, with the window cleaned. */
  function Prepare(w: Window, height: nat): (Window, nat) {
    if height + 1 == w.baseHeight + |w.blocks| then (w, w.baseHeight) else (CLEAN, height)
  }

  /** makeBlock may select tx. */
  ghost predicate Selectable(w: Window, pool: PoolMap, height: nat, tx: TxHash) {
    var (w', validHeight) := Prepare(w, height);
    tx in pool && FreshAt(pool[tx], validHeight) && Passes(w', tx, validHeight)
  }

  /** In terms of heights: with a window that ends at the ledger's height, no
      stateful result is older than the window and no block of it has the
      transaction; without one, none is older than the ledger's height. */
  lemma SelectableMeans(w: Window, pool: PoolMap, height: nat, tx: TxHash)
    ensures var covers := w.baseHeight + |w.blocks| == height + 1;
            var oldest := if covers then w.baseHeight else height;
            Selectable(w, pool, height, tx) <==>
            && tx in pool
            && (forall i :: 0 <= i < |pool[tx]| && pool[tx][i].kind == Stateful ==> pool[tx][i].height >= oldest)
            && (covers ==> forall i :: 0 <= i < |w.blocks| ==> tx !in w.blocks[i])
  {
    assert Passes(CLEAN, tx, height);
  }

  /** The transactions of the next block, on a ledger of the given height. */
  method MakeBlock(height: nat, validator: IncrementValidator, pool: TXPool, maxTxInBlock: int)
    returns (transactions: seq<TxHash>)
    modifies validator
    ensures validator.View() == Prepare(old(validator.View()), height).0
    ensures forall i :: 0 <= i < |transactions| ==>
        Selectable(old(validator.View()), pool.txList, height, transactions[i])
    ensures forall i, j :: 0 <= i < j < |transactions| ==> transactions[i] != transactions[j]
    ensures maxTxInBlock > 0 ==> |transactions| <= maxTxInBlock
    ensures maxTxInBlock <= 0 ==> forall t :: Selectable(old(validator.View()), pool.txList, height, t) ==>
        t in transactions
    ensures maxTxInBlock <= 0 ==>
              var w := old(validator.View());
              var covers := w.baseHeight + |w.blocks| == height + 1;
              var oldest := if covers then w.baseHeight else height;
              forall t :: t in transactions <==>
                            && t in pool.txList
                            && (forall i :: 0 <= i < |pool.txList[t]| && pool.txList[t][i].kind == Stateful ==>
                                              pool.txList[t][i].height >= oldest)
                            && (covers ==> forall i :: 0 <= i < |w.blocks| ==> t !in w.blocks[i])
  {
    var validHeight := height;
    var start, end := validator.BlockRange();
    if height + 1 == end {
      validHeight := start;
    } else {
      validator.Clean();
    }
    ghost var w := validator.View();
    assert (w, validHeight) == Prepare(old(validator.View()), height);
    var txs, _ := pool.GetTxPool(true, validHeight, maxTxInBlock);
    transactions := [];
    for i := 0 to |txs|
      invariant validator.View() == w && |transactions| <= i
      invariant forall t :: t in transactions <==> t in txs[..i] && Passes(w, t, validHeight)
      invariant forall k, j :: 0 <= k < j < |transactions| ==> transactions[k] != transactions[j]
    {
      var ok := validator.Verify(txs[i], validHeight);
      if ok {
        transactions := transactions + [txs[i]];
      }
    }
    assert txs[..|txs|] == txs;
    forall i | 0 <= i < |transactions|
      ensures Selectable(old(validator.View()), pool.txList, height, transactions[i])
    {
      assert transactions[i] in transactions;
    }
    hide Selectable;
    forall t {
      SelectableMeans(old(validator.View()), pool.txList, height, t);
    }
  }

  // --- the system

  /** A stateful check that has read the ledger's height but not yet looked the
      transaction up. */
  datatype Check = Check(worker: nat, tx: TxHash, height: nat)

  /** A block that makeBlock put together for the given height. */
  datatype Made = Made(height: nat, txs: set<TxHash>)

  /** The ledger's blocks from height 0 on, the window, the pool, each worker's
      pending list, the messages under way, and the last block made. */
  datatype System = System(ledger: seq<set<TxHash>>, window: Window, maxBlocks: nat, pool: PoolMap, poolHeight: nat,
                           pending: map<nat, PendingMap>, checks: set<Check>, replies: set<Response>,
                           made: Option<Made>)

  datatype Action =
    | CommitBlock(txs: set<TxHash>)                     // the ledger grows, by this node or by another
    | SaveBlockComplete(height: nat)                    // the window learns of a block, at any later time
    | CleanWindow
    | MakeNext(txs: set<TxHash>)                        // makeBlock selects transactions
    | ReadHeight(worker: nat, tx: TxHash)               // the stateful validator starts a check ...
    | LookUp(check: Check)                              // ... and answers it
    | StatelessReply(worker: nat, tx: TxHash, err: ErrCode)
    | HandleReply(worker: nat, rsp: Response)
    | Receive(worker: nat, tx: TxHash)
    | Reverify(worker: nat, tx: TxHash)
    | GiveUp(worker: nat, tx: TxHash)                   // retries exhausted
    | RemoveFromPool(txs: set<TxHash>)                  // cleaned, deleted or outdated entries
    | SetHeight(height: nat)

  function PendingOf(s: System, worker: nat): PendingMap {
    if worker in s.pending then s.pending[worker] else map[]
  }

  predicate OnChain(ledger: seq<set<TxHash>>, tx: TxHash) {
    exists i :: 0 <= i < |ledger| && tx in ledger[i]
  }

  ghost predicate Enabled(s: System, a: Action)
    requires s.ledger != []
  {
    match a
    case MakeNext(txs) => forall x :: x in txs ==> Selectable(s.window, s.pool, |s.ledger| - 1, x)
    case SaveBlockComplete(height) => height < |s.ledger|
    case LookUp(check) => check in s.checks
    case HandleReply(worker, rsp) => rsp in s.replies && rsp.worker == worker
    case _ => true
  }

  ghost function Act(s: System, a: Action): System
    requires s.ledger != [] && Enabled(s, a)
  {
    match a
    case CommitBlock(txs) => s.(ledger := s.ledger + [txs])
    case SaveBlockComplete(height) => s.(window := AddTo(s.window, s.maxBlocks, height, s.ledger[height]))
    case CleanWindow => s.(window := CLEAN)
    case MakeNext(txs) => s.(window := Prepare(s.window, |s.ledger| - 1).0, made := Some(Made(|s.ledger|, txs)))
    case ReadHeight(worker, tx) => s.(checks := s.checks + {Check(worker, tx, |s.ledger| - 1)})
    case LookUp(check) =>
      var err := if OnChain(s.ledger, check.tx) then ErrDuplicatedTx else ErrNoError;
      var rsp := Response(check.worker, Stateful, check.tx, check.height, err);
      s.(checks := s.checks - {check}, replies := s.replies + {rsp})
    case StatelessReply(worker, tx, err) => s.(replies := s.replies + {Response(worker, Stateless, tx, 0, err)})
    case HandleReply(worker, rsp) =>
      var r := Handle(PendingOf(s, worker), s.pool, rsp, s.poolHeight);
      s.(pending := s.pending[worker := r.pending], pool := r.pool)
    case Receive(worker, tx) =>
      s.(pending := s.pending[worker := Received(PendingOf(s, worker), s.pool, tx)])
    case Reverify(worker, tx) =>
      s.(pending := s.pending[worker := Reverified(PendingOf(s, worker), tx)])
    case GiveUp(worker, tx) => s.(pending := s.pending[worker := PendingOf(s, worker) - {tx}])
    case RemoveFromPool(txs) => s.(pool := s.pool - txs)
    case SetHeight(height) => s.(poolHeight := height)
  }

  /** The system at start: a genesis block, and nothing else. */
  predicate Starts(s: System) {
    && |s.ledger| == 1 && s.window == CLEAN && s.maxBlocks > 0
    && s.pool == map[] && s.pending == map[] && s.checks == {} && s.replies == {} && s.made == None
  }

  // --- the invariant

  /** tx is in no block up to the given height of the ledger. */
  ghost predicate AbsentUpTo(ledger: seq<set<TxHash>>, tx: TxHash, height: nat) {
    height < |ledger| && forall i :: 0 <= i <= height ==> tx !in ledger[i]
  }

  ghost predicate Mirrors(w: Window, ledger: seq<set<TxHash>>) {
    && w.baseHeight + |w.blocks| <= |ledger| && (w.blocks == [] ==> w == CLEAN)
    && forall i :: 0 <= i < |w.blocks| ==> w.blocks[i] == ledger[w.baseHeight + i]
  }

  /** Every stateful result in attrs was true when it was made, and still is. */
  ghost predicate Vouched(ledger: seq<set<TxHash>>, tx: TxHash, attrs: seq<Attr>) {
    forall i :: 0 <= i < |attrs| && attrs[i].kind == Stateful ==> AbsentUpTo(ledger, tx, attrs[i].height)
  }

  ghost predicate PendingOk(ledger: seq<set<TxHash>>, p: PendingMap) {
    forall t :: t in p ==> Vouched(ledger, t, p[t].ret) && (Stateful in p[t].flag ==> HasStateful(p[t].ret))
  }

  ghost predicate PoolOk(ledger: seq<set<TxHash>>, pool: PoolMap) {
    forall t :: t in pool ==> Vouched(ledger, t, pool[t]) && HasStateful(pool[t])
  }

  ghost predicate MessagesOk(s: System) {
    && (forall c :: c in s.checks ==> c.height < |s.ledger|)
    && (forall r :: r in s.replies && r.err == ErrNoError && r.kind == Stateful ==>
                      AbsentUpTo(s.ledger, r.tx, r.height))
  }

  /** A block made for the next height has no transaction of the chain. */
  ghost predicate MadeOk(s: System) {
    s.made.Some? && s.made.value.height == |s.ledger| ==> forall x :: x in s.made.value.txs ==> !OnChain(s.ledger, x)
  }

  ghost predicate Inv(s: System) {
    && s.ledger != [] && s.maxBlocks > 0
    && Mirrors(s.window, s.ledger)
    && PoolOk(s.ledger, s.pool)
    && (forall w :: w in s.pending ==> PendingOk(s.ledger, s.pending[w]))
    && MessagesOk(s) && MadeOk(s)
    && (s.made.Some? ==> s.made.value.height <= |s.ledger|)
  }

  lemma StartInv(s: System)
    requires Starts(s)
    ensures Inv(s)
  {
  }

  /** A longer ledger keeps what was absent below. */
  lemma LongerLedger(ledger: seq<set<TxHash>>, txs: set<TxHash>, t: TxHash, attrs: seq<Attr>)
    requires Vouched(ledger, t, attrs)
    ensures Vouched(ledger + [txs], t, attrs)
  {
  }

  lemma CommitKeepsInv(s: System, txs: set<TxHash>)
    requires Inv(s)
    ensures Inv(Act(s, CommitBlock(txs)))
  {
    forall t | t in s.pool { LongerLedger(s.ledger, txs, t, s.pool[t]); }
    forall w, t | w in s.pending && t in s.pending[w] { LongerLedger(s.ledger, txs, t, s.pending[w][t].ret); }
  }

  lemma AddKeepsMirror(w: Window, maxBlocks: nat, height: nat, ledger: seq<set<TxHash>>)
    requires Mirrors(w, ledger) && height < |ledger|
    ensures Mirrors(AddTo(w, maxBlocks, height, ledger[height]), ledger)
  {
  }

  lemma HandleKeepsInv(ledger: seq<set<TxHash>>, p: PendingMap, pool: PoolMap, rsp: Response, poolHeight: nat)
    requires PendingOk(ledger, p) && PoolOk(ledger, pool)
    requires rsp.err == ErrNoError && rsp.kind == Stateful ==> AbsentUpTo(ledger, rsp.tx, rsp.height)
    ensures var r := Handle(p, pool, rsp, poolHeight); PendingOk(ledger, r.pending) && PoolOk(ledger, r.pool)
  {
    if rsp.tx in p && rsp.kind !in p[rsp.tx].flag {
      var ret := p[rsp.tx].ret;
      assert (ret + [Attr(rsp.height, rsp.kind)])[|ret|].kind == rsp.kind;
      if HasStateful(ret) {
        var i :| 0 <= i < |ret| && ret[i].kind == Stateful;
        assert (ret + [Attr(rsp.height, rsp.kind)])[i].kind == Stateful;
      }
    }
  }

  lemma LookUpKeepsInv(s: System, c: Check)
    requires Inv(s) && c in s.checks
    ensures Inv(Act(s, LookUp(c)))
  {
  }

  lemma MakeKeepsInv(s: System, txs: set<TxHash>)
    requires Inv(s) && Enabled(s, MakeNext(txs))
    ensures Inv(Act(s, MakeNext(txs)))
  {
    forall x | x in txs
      ensures !OnChain(s.ledger, x)
    {
      SelectableIsNew(s, x);
    }
  }

  lemma ActKeepsInv(s: System, a: Action)
    requires Inv(s) && Enabled(s, a)
    ensures Inv(Act(s, a))
  {
    hide Vouched, AbsentUpTo, HasStateful, Handle, AddTo, OnChain, Selectable;
    match a
    case CommitBlock(txs) => CommitKeepsInv(s, txs);
    case SaveBlockComplete(height) => AddKeepsMirror(s.window, s.maxBlocks, height, s.ledger);
    case LookUp(check) => LookUpKeepsInv(s, check);
    case MakeNext(txs) => MakeKeepsInv(s, txs);
    case HandleReply(worker, rsp) => HandleKeepsInv(s.ledger, PendingOf(s, worker), s.pool, rsp, s.poolHeight);
    case Reverify(worker, tx) => FreshPending(s.ledger, tx);
    case Receive(worker, tx) => FreshPending(s.ledger, tx);
    case _ =>
  }

  lemma FreshPending(ledger: seq<set<TxHash>>, tx: TxHash)
    ensures Vouched(ledger, tx, []) && Vouched(ledger, tx, [Attr(0, Stateless)])
  {
  }

  /** Runs: each action is enabled in the state it meets. */
  ghost predicate Reaches(s: System, acts: seq<Action>, t: System)
    decreases |acts|
  {
    if acts == [] then s == t
    else
      exists m :: Reaches(s, Init(acts), m) && m.ledger != [] && Enabled(m, Last(acts)) && t == Act(m, Last(acts))
  }

  lemma {:induction false} RunKeepsInv(s: System, acts: seq<Action>, t: System)
    requires Starts(s) && Reaches(s, acts, t)
    ensures Inv(t)
    decreases |acts|
  {
    if acts == [] {
      StartInv(s);
    } else {
      var m :| Reaches(s, Init(acts), m) && m.ledger != [] && Enabled(m, Last(acts)) && t == Act(m, Last(acts));
      RunKeepsInv(s, Init(acts), m);
      ActKeepsInv(m, Last(acts));
    }
  }

  // --- the theorem

  /** The window and the pool's heights leave no gap. */
  lemma SelectableIsNew(s: System, tx: TxHash)
    requires Inv(s) && Selectable(s.window, s.pool, |s.ledger| - 1, tx)
    ensures !OnChain(s.ledger, tx)
  {
    var height := |s.ledger| - 1;
    var (w, validHeight) := Prepare(s.window, height);
    var attrs := s.pool[tx];
    var i :| 0 <= i < |attrs| && attrs[i].kind == Stateful;
    assert AbsentUpTo(s.ledger, tx, attrs[i].height) && attrs[i].height >= validHeight;
    forall j | 0 <= j < |s.ledger|
      ensures tx !in s.ledger[j]
    {
      if j > attrs[i].height {
        assert w.blocks[j - w.baseHeight] == s.ledger[j];
      }
    }
  }

  /** In every run, no transaction that makeBlock selects is already on chain. */
  lemma NoRepeatedTransaction(s: System, acts: seq<Action>, t: System, tx: TxHash)
    requires Starts(s) && Reaches(s, acts, t)
    requires Selectable(t.window, t.pool, |t.ledger| - 1, tx)
    ensures t.ledger != [] && !OnChain(t.ledger, tx)
  {
    RunKeepsInv(s, acts, t);
    SelectableIsNew(t, tx);
  }

  /** Every block of a run was put together by makeBlock, at some earlier time
      since which the ledger has not grown. Everything else may have changed. */
  ghost predicate ReachesByMakeBlock(s: System, acts: seq<Action>, t: System)
    decreases |acts|
  {
    if acts == [] then s == t
    else
      exists m ::
        && ReachesByMakeBlock(s, Init(acts), m) && m.ledger != [] && Enabled(m, Last(acts)) && t == Act(m, Last(acts))
        && (Last(acts).CommitBlock? ==> m.made == Some(Made(|m.ledger|, Last(acts).txs)))
  }

  ghost predicate NoRepeats(ledger: seq<set<TxHash>>) {
    forall i, j :: 0 <= i < j < |ledger| ==> ledger[i] !! ledger[j]
  }

  /** Then no transaction occurs in two blocks of the chain. */
  lemma {:induction false} ChainHasNoRepeats(s: System, acts: seq<Action>, t: System)
    requires Starts(s) && ReachesByMakeBlock(s, acts, t)
    ensures Inv(t) && NoRepeats(t.ledger)
    decreases |acts|
  {
    if acts == [] {
      StartInv(s);
    } else {
      var a := Last(acts);
      var m :| && ReachesByMakeBlock(s, Init(acts), m) && m.ledger != [] && Enabled(m, a) && t == Act(m, a)
               && (a.CommitBlock? ==> m.made == Some(Made(|m.ledger|, a.txs)));
      ChainHasNoRepeats(s, Init(acts), m);
      ActKeepsInv(m, a);
      if a.CommitBlock? {
        MadeIsDisjoint(m);
      } else {
        assert t.ledger == m.ledger;
      }
    }
  }

  lemma MadeIsDisjoint(m: System)
    requires m.made.Some? && m.made.value.height == |m.ledger| && MadeOk(m) && NoRepeats(m.ledger)
    ensures NoRepeats(m.ledger + [m.made.value.txs])
  {
  }

  // --- the runs that the theorems are about

  /** The steps that bring a transaction into the pool. */
  function Admission(worker: nat, tx: TxHash, height: nat): seq<Action> {
    [Receive(worker, tx), StatelessReply(worker, tx, ErrNoError),
     HandleReply(worker, Response(worker, Stateless, tx, 0, ErrNoError)), ReadHeight(worker, tx),
     LookUp(Check(worker, tx, height)), HandleReply(worker, Response(worker, Stateful, tx, height, ErrNoError))]
  }

  lemma OneMore(s: System, acts: seq<Action>, k: nat, m: System)
    requires k < |acts| && ReachesByMakeBlock(s, acts[..k], m) && m.ledger != [] && Enabled(m, acts[k])
    requires acts[k].CommitBlock? ==> m.made == Some(Made(|m.ledger|, acts[k].txs))
    ensures ReachesByMakeBlock(s, acts[..k + 1], Act(m, acts[k]))
  {
    hide Enabled, Act;
    var l := acts[..k + 1];
    assert Init(l) == acts[..k] && Last(l) == acts[k];
  }

  /** A transaction that is not on the chain, not pooled and not pending becomes
      selectable once both validators have answered for it. */
  lemma NewIsSelectable(s: System, worker: nat, tx: TxHash) returns (t: System)
    requires Inv(s) && !OnChain(s.ledger, tx) && tx !in s.pool && tx !in PendingOf(s, worker)
    requires s.poolHeight < |s.ledger|
    ensures ReachesByMakeBlock(s, Admission(worker, tx, |s.ledger| - 1), t) && t.ledger == s.ledger
    ensures Selectable(t.window, t.pool, |t.ledger| - 1, tx)
  {
    hide ReachesByMakeBlock, Selectable, Inv, OnChain, Handle, Received;
    NotEmptyLedger(s);
    var a := Admission(worker, tx, |s.ledger| - 1);
    var p := PendingOf(s, worker);
    NoSteps(s);
    assert a[..0] == [];
    OneMore(s, a, 0, s);
    var s1 := Act(s, a[0]);
    OneMore(s, a, 1, s1);
    var s2 := Act(s1, a[1]);
    OneMore(s, a, 2, s2);
    var s3 := Act(s2, a[2]);
    FirstResult(p, s.pool, Response(worker, Stateless, tx, 0, ErrNoError), s.poolHeight);
    var p' := p[tx := Pending({Stateless}, [Attr(0, Stateless)])];
    assert PendingOf(s3, worker) == p' && s3.pool == s.pool;
    OneMore(s, a, 3, s3);
    var s4 := Act(s3, a[3]);
    OneMore(s, a, 4, s4);
    var s5 := Act(s4, a[4]);
    OneMore(s, a, 5, s5);
    t := Act(s5, a[5]);
    SecondResult(p', s.pool, Response(worker, Stateful, tx, |s.ledger| - 1, ErrNoError), s.poolHeight,
                 Attr(0, Stateless));
    assert t.pool == s.pool[tx := [Attr(0, Stateless), Attr(|s.ledger| - 1, Stateful)]];
    assert a[..6] == a;
    FreshIsSelectable(s, t.pool, tx);
  }

  lemma NoSteps(s: System)
    ensures ReachesByMakeBlock(s, [], s)
  {
  }

  lemma NotEmptyLedger(s: System)
    requires Inv(s)
    ensures s.ledger != []
  {
  }

  lemma FreshIsSelectable(s: System, pool: PoolMap, tx: TxHash)
    requires Inv(s) && !OnChain(s.ledger, tx)
    requires tx in pool && pool[tx] == [Attr(0, Stateless), Attr(|s.ledger| - 1, Stateful)]
    ensures Selectable(s.window, pool, |s.ledger| - 1, tx)
  {
    SelectableMeans(s.window, pool, |s.ledger| - 1, tx);
  }

  /** Such a transaction then gets on the chain, and into the window. */
  lemma NewGetsOnChain(s: System, worker: nat, tx: TxHash) returns (t: System)
    requires Inv(s) && !OnChain(s.ledger, tx) && tx !in s.pool && tx !in PendingOf(s, worker)
    requires s.poolHeight < |s.ledger|
    ensures var rest := [MakeNext({tx}), CommitBlock({tx}), SaveBlockComplete(|s.ledger|)];
            ReachesByMakeBlock(s, Admission(worker, tx, |s.ledger| - 1) + rest, t)
    ensures t.ledger == s.ledger + [{tx}] && t.window.blocks != [] && Last(t.window.blocks) == {tx}
  {
    hide ReachesByMakeBlock, Selectable, Inv, OnChain, Mirrors;
    var s6 := NewIsSelectable(s, worker, tx);
    var admission, n := Admission(worker, tx, |s.ledger| - 1), |s.ledger|;
    var a := admission + [MakeNext({tx}), CommitBlock({tx}), SaveBlockComplete(n)];
    assert a[..6] == admission && s6.ledger != [];
    OneMore(s, a, 6, s6);
    var s7 := Act(s6, a[6]);
    OneMore(s, a, 7, s7);
    var s8 := Act(s7, a[7]);
    OneMore(s, a, 8, s8);
    t := Act(s8, a[8]);
    assert a[..9] == a;
    WindowTakesNext(s6.window, s6.maxBlocks, n, {tx});
  }

  /** A window prepared for the ledger's height takes the next block. */
  lemma WindowTakesNext(w: Window, maxBlocks: nat, n: nat, txs: set<TxHash>)
    requires n > 0
    ensures var w' := AddTo(Prepare(w, n - 1).0, maxBlocks, n, txs); w'.blocks != [] && Last(w'.blocks) == txs
  {
  }
}

/** The transaction pool of txnpool/common/transaction_pool.go and the worker of
    txnpool/proc/txnpool_worker.go that fills it. */
module TxPool {
  import opened Hashing
  import opened Increment

  datatype ErrCode = ErrNoError | ErrDoubleSpend | ErrDuplicateInput | ErrDuplicatedTx | ErrOther(code: nat)

  datatype Kind = Stateless | Stateful

  /** The result of one validator: the height it looked at, and no error. */
  datatype Attr = Attr(height: nat, kind: Kind)

  type Entry = seq<Attr>

  type PoolMap = map<TxHash, Entry>

  /** No stateful result is older than the height. */
  predicate FreshAt(attrs: Entry, height: nat) {
    forall i :: 0 <= i < |attrs| && attrs[i].kind == Stateful ==> attrs[i].height >= height
  }

  ghost predicate HasStateful(attrs: Entry) {
    exists i :: 0 <= i < |attrs| && attrs[i].kind == Stateful
  }

  class TXPool {
    var txList: PoolMap

    constructor ()
      ensures txList == map[]
    {
      txList := map[];
    }

    method AddTxList(tx: TxHash, attrs: Entry) returns (added: bool)
      modifies this
      ensures added <==> tx !in old(txList)
      ensures txList == if added then old(txList)[tx := attrs] else old(txList)
    {
      if tx in txList {
        return false;
      }
      txList := txList[tx := attrs];
      return true;
    }

    method DelTxList(tx: TxHash) returns (deleted: bool)
      modifies this
      ensures deleted <==> tx in old(txList)
      ensures txList == old(txList) - {tx}
    {
      deleted := tx in txList;
      txList := txList - {tx};
    }

    method CleanTransactionList(txs: seq<TxHash>)
      modifies this
      ensures txList == old(txList) - set t | t in txs
    {
      for i := 0 to |txs|
        invariant txList == old(txList) - set t | t in txs[..i]
      {
        txList := txList - {txs[i]};
      }
      assert txs[..|txs|] == txs;
    }

    /** Transactions for a block in any order, at most the configured number; and
        of those passed over, the outdated ones. */
    method GetTxPool(byCount: bool, height: nat, maxTxInBlock: int) returns (txs: seq<TxHash>, oldTxs: seq<TxHash>)
      ensures forall i :: 0 <= i < |txs| ==> txs[i] in txList && FreshAt(txList[txs[i]], height)
      ensures forall i, j :: 0 <= i < j < |txs| ==> txs[i] != txs[j]
      ensures forall i :: 0 <= i < |oldTxs| ==> oldTxs[i] in txList && !FreshAt(txList[oldTxs[i]], height)
      ensures byCount && maxTxInBlock > 0 ==> |txs| <= maxTxInBlock
      ensures !byCount || maxTxInBlock <= 0 || |txs| < maxTxInBlock ==>
                forall t :: t in txList ==> t in txs || t in oldTxs
    {
      var count: nat := if !byCount || maxTxInBlock <= 0 || |txList| < maxTxInBlock then |txList| else maxTxInBlock;
      txs, oldTxs := [], [];
      var todo := txList.Keys;
      while todo != {}
        invariant todo <= txList.Keys
        invariant forall t :: t in txs ==> t in txList && t !in todo && FreshAt(txList[t], height)
        invariant forall t :: t in oldTxs ==> t in txList && !FreshAt(txList[t], height)
        invariant forall i, j :: 0 <= i < j < |txs| ==> txs[i] != txs[j]
        invariant forall t :: t in txList ==> t in todo || t in txs || t in oldTxs
        invariant |txs| + |todo| <= |txList| && |txs| <= count
        invariant todo != {} ==> |txs| < count
      {
        var t :| t in todo;
        todo := todo - {t};
        if !FreshAt(txList[t], height) {
          oldTxs := oldTxs + [t];
        } else {
          txs := txs + [t];
          if |txs| >= count {
            break;
          }
        }
      }
      assert |txs| == |txList| ==> |todo| == 0;
    }
  }

  // --- the worker

  /** A transaction being verified: the kinds of results it has. */
  datatype Pending = Pending(flag: set<Kind>, ret: seq<Attr>)

  datatype Response = Response(worker: nat, kind: Kind, tx: TxHash, height: nat, err: ErrCode)

  type PendingMap = map<TxHash, Pending>

  /** A result that a worker gives to the pool server. */
  datatype Report = Report(tx: TxHash, err: ErrCode)

  datatype Handled = Handled(pending: PendingMap, pool: PoolMap, report: Option<Report>)

  /** What a response does to the pending list and the pool, and what is reported. A
      transaction enters the pool when it has a result of each kind; a stateful
      result older than the pool's height is asked for again. */
  function Handle(pending: PendingMap, pool: PoolMap, rsp: Response, poolHeight: nat): Handled {
    if rsp.tx !in pending then Handled(pending, pool, None)
    else if rsp.err != ErrNoError then Handled(pending - {rsp.tx}, pool, Some(Report(rsp.tx, rsp.err)))
    else if rsp.kind == Stateful && rsp.height < poolHeight then Handled(pending, pool, None)
    else
      var pt := pending[rsp.tx];
      var pt' := if rsp.kind in pt.flag then pt else
          Pending(pt.flag + {rsp.kind}, pt.ret + [Attr(rsp.height, rsp.kind)]);
      if pt'.flag == {Stateless, Stateful} then
        Handled(pending - {rsp.tx}, if rsp.tx in pool then pool else pool[rsp.tx := pt'.ret],
                Some(Report(rsp.tx, ErrNoError)))
      else Handled(pending[rsp.tx := pt'], pool, None)
  }

  /** A transaction that is neither pooled nor pending becomes pending. */
  function Received(pending: PendingMap, pool: PoolMap, tx: TxHash): PendingMap {
    if tx in pool || tx in pending then pending else pending[tx := Pending({}, [])]
  }

  /** A transaction checked before becomes pending for its stateful result only. */
  function Reverified(pending: PendingMap, tx: TxHash): PendingMap {
    pending[tx := Pending({Stateless}, [Attr(0, Stateless)])]
  }

  // --- how a transaction gets into the pool

  predicate UpToDate(rsp: Response, poolHeight: nat) {
    rsp.err == ErrNoError && (rsp.kind == Stateful ==> rsp.height >= poolHeight)
  }

  /** The first of two results is kept with the pending transaction ... */
  lemma FirstResult(pending: PendingMap, pool: PoolMap, rsp: Response, poolHeight: nat)
    requires rsp.tx !in pool && rsp.tx !in pending && UpToDate(rsp, poolHeight)
    ensures Handle(Received(pending, pool, rsp.tx), pool, rsp, poolHeight) ==
            Handled(pending[rsp.tx := Pending({rsp.kind}, [Attr(rsp.height, rsp.kind)])], pool, None)
  {
    var k := rsp.kind;
    assert {} + {k} == {k} && [] + [Attr(rsp.height, k)] == [Attr(rsp.height, k)];
    assert {k} != {Stateless, Stateful} by {
      assert Stateless in {Stateless, Stateful} && Stateful in {Stateless, Stateful};
    }
    var p, pt := pending[rsp.tx := Pending({}, [])], Pending({k}, [Attr(rsp.height, k)]);
    assert p[rsp.tx := pt] == pending[rsp.tx := pt];
  }

  /** ... and the second puts it into the pool with both, and is reported. */
  lemma SecondResult(pending: PendingMap, pool: PoolMap, rsp: Response, poolHeight: nat, first: Attr)
    requires rsp.tx !in pool && UpToDate(rsp, poolHeight) && first.kind != rsp.kind
    requires rsp.tx in pending && pending[rsp.tx] == Pending({first.kind}, [first])
    ensures Handle(pending, pool, rsp, poolHeight) ==
            Handled(pending - {rsp.tx}, pool[rsp.tx := [first, Attr(rsp.height, rsp.kind)]],
                    Some(Report(rsp.tx, ErrNoError)))
  {
    assert {first.kind} + {rsp.kind} == {Stateless, Stateful};
    assert [first] + [Attr(rsp.height, rsp.kind)] == [first, Attr(rsp.height, rsp.kind)];
  }

  /** A received transaction is pooled after a result of each kind, in any order. */
  lemma BothResultsAdmit(pending: PendingMap, pool: PoolMap, r1: Response, r2: Response, poolHeight: nat)
    requires r1.tx == r2.tx && r1.kind != r2.kind && r1.tx !in pool && r1.tx !in pending
    requires UpToDate(r1, poolHeight) && UpToDate(r2, poolHeight)
    ensures var h1 := Handle(Received(pending, pool, r1.tx), pool, r1, poolHeight);
            Handle(h1.pending, h1.pool, r2, poolHeight) ==
            Handled(pending, pool[r1.tx := [Attr(r1.height, r1.kind), Attr(r2.height, r2.kind)]],
                    Some(Report(r1.tx, ErrNoError)))
  {
    hide Handle, Received;
    FirstResult(pending, pool, r1, poolHeight);
    var p := pending[r1.tx := Pending({r1.kind}, [Attr(r1.height, r1.kind)])];
    SecondResult(p, pool, r2, poolHeight, Attr(r1.height, r1.kind));
    assert p - {r1.tx} == pending;
  }

  /** A transaction checked again needs its stateful result only. */
  lemma ReverifiedIsAdmitted(pending: PendingMap, pool: PoolMap, rsp: Response, poolHeight: nat)
    requires rsp.tx !in pool && rsp.kind == Stateful && UpToDate(rsp, poolHeight)
    ensures Handle(Reverified(pending, rsp.tx), pool, rsp, poolHeight) ==
            Handled(pending - {rsp.tx}, pool[rsp.tx := [Attr(0, Stateless), Attr(rsp.height, Stateful)]],
                    Some(Report(rsp.tx, ErrNoError)))
  {
    hide Handle;
    SecondResult(Reverified(pending, rsp.tx), pool, rsp, poolHeight, Attr(0, Stateless));
    assert Reverified(pending, rsp.tx) - {rsp.tx} == pending - {rsp.tx};
  }

  /** Errors end the verification; outdated and unasked results change nothing. */
  lemma OtherResults(pending: PendingMap, pool: PoolMap, rsp: Response, poolHeight: nat)
    ensures var r := Handle(pending, pool, rsp, poolHeight);
            && (rsp.tx in pending && rsp.err != ErrNoError ==>
                  r == Handled(pending - {rsp.tx}, pool, Some(Report(rsp.tx, rsp.err))))
            && (rsp.tx !in pending ==> r == Handled(pending, pool, None))
            && (rsp.err == ErrNoError && !UpToDate(rsp, poolHeight) ==> r == Handled(pending, pool, None))
            && (forall t :: t in pool ==> t in r.pool && r.pool[t] == pool[t])
  {
  }

  class Worker {
    const workId: nat
    const pool: TXPool
    var pendingTxList: PendingMap

    constructor (id: nat, p: TXPool)
      ensures workId == id && pool == p && pendingTxList == map[]
    {
      workId, pool, pendingTxList := id, p, map[];
    }

    method HandleRsp(rsp: Response, poolHeight: nat) returns (report: Option<Report>)
      modifies this, pool
      ensures Handled(pendingTxList, pool.txList, report) ==
              if rsp.worker == workId then Handle(old(pendingTxList), old(pool.txList), rsp, poolHeight)
              else Handled(old(pendingTxList), old(pool.txList), None)
    {
      if rsp.worker != workId || rsp.tx !in pendingTxList {
        return None;
      }
      var pt := pendingTxList[rsp.tx];
      if rsp.err != ErrNoError {
        pendingTxList := pendingTxList - {rsp.tx};
        return Some(Report(rsp.tx, rsp.err));
      }
      if rsp.kind == Stateful && rsp.height < poolHeight {
        return None;
      }
      if rsp.kind !in pt.flag {
        pt := Pending(pt.flag + {rsp.kind}, pt.ret + [Attr(rsp.height, rsp.kind)]);
      }
      if pt.flag == {Stateless, Stateful} {
        var _ := pool.AddTxList(rsp.tx, pt.ret);
        pendingTxList := pendingTxList - {rsp.tx};
        return Some(Report(rsp.tx, ErrNoError));
      }
      pendingTxList := pendingTxList[rsp.tx := pt];
      return None;
    }

    method VerifyTx(tx: TxHash) returns (report: Option<Report>)
      modifies this
      ensures report == if tx in pool.txList then Some(Report(tx, ErrDuplicateInput)) else None
      ensures pendingTxList == Received(old(pendingTxList), pool.txList, tx)
    {
      if tx in pool.txList {
        return Some(Report(tx, ErrDuplicateInput));
      }
      if tx in pendingTxList {
        return None;
      }
      pendingTxList := pendingTxList[tx := Pending({}, [])];
      return None;
    }

    method VerifyStateful(tx: TxHash)
      modifies this
      ensures pendingTxList == Reverified(old(pendingTxList), tx)
    {
      pendingTxList := pendingTxList[tx := Pending({Stateless}, [Attr(0, Stateless)])];
    }
  }
}

/** Verification of a proposed block's transactions: verifyBlock,
    checkPendingBlockOk and sendBlkResult2Consensus of
    txnpool/proc/txnpool_server.go, with GetUnverifiedTxs of
    txnpool/common/transaction_pool.go. */
module TxServer {
  import opened Hashing
  import opened Increment
  import opened TxPool

  type Answer = map<TxHash, ErrCode>

  /** Who sent a pending transaction: the consensus, the network, or a client that
      may wait for the result. */
  datatype Sender = NilSender | NetSender | HttpSender(waits: bool)

  ghost function TxSet(txs: seq<TxHash>): set<TxHash> {
    set t | t in txs
  }

  /** Verified at the height. */
  ghost function Current(pool: PoolMap, txs: seq<TxHash>, height: nat): set<TxHash> {
    set t | t in txs && t in pool && FreshAt(pool[t], height) && HasStateful(pool[t])
  }

  /** In the pool without a stateful result: forgotten by the request. */
  ghost function Lost(pool: PoolMap, txs: seq<TxHash>, height: nat): set<TxHash> {
    set t | t in txs && t in pool && FreshAt(pool[t], height) && !HasStateful(pool[t])
  }

  /** The transactions that a request really asks for. */
  ghost function Kept(pool: PoolMap, txs: seq<TxHash>, height: nat): set<TxHash> {
    TxSet(txs) - Lost(pool, txs, height)
  }

  /** All of them, if the requested entries of the pool are complete. */
  lemma NothingLost(pool: PoolMap, txs: seq<TxHash>, height: nat)
    requires forall t :: t in txs && t in pool ==> HasStateful(pool[t])
    ensures Kept(pool, txs, height) == TxSet(txs)
  {
    hide FreshAt, HasStateful;
    assert Lost(pool, txs, height) == {};
  }

  /** Verified too early. */
  ghost function Outdated(pool: PoolMap, txs: seq<TxHash>, height: nat): set<TxHash> {
    set t | t in txs && t in pool && !FreshAt(pool[t], height)
  }

  ghost function Unknown(pool: PoolMap, txs: seq<TxHash>): set<TxHash> {
    set t | t in txs && t !in pool
  }

  lemma Partition(pool: PoolMap, txs: seq<TxHash>, height: nat)
    ensures Current(pool, txs, height) + (Unknown(pool, txs) + Outdated(pool, txs, height)) == Kept(pool, txs, height)
    ensures Unknown(pool, txs) + Outdated(pool, txs, height) == Kept(pool, txs, height) - Current(pool, txs, height)
    ensures Current(pool, txs, height) !! (Unknown(pool, txs) + Outdated(pool, txs, height))
  {
    hide FreshAt, HasStateful;
  }

  /** The height of the first stateful result. */
  function StatefulHeight(attrs: Entry): (h: Option<nat>)
    ensures h.Some? <==> HasStateful(attrs)
    ensures h.Some? ==> exists i :: && 0 <= i < |attrs| && attrs[i] == Attr(h.value, Stateful)
                                    && forall j :: 0 <= j < i ==> attrs[j].kind == Stateless
  {
    if attrs == [] then None
    else if attrs[0].kind == Stateful then Some(attrs[0].height)
    else
      assert forall i :: 0 <= i < |attrs| - 1 ==> attrs[1..][i] == attrs[i + 1];
      StatefulHeight(attrs[1..])
  }

  /** The transactions of a request by their state in the pool, in order, and the
      pool without those found outdated. */
  datatype Checked = Checked(verified: seq<(TxHash, nat)>, unverified: seq<TxHash>, oldTxs: seq<TxHash>, pool: PoolMap)

  /** A repeated outdated transaction is unknown the second time; an entry without
      a stateful result goes nowhere. */
  function CheckAll(pool: PoolMap, txs: seq<TxHash>, height: nat): Checked {
    if txs == [] then Checked([], [], [], pool)
    else
      var r, tx := CheckAll(pool, Init(txs), height), Last(txs);
      if tx !in r.pool then r.(unverified := r.unverified + [tx])
      else if !FreshAt(r.pool[tx], height) then r.(oldTxs := r.oldTxs + [tx], pool := r.pool - {tx})
      else
        match StatefulHeight(r.pool[tx])
        case None => r
        case Some(h) => r.(verified := r.verified + [(tx, h)])
  }

  lemma CheckNext(txs: seq<TxHash>, i: nat)
    requires i < |txs|
    ensures Init(txs[..i + 1]) == txs[..i] && Last(txs[..i + 1]) == txs[i]
  {
  }

  method GetUnverifiedTxs(pool: TXPool, txs: seq<TxHash>, height: nat)
    returns (verified: seq<(TxHash, nat)>, unverified: seq<TxHash>, oldTxs: seq<TxHash>)
    modifies pool
    ensures Checked(verified, unverified, oldTxs, pool.txList) == CheckAll(old(pool.txList), txs, height)
  {
    hide FreshAt;
    verified, unverified, oldTxs := [], [], [];
    for i := 0 to |txs|
      invariant Checked(verified, unverified, oldTxs, pool.txList) == CheckAll(old(pool.txList), txs[..i], height)
    {
      CheckNext(txs, i);
      var tx := txs[i];
      if tx !in pool.txList {
        unverified := unverified + [tx];
      } else if !FreshAt(pool.txList[tx], height) {
        oldTxs := oldTxs + [tx];
        pool.txList := pool.txList - {tx};
      } else {
        var h := FindStateful(pool.txList[tx]);
        if h.Some? {
          verified := verified + [(tx, h.value)];
        }
      }
    }
    assert txs[..|txs|] == txs;
  }

  method FindStateful(attrs: Entry) returns (h: Option<nat>)
    ensures h == StatefulHeight(attrs)
  {
    for i := 0 to |attrs|
      invariant StatefulHeight(attrs[i..]) == StatefulHeight(attrs)
    {
      if attrs[i].kind == Stateful {
        return Some(attrs[i].height);
      }
      assert attrs[i..][1..] == attrs[i + 1..];
    }
    return None;
  }

  ghost function VerifiedSet(l: seq<(TxHash, nat)>): set<TxHash> {
    set v | v in l :: v.0
  }

  /** A request without repetitions is split exactly into current, unknown and
      outdated transactions, but for those without a stateful result. */
  lemma {:induction false} CheckedIsPartition(pool: PoolMap, txs: seq<TxHash>, height: nat)
    requires forall i, j :: 0 <= i < j < |txs| ==> txs[i] != txs[j]
    ensures var r := CheckAll(pool, txs, height);
            && VerifiedSet(r.verified) == Current(pool, txs, height)
            && TxSet(r.unverified) == Unknown(pool, txs) && TxSet(r.oldTxs) == Outdated(pool, txs, height)
            && r.pool == pool - Outdated(pool, txs, height)
  {
    hide HasStateful, FreshAt, StatefulHeight;
    if txs == [] {
    } else {
      CheckedIsPartition(pool, Init(txs), height);
      var r, r', tx := CheckAll(pool, Init(txs), height), CheckAll(pool, txs, height), Last(txs);
      assert tx !in Init(txs);
      GrowSets(pool, txs, height);
      if tx !in pool {
        TxSetSnoc(r.unverified, tx);
      } else if !FreshAt(pool[tx], height) {
        TxSetSnoc(r.oldTxs, tx);
      } else if HasStateful(pool[tx]) {
        var h := StatefulHeight(pool[tx]).value;
        VerifiedSnoc(r.verified, tx, h);
      }
    }
  }

  /** In terms of the stateful results: verified are the pooled transactions that
      have one and none below the height, outdated those that have one below. */
  lemma CheckedByHeight(pool: PoolMap, txs: seq<TxHash>, height: nat, t: TxHash)
    requires forall i, j :: 0 <= i < j < |txs| ==> txs[i] != txs[j]
    ensures var r := CheckAll(pool, txs, height);
            && (t in VerifiedSet(r.verified) <==>
                  && t in txs && t in pool && (exists i :: 0 <= i < |pool[t]| && pool[t][i].kind == Stateful)
                  && (forall i :: 0 <= i < |pool[t]| && pool[t][i].kind == Stateful ==> pool[t][i].height >= height))
            && (t in r.oldTxs <==>
                  && t in txs && t in pool
                  && (exists i :: 0 <= i < |pool[t]| && pool[t][i].kind == Stateful && pool[t][i].height < height))
            && (t in r.unverified <==> t in txs && t !in pool)
  {
    hide CheckAll, VerifiedSet, StatefulHeight;
    CheckedIsPartition(pool, txs, height);
    var r := CheckAll(pool, txs, height);
    assert t in r.oldTxs <==> t in TxSet(r.oldTxs);
    assert t in r.unverified <==> t in TxSet(r.unverified);
  }

  /** With each verified transaction goes the height of its first stateful result. */
  lemma {:induction false} VerifiedHeights(pool: PoolMap, txs: seq<TxHash>, height: nat, v: (TxHash, nat))
    requires v in CheckAll(pool, txs, height).verified
    ensures v.0 in txs && v.0 in pool && StatefulHeight(pool[v.0]) == Some(v.1)
  {
    hide StatefulHeight, FreshAt;
    if txs == [] {
    } else {
      var r := CheckAll(pool, Init(txs), height);
      SmallerPool(pool, Init(txs), height);
      if v in r.verified {
        VerifiedHeights(pool, Init(txs), height, v);
      }
    }
  }

  lemma {:induction false} SmallerPool(pool: PoolMap, txs: seq<TxHash>, height: nat)
    ensures var r := CheckAll(pool, txs, height); forall t :: t in r.pool ==> t in pool && r.pool[t] == pool[t]
  {
    hide StatefulHeight, FreshAt;
    if txs == [] {
    } else {
      SmallerPool(pool, Init(txs), height);
    }
  }

  lemma TxSetSnoc(l: seq<TxHash>, tx: TxHash)
    ensures TxSet(l + [tx]) == TxSet(l) + {tx}
  {
  }

  lemma VerifiedSnoc(l: seq<(TxHash, nat)>, tx: TxHash, h: nat)
    ensures VerifiedSet(l + [(tx, h)]) == VerifiedSet(l) + {tx}
  {
    assert (tx, h) in l + [(tx, h)];
    forall v | v in l
      ensures v.0 in VerifiedSet(l + [(tx, h)])
    {
      assert v in l + [(tx, h)];
    }
  }

  lemma GrowSets(pool: PoolMap, txs: seq<TxHash>, height: nat)
    requires txs != []
    ensures var tx, before := Last(txs), Init(txs);
            && Current(pool, txs, height) ==
               Current(pool, before, height)
               + (if tx in pool && FreshAt(pool[tx], height) && HasStateful(pool[tx]) then {tx} else {})
            && Outdated(pool, txs, height) ==
               Outdated(pool, before, height) + (if tx in pool && !FreshAt(pool[tx], height) then {tx} else {})
            && Unknown(pool, txs) == Unknown(pool, before) + (if tx in pool then {} else {tx})
  {
    hide FreshAt, HasStateful;
    assert txs == Init(txs) + [Last(txs)];
  }

  /** A request in progress: every requested transaction is processed without
      error or unprocessed, and what is unprocessed is being verified. */
  ghost predicate InProgress(processed: Answer, unprocessed: set<TxHash>, request: set<TxHash>, pending: set<TxHash>) {
    && processed.Keys + unprocessed == request
    && processed.Keys !! unprocessed
    && unprocessed != {} && unprocessed <= pending
    && AllOk(processed)
  }

  ghost predicate AllOk(answer: Answer) {
    forall t :: t in answer ==> answer[t] == ErrNoError
  }

  /** A correct answer to a request: it names an error, or it is the request, all
      without error. */
  ghost predicate Answers(answer: Answer, request: set<TxHash>) {
    || (exists t :: t in answer && answer[t] != ErrNoError)
    || (answer.Keys == request && AllOk(answer))
  }

  /** One more transaction is processed. */
  lemma ProcessOne(processed: Answer, unprocessed: set<TxHash>, request: set<TxHash>, pending: set<TxHash>,
                   hash: TxHash, err: ErrCode)
    requires InProgress(processed, unprocessed, request, pending + {hash}) && hash in unprocessed && hash !in pending
    ensures var p, u := processed[hash := err], unprocessed - {hash};
            if err != ErrNoError || u == {} then Answers(p, request) else InProgress(p, u, request, pending)
  {
    var p := processed[hash := err];
    if err != ErrNoError {
      assert hash in p && p[hash] != ErrNoError;
    } else {
      assert p.Keys == processed.Keys + {hash};
    }
  }

  lemma NotInvolved(processed: Answer, unprocessed: set<TxHash>, request: set<TxHash>, pending: set<TxHash>,
                    hash: TxHash)
    requires InProgress(processed, unprocessed, request, pending + {hash}) && hash !in unprocessed
    ensures InProgress(processed, unprocessed, request, pending)
  {
  }

  function OkAnswer(txs: set<TxHash>): (a: Answer)
    ensures a.Keys == txs && AllOk(a)
  {
    map t | t in txs :: ErrNoError
  }

  lemma BlockBegins(verified: set<TxHash>, unprocessed: set<TxHash>, request: set<TxHash>, pending: set<TxHash>)
    requires verified + unprocessed == request && verified !! unprocessed && unprocessed <= pending
    ensures if unprocessed == {} then Answers(OkAnswer(verified), request)
            else InProgress(OkAnswer(verified), unprocessed, request, pending)
  {
  }

  lemma DoubleSpendAnswers(t: TxHash, request: set<TxHash>)
    ensures Answers(map[t := ErrDoubleSpend], request)
  {
    assert t in map[t := ErrDoubleSpend];
  }

  ghost predicate Repeats(txs: seq<TxHash>) {
    exists i, j :: 0 <= i < j < |txs| && txs[i] == txs[j]
  }

  /** The first transaction that occurs before, if any. */
  method FirstRepeat(txs: seq<TxHash>) returns (r: Option<TxHash>)
    ensures r.Some? ==> exists i, j :: 0 <= i < j < |txs| && txs[i] == txs[j] == r.value && !Repeats(txs[..j])
    ensures r.None? <==> forall i, j :: 0 <= i < j < |txs| ==> txs[i] != txs[j]
  {
    var seen: set<TxHash> := {};
    for i := 0 to |txs|
      invariant seen == set t | t in txs[..i]
      invariant forall k, j :: 0 <= k < j < i ==> txs[k] != txs[j]
    {
      if txs[i] in seen {
        var k :| 0 <= k < i && txs[..i][k] == txs[i];
        assert txs[k] == txs[i] && !Repeats(txs[..i]);
        return Some(txs[i]);
      }
      assert forall k :: 0 <= k < i ==> txs[..i][k] in seen;
      seen := seen + {txs[i]};
    }
    return None;
  }

  /** Transactions of a block become pending; those pending keep their sender. */
  function WithPending(pending: map<TxHash, Sender>, txs: set<TxHash>): (r: map<TxHash, Sender>)
    ensures r.Keys == pending.Keys + txs
    ensures forall t :: t in r ==> r[t] == if t in pending then pending[t] else NilSender
  {
    (map t | t in txs :: NilSender) + pending
  }

  class TXPoolServer {
    const txPool: TXPool
    const disableBroadcastNetTx: bool
    var allPendingTxs: map<TxHash, Sender>
    var processedTxs: Answer
    var unProcessedTxs: set<TxHash>

    /** The request under verification and whether it has been answered. */
    ghost var request: set<TxHash>
    ghost var answered: bool

    constructor (pool: TXPool, disableBroadcast: bool)
      ensures Valid() && txPool == pool && disableBroadcastNetTx == disableBroadcast && answered
      ensures allPendingTxs == map[]
    {
      txPool, allPendingTxs, processedTxs, unProcessedTxs := pool, map[], map[], {};
      disableBroadcastNetTx := disableBroadcast;
      request, answered := {}, true;
    }

    ghost predicate Valid()
      reads this
    {
      !answered ==> InProgress(processedTxs, unProcessedTxs, request, allPendingTxs.Keys)
    }

    /** Hands the processed transactions to the consensus. */
    method SendBlkResult2Consensus() returns (answer: Answer)
      modifies this`processedTxs, this`answered
      ensures answer == old(processedTxs) && processedTxs == map[] && answered
    {
      answer := processedTxs;
      processedTxs := map[];
      answered := true;
    }

    /** Starts to verify a block; answers at once when a transaction is repeated or
        all are verified already. An empty request is ignored. */
    method VerifyBlock(txs: seq<TxHash>, height: nat) returns (answer: Option<Answer>)
      requires Valid()
      modifies this, txPool
      ensures Valid()
      ensures txs == [] ==> answer == None && answered == old(answered) && request == old(request)
      ensures txs != [] ==> request == Kept(old(txPool.txList), txs, height) && (answered <==> answer.Some?)
      ensures answer.Some? ==> Answers(answer.value, request)
      ensures Repeats(txs) ==> exists t :: answer == Some(map[t := ErrDoubleSpend]) && t in txs
      ensures txs != [] && !Repeats(txs) ==>
                Started(Current(old(txPool.txList), txs, height), request, old(allPendingTxs), answer)
      ensures txs == [] || Repeats(txs) ==> txPool.txList == old(txPool.txList)
      ensures txs != [] && !Repeats(txs) ==>
                txPool.txList == old(txPool.txList) - Outdated(old(txPool.txList), txs, height)
    {
      hide Answers, InProgress, TxSet, Current, Outdated, Unknown, HasStateful, OkAnswer, FreshAt, Started, Kept;
      if |txs| == 0 {
        return None;
      }
      processedTxs, unProcessedTxs := map[], {};
      request, answered := Kept(txPool.txList, txs, height), false;
      var repeated := FirstRepeat(txs);
      if repeated.Some? {
        assert repeated.value in txs;
        processedTxs := map[repeated.value := ErrDoubleSpend];
        DoubleSpendAnswers(repeated.value, request);
        var a := SendBlkResult2Consensus();
        return Some(a);
      }
      answer := StartBlock(txs, height);
    }

    /** A block whose transactions of the pool are verified: the others are to be
        verified, and the answer goes out if there are none. */
    ghost predicate Started(verified: set<TxHash>, txs: set<TxHash>, pending: map<TxHash, Sender>,
                            answer: Option<Answer>)
      reads this
    {
      && (if answer.Some? then answer.value else processedTxs) == OkAnswer(verified)
      && (answer.Some? <==> unProcessedTxs == {}) && unProcessedTxs == txs - verified
      && allPendingTxs == WithPending(pending, unProcessedTxs)
    }

    method StartBlock(txs: seq<TxHash>, height: nat) returns (answer: Option<Answer>)
      requires !Repeats(txs) && request == Kept(txPool.txList, txs, height) && !answered
      modifies this, txPool
      ensures Valid() && request == old(request) && (answered <==> answer.Some?)
      ensures answer.Some? ==> Answers(answer.value, request)
      ensures Started(Current(old(txPool.txList), txs, height), request, old(allPendingTxs), answer)
      ensures txPool.txList == old(txPool.txList) - Outdated(old(txPool.txList), txs, height)
    {
      hide Answers, InProgress, Current, Outdated, Unknown, HasStateful, OkAnswer, FreshAt, CheckAll, Kept;
      Partition(txPool.txList, txs, height);
      CheckedIsPartition(txPool.txList, txs, height);
      var verifiedTxs, unverified, oldTxs := GetUnverifiedTxs(txPool, txs, height);
      unProcessedTxs := (set t | t in unverified) + (set t | t in oldTxs);
      allPendingTxs := WithPending(allPendingTxs, unProcessedTxs);
      var verified := set v | v in verifiedTxs :: v.0;
      processedTxs := OkAnswer(verified);
      BlockBegins(verified, unProcessedTxs, request, allPendingTxs.Keys);
      if unProcessedTxs == {} {
        var a := SendBlkResult2Consensus();
        return Some(a);
      }
      return None;
    }

    /** The outcome of one transaction moved from unprocessed to processed; an
        answer goes out on an error and with the last one. */
    ghost predicate Processed(processed: Answer, unprocessed: set<TxHash>, hash: TxHash, err: ErrCode,
                              answer: Option<Answer>)
      reads this
    {
      && unProcessedTxs == unprocessed - {hash}
      && (answer.Some? <==> err != ErrNoError || unprocessed == {hash})
      && (if answer.Some? then answer.value else processedTxs) == processed[hash := err]
    }

    /** A transaction has been verified. A valid one from outside is passed on to the
        network, a waiting client gets the result, and if it belongs to the block
        this may complete the answer; an error completes it at once. */
    method RemovePendingTx(hash: TxHash, err: ErrCode) returns (answer: Option<Answer>, broadcast: bool, reply: bool)
      requires Valid()
      modifies this
      ensures Valid() && request == old(request)
      ensures allPendingTxs == old(allPendingTxs) - {hash}
      ensures broadcast <==> && hash in old(allPendingTxs) && err == ErrNoError
                             && old(allPendingTxs)[hash] != NilSender
                             && (old(allPendingTxs)[hash] == NetSender ==> !disableBroadcastNetTx)
      ensures reply <==> hash in old(allPendingTxs) && old(allPendingTxs)[hash] == HttpSender(true)
      ensures !old(answered) ==> (answered <==> answer.Some?)
      ensures !old(answered) && answer.Some? ==> Answers(answer.value, request)
      ensures if hash in old(allPendingTxs) && hash in old(unProcessedTxs)
              then Processed(old(processedTxs), old(unProcessedTxs), hash, err, answer)
              else answer == None && processedTxs == old(processedTxs) && unProcessedTxs == old(unProcessedTxs)
    {
      if hash !in allPendingTxs {
        return None, false, false;
      }
      var sender := allPendingTxs[hash];
      broadcast := err == ErrNoError && (sender.HttpSender? || (sender.NetSender? && !disableBroadcastNetTx));
      reply := sender.HttpSender? && sender.waits;
      allPendingTxs := allPendingTxs - {hash};
      assert allPendingTxs.Keys + {hash} == old(allPendingTxs.Keys);
      answer := CheckPendingBlockOk(hash, err);
    }

    method CheckPendingBlockOk(hash: TxHash, err: ErrCode) returns (answer: Option<Answer>)
      requires !answered ==> InProgress(processedTxs, unProcessedTxs, request, allPendingTxs.Keys + {hash})
      requires hash !in allPendingTxs
      modifies this`processedTxs, this`unProcessedTxs, this`answered
      ensures Valid()
      ensures !old(answered) ==> (answered <==> answer.Some?)
      ensures !old(answered) && answer.Some? ==> Answers(answer.value, request)
      ensures if hash in old(unProcessedTxs)
              then Processed(old(processedTxs), old(unProcessedTxs), hash, err, answer)
              else answer == None && processedTxs == old(processedTxs) && unProcessedTxs == old(unProcessedTxs)
    {
      hide Answers, AllOk, InProgress;
      if hash !in unProcessedTxs {
        if !answered {
          NotInvolved(processedTxs, unProcessedTxs, request, allPendingTxs.Keys, hash);
        }
        return None;
      }
      if !answered {
        ProcessOne(processedTxs, unProcessedTxs, request, allPendingTxs.Keys, hash, err);
      }
      processedTxs := processedTxs[hash := err];
      unProcessedTxs := unProcessedTxs - {hash};
      if err != ErrNoError || unProcessedTxs == {} {
        var a := SendBlkResult2Consensus();
        return Some(a);
      }
      return None;
    }
  }
}

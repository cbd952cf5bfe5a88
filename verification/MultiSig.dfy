/** The m-of-n matcher: VerifyMultiSignature of core/signature/signature.go.
    Decoding and verification of single signatures are parameters. */
module MultiSig {
  import opened Hashing

  datatype SigCheck = Passed | NotEnoughSignatures | InvalidData | Failed

  /** Decoding of signatures and their verification over the given data. */
  datatype Scheme<!K, !S> = Scheme(decode: seq<byte> -> Option<S>, verify: (K, S) -> bool)

  /** The bytes decode to a signature that verifies under k. */
  ghost predicate Fits<K, S>(c: Scheme<K, S>, k: K, sig: seq<byte>) {
    c.decode(sig).Some? && c.verify(k, c.decode(sig).value)
  }

  /** Signature i verifies under the key at position j. */
  ghost predicate Signs<K, S>(c: Scheme<K, S>, keys: seq<K>, sigs: seq<seq<byte>>, i: nat, j: nat)
    requires i < |sigs|
  {
    j < |keys| && Fits(c, keys[j], sigs[i])
  }

  /** f assigns the first |f| signatures to distinct key positions. */
  ghost predicate Assigns<K, S>(c: Scheme<K, S>, keys: seq<K>, sigs: seq<seq<byte>>, f: seq<nat>) {
    && |f| <= |sigs|
    && (forall i :: 0 <= i < |f| ==> Signs(c, keys, sigs, i, f[i]))
    && (forall i, j :: 0 <= i < j < |f| ==> f[i] != f[j])
  }

  /** The first m signatures can be assigned to m distinct key positions. */
  ghost predicate Assignable<K, S>(c: Scheme<K, S>, keys: seq<K>, sigs: seq<seq<byte>>, m: nat) {
    exists f: seq<nat> :: |f| == m && Assigns(c, keys, sigs, f)
  }

  // --- the greedy match

  /** The first position from j on that is not in used and verifies s; |keys| if
      there is none. */
  function FirstFree<K, S>(c: Scheme<K, S>, keys: seq<K>, s: S, used: seq<nat>, j: nat): (r: nat)
    requires j <= |keys|
    ensures j <= r <= |keys|
    ensures r < |keys| ==> r !in used && c.verify(keys[r], s)
    ensures forall k :: j <= k < r ==> k in used || !c.verify(keys[k], s)
    decreases |keys| - j
  {
    if j == |keys| || (j !in used && c.verify(keys[j], s)) then j else FirstFree(c, keys, s, used, j + 1)
  }

  /** The outcome once the signatures before |f| have the positions f. */
  function Greedy<K, S>(c: Scheme<K, S>, keys: seq<K>, sigs: seq<seq<byte>>, m: nat, f: seq<nat>): SigCheck
    requires |f| <= m <= |sigs|
    decreases m - |f|
  {
    if |f| == m then Passed
    else
      match c.decode(sigs[|f|])
      case None => InvalidData
      case Some(s) =>
        var j := FirstFree(c, keys, s, f, 0);
        if j == |keys| then Failed else Greedy(c, keys, sigs, m, f + [j])
  }

  /** Takes the signatures in order and gives each the first unused position
      whose key verifies it. */
  method VerifyMultiSignature<K, S>(c: Scheme<K, S>, keys: seq<K>, m: int, sigs: seq<seq<byte>>) returns (r: SigCheck)
    ensures r == NotEnoughSignatures <==> |sigs| < m
    ensures m <= 0 ==> r == Passed
    ensures 0 <= m <= |sigs| ==> r == Greedy(c, keys, sigs, m, [])
    ensures m > 0 && r == Passed ==> Assignable(c, keys, sigs, m)
    ensures 0 < m <= |sigs| && SameKeys(c, keys, sigs, m) ==> (r == Passed <==> Assignable(c, keys, sigs, m))
  {
    if |sigs| < m {
      return NotEnoughSignatures;
    }
    if m <= 0 {
      return Passed;
    }
    GreedyDecides(c, keys, sigs, m, []);
    var mask := seq(|keys|, _ => false);
    ghost var f: seq<nat> := [];
    for i := 0 to m
      invariant |f| == i && |mask| == |keys| && Greedy(c, keys, sigs, m, f) == Greedy(c, keys, sigs, m, [])
      invariant forall j :: 0 <= j < |keys| ==> (mask[j] <==> j in f)
    {
      var sig := c.decode(sigs[i]);
      if sig.None? {
        return InvalidData;
      }
      var valid, j := false, 0;
      while j < |keys| && !valid
        invariant 0 <= j <= |keys| && FirstFree(c, keys, sig.value, f, j) == FirstFree(c, keys, sig.value, f, 0)
        invariant valid ==> j < |keys| && !mask[j] && c.verify(keys[j], sig.value)
        decreases |keys| - j, !valid
      {
        if !mask[j] && c.verify(keys[j], sig.value) {
          valid := true;
        } else {
          j := j + 1;
        }
      }
      if !valid {
        return Failed;
      }
      mask := mask[j := true];
      f := f + [j];
    }
    return Passed;
  }

  /** The data is called invalid exactly if a signature is met that does not decode,
      all before it having found a key. */
  lemma {:induction false} GreedyErrors<K, S>(c: Scheme<K, S>, keys: seq<K>, sigs: seq<seq<byte>>, m: nat, f: seq<nat>)
    requires |f| <= m <= |sigs|
    ensures Greedy(c, keys, sigs, m, f) == InvalidData <==>
            exists i :: |f| <= i < m && c.decode(sigs[i]).None? && Greedy(c, keys, sigs, i, f) == Passed
    ensures Greedy(c, keys, sigs, m, f) in {Passed, InvalidData, Failed}
    decreases m - |f|
  {
    if |f| == m {
    } else if c.decode(sigs[|f|]).None? {
      assert Greedy(c, keys, sigs, |f|, f) == Passed;
    } else {
      var j := FirstFree(c, keys, c.decode(sigs[|f|]).value, f, 0);
      if j < |keys| {
        GreedyErrors(c, keys, sigs, m, f + [j]);
        assert forall i :: |f| < i < m ==> Greedy(c, keys, sigs, i, f) == Greedy(c, keys, sigs, i, f + [j]);
      }
    }
  }

  // --- when giving up is right

  /** No two of the first m signatures share a key without sharing all keys. */
  ghost predicate SameKeys<K, S>(c: Scheme<K, S>, keys: seq<K>, sigs: seq<seq<byte>>, m: nat) {
    forall i: nat, k: nat, j: nat, l: nat ::
      i < m && k < m && i < |sigs| && k < |sigs| && Signs(c, keys, sigs, i, j) && Signs(c, keys, sigs, i, l) &&
      Signs(c, keys, sigs, k, j) ==>
        Signs(c, keys, sigs, k, l)
  }

  lemma {:induction false} ImageSize(f: seq<nat>, a: set<nat>)
    requires forall i :: i in a ==> i < |f|
    requires forall i, j :: i in a && j in a && i != j ==> f[i] != f[j]
    ensures |set i | i in a :: f[i]| == |a|
  {
    if a == {} {
    } else {
      var x :| x in a;
      var b := a - {x};
      ImageSize(f, b);
      assert (set i | i in a :: f[i]) == (set i | i in b :: f[i]) + {f[x]};
    }
  }

  lemma UndecodableFails<K, S>(c: Scheme<K, S>, keys: seq<K>, sigs: seq<seq<byte>>, m: nat, i: nat)
    requires i < m <= |sigs| && c.decode(sigs[i]).None?
    ensures !Assignable(c, keys, sigs, m)
  {
    forall f: seq<nat> | |f| == m
      ensures !Assigns(c, keys, sigs, f)
    {
      assert !Signs(c, keys, sigs, i, f[i]);
    }
  }

  /** The positions whose keys verify signature i. */
  ghost function Positions<K, S>(c: Scheme<K, S>, keys: seq<K>, sigs: seq<seq<byte>>, i: nat): set<nat>
    requires i < |sigs|
  {
    set j: nat | j < |keys| && Signs(c, keys, sigs, i, j)
  }

  /** The signatures that f gives positions of p. */
  ghost function Users(f: seq<nat>, p: set<nat>): set<nat> {
    set a: nat | a < |f| && f[a] in p
  }

  /** The signatures that f gives positions of the next signature have the same
      positions as it, so g gives all of them such positions too. */
  lemma UsersFit<K, S>(c: Scheme<K, S>, keys: seq<K>, sigs: seq<seq<byte>>, m: nat, f: seq<nat>, g: seq<nat>)
    requires |f| < m == |g| && Assigns(c, keys, sigs, f) && Assigns(c, keys, sigs, g)
    requires SameKeys(c, keys, sigs, m)
    ensures |Users(f, Positions(c, keys, sigs, |f|))| < |Positions(c, keys, sigs, |f|)|
  {
    var i := |f|;
    var same := Positions(c, keys, sigs, i);
    var all := Users(f, same) + {i};
    forall a | a in all
      ensures a < |g| && g[a] in same
    {
      assert Signs(c, keys, sigs, a, g[a]);
      if a != i {
        assert Signs(c, keys, sigs, a, f[a]) && Signs(c, keys, sigs, i, f[a]);
      }
    }
    ImageSize(g, all);
    SubsetSize(set a | a in all :: g[a], same);
  }

  /** Some position of p is not in f if fewer signatures use p than it has. */
  lemma SomeUnused(f: seq<nat>, p: set<nat>) returns (j: nat)
    requires forall i, j :: 0 <= i < j < |f| ==> f[i] != f[j]
    requires |Users(f, p)| < |p|
    ensures j in p && j !in f
  {
    var users := Users(f, p);
    ImageSize(f, users);
    var used := set a | a in users :: f[a];
    if p <= used {
      SubsetSize(p, used);
    }
    forall a: nat | a < |f| && f[a] in p
      ensures f[a] in used
    {
      assert a in users;
    }
    j :| j in p && j !in used;
  }

  /** As long as an assignment exists, the next signature finds a position. */
  lemma FreePosition<K, S>(c: Scheme<K, S>, keys: seq<K>, sigs: seq<seq<byte>>, m: nat, f: seq<nat>, g: seq<nat>)
    returns (j: nat)
    requires |f| < m == |g| && Assigns(c, keys, sigs, f) && Assigns(c, keys, sigs, g)
    requires SameKeys(c, keys, sigs, m)
    ensures Signs(c, keys, sigs, |f|, j) && j !in f
  {
    UsersFit(c, keys, sigs, m, f, g);
    j := SomeUnused(f, Positions(c, keys, sigs, |f|));
  }

  lemma NoneFreeFails<K, S>(c: Scheme<K, S>, keys: seq<K>, sigs: seq<seq<byte>>, m: nat, f: seq<nat>)
    requires |f| < m <= |sigs| && Assigns(c, keys, sigs, f) && SameKeys(c, keys, sigs, m)
    requires forall j: nat :: Signs(c, keys, sigs, |f|, j) ==> j in f
    ensures !Assignable(c, keys, sigs, m)
  {
    forall g: seq<nat> | |g| == m
      ensures !Assigns(c, keys, sigs, g)
    {
      if Assigns(c, keys, sigs, g) {
        var _ := FreePosition(c, keys, sigs, m, f, g);
      }
    }
  }

  lemma AssignsNext<K, S>(c: Scheme<K, S>, keys: seq<K>, sigs: seq<seq<byte>>, f: seq<nat>, j: nat)
    requires Assigns(c, keys, sigs, f) && |f| < |sigs| && Signs(c, keys, sigs, |f|, j) && j !in f
    ensures Assigns(c, keys, sigs, f + [j])
  {
  }

  /** Success always means an assignment; with SameKeys, failure means none. */
  lemma {:induction false} GreedyDecides<K, S>(c: Scheme<K, S>, keys: seq<K>, sigs: seq<seq<byte>>, m: nat, f: seq<nat>)
    requires |f| <= m <= |sigs| && Assigns(c, keys, sigs, f)
    ensures Greedy(c, keys, sigs, m, f) == Passed ==> Assignable(c, keys, sigs, m)
    ensures SameKeys(c, keys, sigs, m) && Assignable(c, keys, sigs, m) ==> Greedy(c, keys, sigs, m, f) == Passed
    decreases m - |f|
  {
    hide SameKeys, Assigns;
    if |f| >= m {
    } else {
      match c.decode(sigs[|f|]) {
        case None => UndecodableFails(c, keys, sigs, m, |f|);
        case Some(s) =>
          var j := FirstFree(c, keys, s, f, 0);
          if j < |keys| {
            AssignsNext(c, keys, sigs, f, j);
            GreedyDecides(c, keys, sigs, m, f + [j]);
          } else if SameKeys(c, keys, sigs, m) {
            NoneFreeFails(c, keys, sigs, m, f);
          }
      }
    }
  }

  // --- the condition is exact

  /** Among the given keys and signatures, no two signatures share a key without
      sharing all keys. */
  ghost predicate Uniform<K(!new), S>(c: Scheme<K, S>, ks: iset<K>, ss: iset<seq<byte>>) {
    forall x, y, a, b ::
      x in ks && y in ks && a in ss && b in ss && Fits(c, x, a) && Fits(c, x, b) && Fits(c, y, a) ==> Fits(c, y, b)
  }

  /** keys and sigs are lists, in any order and with any repetitions, of the given
      keys and signatures. */
  ghost predicate Drawn<K(!new)>(keys: seq<K>, sigs: seq<seq<byte>>, ks: iset<K>, ss: iset<seq<byte>>) {
    (forall k :: k in keys ==> k in ks) && (forall s :: s in sigs ==> s in ss)
  }

  /** On all lists the match succeeds if and only if an assignment exists. */
  ghost predicate Exact<K(!new), S>(c: Scheme<K, S>, ks: iset<K>, ss: iset<seq<byte>>) {
    forall keys, sigs, m: nat :: Drawn(keys, sigs, ks, ss) && m <= |sigs| ==>
      (Greedy(c, keys, sigs, m, []) == Passed <==> Assignable(c, keys, sigs, m))
  }

  lemma UniformLists<K(!new), S>(c: Scheme<K, S>, ks: iset<K>, ss: iset<seq<byte>>, keys: seq<K>,
                                 sigs: seq<seq<byte>>, m: nat)
    requires Uniform(c, ks, ss) && Drawn(keys, sigs, ks, ss)
    ensures SameKeys(c, keys, sigs, m)
  {
  }

  /** x fits a and b but y fits a only: a takes x, and b is left with nothing. */
  lemma GreedyMisses<K(!new), S>(c: Scheme<K, S>, x: K, y: K, a: seq<byte>, b: seq<byte>)
    requires Fits(c, x, a) && Fits(c, x, b) && Fits(c, y, a) && !Fits(c, y, b)
    ensures Greedy(c, [x, y], [a, b], 2, []) == Failed && Assignable(c, [x, y], [a, b], 2)
  {
    var keys, sigs := [x, y], [a, b];
    var s, t := c.decode(a).value, c.decode(b).value;
    assert FirstFree(c, keys, s, [], 0) == 0;
    assert FirstFree(c, keys, t, [0], 0) == 2 by {
      assert FirstFree(c, keys, t, [0], 1) == 2;
    }
    assert [] + [0] == [0];
    assert Greedy(c, keys, sigs, 2, [0]) == Failed;
    assert Assigns(c, keys, sigs, [1, 0]) by {
      assert Signs(c, keys, sigs, 0, 1) && Signs(c, keys, sigs, 1, 0);
    }
  }

  /** A signature of two bytes fits every key, a shorter one fits key 0 only. */
  lemma GreedyCanMiss()
    ensures var c := Scheme((b: seq<byte>) => Some(|b|), (k: int, s: int) => s == 2 || k == 0);
            var keys, sigs: seq<seq<byte>> := [0, 1], [[0, 0], [0]];
            Greedy(c, keys, sigs, 2, []) == Failed && Assignable(c, keys, sigs, 2)
  {
    var c := Scheme((b: seq<byte>) => Some(|b|), (k: int, s: int) => s == 2 || k == 0);
    GreedyMisses(c, 0, 1, [0, 0], [0]);
  }

  /** The match is exact on all lists of some keys and signatures if and only if
      no two of the signatures share a key without sharing all keys. */
  lemma GreedyIsExact<K(!new), S>(c: Scheme<K, S>, ks: iset<K>, ss: iset<seq<byte>>)
    ensures Uniform(c, ks, ss) <==> Exact(c, ks, ss)
  {
    hide Greedy, Assignable, SameKeys, Fits;
    if Uniform(c, ks, ss) {
      forall keys, sigs, m: nat | Drawn(keys, sigs, ks, ss) && m <= |sigs|
        ensures Greedy(c, keys, sigs, m, []) == Passed <==> Assignable(c, keys, sigs, m)
      {
        UniformLists(c, ks, ss, keys, sigs, m);
        GreedyDecides(c, keys, sigs, m, []);
      }
    } else {
      var x, y, a, b :| x in ks && y in ks && a in ss && b in ss && Fits(c, x, a) && Fits(c, x, b) && Fits(c, y, a)
                        && !Fits(c, y, b);
      GreedyMisses(c, x, y, a, b);
      assert Drawn([x, y], [a, b], ks, ss);
    }
  }

  /** No signature verifies under two different keys of the list; the same key may
      be listed several times. */
  ghost predicate OneKeyEach<K, S>(c: Scheme<K, S>, keys: seq<K>, sigs: seq<seq<byte>>, m: nat) {
    forall i: nat, j: nat, k: nat ::
      i < m && i < |sigs| && Signs(c, keys, sigs, i, j) && Signs(c, keys, sigs, i, k) ==> keys[j] == keys[k]
  }

  /** Proper signature schemes are exact. */
  lemma OneKeyEachIsExact<K, S>(c: Scheme<K, S>, keys: seq<K>, sigs: seq<seq<byte>>, m: nat)
    requires m <= |sigs| && OneKeyEach(c, keys, sigs, m)
    ensures Greedy(c, keys, sigs, m, []) == Passed <==> Assignable(c, keys, sigs, m)
  {
    assert SameKeys(c, keys, sigs, m);
    GreedyDecides(c, keys, sigs, m, []);
  }
}

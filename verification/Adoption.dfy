/** What an adoption does to the next-block keys (src/blockdb.cpp), and exactly when it has nothing to do. */
module Adoption {
  import opened Options
  import opened Blocks
  import opened BestChain
  import opened ChainStore
  import opened StoreLaws
  import opened Successors
  import opened NextKeys
  import opened LatestKeys

  /** In a valid store the early return is taken exactly when the chain's last block is the canonical latest one. */
  lemma AlreadyTipIff(db: Db, tip: Block)
    requires Indexed(db) && tip in Stored(db)
    ensures AlreadyTip(db, tip) <==> db.latest == Some(tip.number) && GetBlock(db, tip.number) == tip
  {
    GetBlockIndexed(db, LatestId(db));
  }

  /** The least index at which lookups do not give the chain's block; the length of the chain if there is none. */
  ghost predicate Diverges(db: Db, chain: seq<Block>, j: nat) {
    && j <= |chain|
    && (forall i :: 0 <= i < j ==> GetBlock(db, chain[i].number) == chain[i])
    && (j < |chain| ==> GetBlock(db, chain[j].number) != chain[j])
  }

  lemma AgreesIff(db: Db, b: Block)
    requires Indexed(db) && b in Stored(db)
    ensures Agrees(db, b) <==> GetBlock(db, b.number) == b
  {
    GetBlockIndexed(db, b.number);
  }

  lemma {:induction false} AgreementDiverges(db: Db, chain: seq<Block>, j: nat)
    requires Indexed(db) && (forall b <- chain :: b in Stored(db)) && Diverges(db, chain, j)
    ensures Agreement(db, chain) == j
  {
    if chain != [] {
      assert chain[0] in chain;
      AgreesIff(db, chain[0]);
      if j > 0 {
        forall i | 0 <= i < j - 1 ensures GetBlock(db, chain[1..][i].number) == chain[1..][i] {
          assert chain[1..][i] == chain[i + 1];
        }
        AgreementDiverges(db, chain[1..], j - 1);
      }
    }
  }

  // ---------------------------------------------------------------- the links written


  lemma OneMoreKey<K, V>(before: map<K, V>, m: map<K, V>, keys: set<K>, key: K, value: V)
    requires m - keys == before - keys
    ensures m[key := value] - (keys + {key}) == before - (keys + {key})
  {
    var r, more := m[key := value], keys + {key};
    forall k ensures k in r - more <==> k in before - more {
      assert k in m - keys <==> k in before - keys;
    }
    forall k | k in r - more ensures (r - more)[k] == (before - more)[k] {
      assert (m - keys)[k] == (before - keys)[k];
    }
  }

  ghost function HashKeysOf(chain: seq<Block>, lo: nat, hi: nat): set<string>
    requires lo <= hi <= |chain|
    decreases hi
  {
    if lo == hi then {} else HashKeysOf(chain, lo, hi - 1) + {chain[hi - 1].hash}
  }

  /** The keys of the chain's blocks from lo to hi name the blocks after them, and every other key is as before. */
  ghost predicate HashLinks(before: map<string, string>, after: map<string, string>, chain: seq<Block>, lo: nat, hi: nat)
    requires lo <= hi < |chain|
  {
    && (forall i :: lo <= i < hi ==> chain[i].hash in after && after[chain[i].hash] == chain[i + 1].hash)
    && after - HashKeysOf(chain, lo, hi) == before - HashKeysOf(chain, lo, hi)
  }

  lemma {:induction false} HashesWritten(m: map<string, string>, chain: seq<Block>, lo: nat, hi: nat)
    requires Rising(chain) && lo <= hi < |chain|
    ensures HashLinks(m, PutNextHashes(m, chain, lo, hi), chain, lo, hi)
    decreases hi
  {
    if lo < hi {
      HashesWritten(m, chain, lo, hi - 1);
      OneMoreKey(m, PutNextHashes(m, chain, lo, hi - 1), HashKeysOf(chain, lo, hi - 1), chain[hi - 1].hash, chain[hi].hash);
    }
  }

  ghost function IdKeysOf(chain: seq<Block>, lo: nat, hi: nat): set<int>
    requires lo <= hi <= |chain|
    decreases hi
  {
    if lo == hi then {} else IdKeysOf(chain, lo, hi - 1) + {chain[hi - 1].number}
  }

  /** The keys of the chain's blocks from lo to hi name the blocks after them, and every other key is as before. */
  ghost predicate IdLinks(before: map<int, int>, after: map<int, int>, chain: seq<Block>, lo: nat, hi: nat)
    requires lo <= hi < |chain|
  {
    && (forall i :: lo <= i < hi ==> chain[i].number in after && after[chain[i].number] == chain[i + 1].number)
    && after - IdKeysOf(chain, lo, hi) == before - IdKeysOf(chain, lo, hi)
  }

  lemma {:induction false} IdsWritten(m: map<int, int>, chain: seq<Block>, lo: nat, hi: nat)
    requires Rising(chain) && lo <= hi < |chain|
    ensures IdLinks(m, PutNextIds(m, chain, lo, hi), chain, lo, hi)
    decreases hi
  {
    if lo < hi {
      IdsWritten(m, chain, lo, hi - 1);
      OneMoreKey(m, PutNextIds(m, chain, lo, hi - 1), IdKeysOf(chain, lo, hi - 1), chain[hi - 1].number, chain[hi].number);
    }
  }

  /** The links of the chain from index k on are written, and no other next key changes. */
  ghost predicate LinkedFrom(before: Db, after: Db, chain: seq<Block>, k: nat) {
    && k < |chain|
    && HashLinks(before.nextHash, after.nextHash, chain, k, |chain| - 1)
    && IdLinks(before.nextId, after.nextId, chain, k, |chain| - 1)
  }

  lemma WriteLinksFrom(db: Db, chain: seq<Block>, k: nat)
    requires Rising(chain) && k < |chain|
    ensures LinkedFrom(db, Write(db, chain, k, |chain|), chain, k)
  {
    HashesWritten(db.nextHash, chain, k, |chain| - 1);
    IdsWritten(db.nextId, chain, k, |chain| - 1);
    LastUnlinked(db, chain, k);
  }

  /** The last block of the chain gets no next keys. */
  lemma LastUnlinked(db: Db, chain: seq<Block>, k: nat)
    requires k < |chain|
    ensures PutNextHashes(db.nextHash, chain, k, |chain|) == PutNextHashes(db.nextHash, chain, k, |chain| - 1)
    ensures PutNextIds(db.nextId, chain, k, |chain|) == PutNextIds(db.nextId, chain, k, |chain| - 1)
  {
  }

  /** After a rewriting adoption the chain is linked from one before the first disagreement on, so that the last block
      both branches share leads to the adopted one; below, and off the chain, the next keys are as before. */
  lemma AdoptionLinks(env: Env, db: Db, tipHash: string, j: nat)
    requires Valid(env, db) && Rewrites(env, db, tipHash) && Diverges(db, AdoptableChain(env, db, tipHash).value, j)
    ensures
      LinkedFrom(db, AdoptStep(env, db, tipHash).1, AdoptableChain(env, db, tipHash).value, if j > 0 then j - 1 else 0)
  {
    AdoptionLaw(env, db, tipHash);
    var chain := AdoptableChain(env, db, tipHash).value;
    PathIsRising(db, chain);
    AgreementDiverges(db, chain, j);
    var k := RewriteFrom(db, chain);
    assert k < |chain|;
    WriteLinksFrom(db, chain, k);
    FinishKeepsKeys(env, Write(db, chain, k, |chain|), Last(chain));
  }

  /** So `getNextBlock` leads along the adopted chain from there. */
  lemma NextAfterAdoption(env: Env, db: Db, tipHash: string, j: nat, i: nat)
    requires Valid(env, db) && Rewrites(env, db, tipHash) && Diverges(db, AdoptableChain(env, db, tipHash).value, j)
    requires j <= i + 1 < |AdoptableChain(env, db, tipHash).value|
    ensures
      var chain, d := AdoptableChain(env, db, tipHash).value, AdoptStep(env, db, tipHash).1;
      Valid(env, d) && NextBlock(d, chain[i]) == chain[i + 1]
  {
    AdoptionLinks(env, db, tipHash, j);
    AdoptionLaw(env, db, tipHash);
    var chain, d := AdoptableChain(env, db, tipHash).value, AdoptStep(env, db, tipHash).1;
    assert chain[i] in chain && chain[i + 1] in chain && Connects(chain[i + 1], chain[i]);
    NextOf(d, chain[i], chain[i + 1]);
  }

  lemma NextOf(db: Db, b: Block, c: Block)
    requires Indexed(db) && Connects(c, b) && c in Stored(db)
    requires b.hash in db.nextHash && db.nextHash[b.hash] == c.hash
    ensures NextBlock(db, b) == c
  {
  }
}

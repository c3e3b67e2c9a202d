/** What the operations of the block store guarantee: the invariant they keep, what a rebuild and an adoption
    leave behind, and where checkpoints may lie. */
module StoreLaws {
  import opened Options
  import opened Blocks
  import opened BestChain
  import opened ChainStore

  // ---------------------------------------------------------------- checkpoints

  /** Blocks linked parent to child; all but the last are stored, and all are envelope-valid. */
  ghost predicate ValidRun(env: Env, db: Db, run: seq<Block>) {
    && run != []
    && (forall b <- run :: EnvelopeValid(env, b))
    && (forall i :: 0 <= i < |run| - 1 ==> Connects(run[i + 1], run[i]))
    && (forall i :: 0 <= i < |run| - 1 ==> run[i].hash in db.blocks && db.blocks[run[i].hash] == run[i])
  }

  lemma {:induction false} DescendIsRun(env: Env, db: Db, b: Block, fuel: nat) returns (run: seq<Block>)
    requires Indexed(db) && EnvelopeValid(env, b)
    ensures ValidRun(env, db, run) && Last(run) == b && run[0] == Descend(env, db, b, fuel) && |run| - 1 <= fuel
    decreases fuel
  {
    run := [b];
    if fuel > 0 && b.previousHash != "" {
      var parent := RawBlock(db, b.previousHash);
      if Connects(b, parent) && EnvelopeValid(env, parent) {
        var below := DescendIsRun(env, db, parent, fuel - 1);
        run := below + [b];
        assert forall i :: 0 <= i < |run| - 1 ==> run[i] == below[i];
      }
    }
  }

  function CheckpointNumber(db: Db): int { GetOr(db.checkpoint, 0) }

  /** Advancing never lowers the checkpoint, touches nothing else, keeps it sound, and writes only a block at
      most 2000 connected, envelope-valid links below the tip. */
  lemma AdvanceLaw(env: Env, db: Db, tip: Block)
    requires Indexed(db) && CheckpointSound(env, db)
    requires tip.number > 0 ==> tip.hash in db.blocks && db.blocks[tip.hash] == tip
    ensures
      var d := Advance(env, db, tip);
      && d == db.(checkpoint := d.checkpoint, checkpointHash := d.checkpointHash)
      && CheckpointNumber(d) >= CheckpointNumber(db)
      && CheckpointSound(env, d)
      && (d != db ==> exists run: seq<Block> :: ValidRun(env, db, run) && Last(run) == tip && |run| - 1 <= CHECKPOINT_DEPTH
                        && d.checkpoint == Some(run[0].number) && d.checkpointHash == Some(run[0].hash))
  {
    if EnvelopeValid(env, tip) {
      var run := DescendIsRun(env, db, tip, CHECKPOINT_DEPTH);
      assert run[0] in run;
      assert |run| > 1 ==> run[0].hash in db.blocks && db.blocks[run[0].hash] == run[0];
    }
  }

  /** The checkpoint lies at most 2000 connected, envelope-valid links below the canonical latest block. */
  ghost predicate NearTip(env: Env, db: Db) {
    exists run: seq<Block> ::
      && ValidRun(env, db, run) && |run| - 1 <= CHECKPOINT_DEPTH
      && db.checkpoint == Some(run[0].number) && db.checkpointHash == Some(run[0].hash)
      && db.latest == Some(Last(run).number) && GetBlock(db, Last(run).number) == Last(run)
  }

  /** The checkpoint either stayed or was written near the tip. */
  ghost predicate CheckpointMoves(env: Env, before: Db, after: Db) {
    || (after.checkpoint == before.checkpoint && after.checkpointHash == before.checkpointHash)
    || NearTip(env, after)
  }

  lemma AdvanceMoves(env: Env, db: Db, tip: Block)
    requires Indexed(db) && CheckpointSound(env, db) && tip.hash in db.blocks && db.blocks[tip.hash] == tip
    requires db.latest == Some(tip.number) && GetBlock(db, tip.number) == tip
    ensures CheckpointMoves(env, db, Advance(env, db, tip))
  {
    AdvanceLaw(env, db, tip);
    var d := Advance(env, db, tip);
    if d != db {
      var run: seq<Block> :| ValidRun(env, db, run) && Last(run) == tip && |run| - 1 <= CHECKPOINT_DEPTH
        && d.checkpoint == Some(run[0].number) && d.checkpointHash == Some(run[0].hash);
      assert ValidRun(env, d, run);
    }
  }

  // ---------------------------------------------------------------- writing a chain

  ghost predicate AllStored(blocks: map<string, Block>, chain: seq<Block>) {
    forall b <- chain :: b.hash in blocks && blocks[b.hash] == b
  }

  ghost predicate Rising(chain: seq<Block>) {
    forall i, j :: 0 <= i < j < |chain| ==> chain[i].number < chain[j].number && chain[i].hash != chain[j].hash
  }

  lemma PathIsRising(db: Db, chain: seq<Block>)
    requires Indexed(db) && IsPath(Stored(db), chain)
    ensures Rising(chain) && AllStored(db.blocks, chain)
  {
    StoredIsWellStored(db);
    forall i, j | 0 <= i < j < |chain| ensures chain[i].number < chain[j].number && chain[i].hash != chain[j].hash {
      PathRises(Stored(db), chain, i, j);
    }
    forall b <- chain ensures b.hash in db.blocks && db.blocks[b.hash] == b {
      assert b in Stored(db);
    }
  }

  lemma {:induction false} PutBlocksSame(blocks: map<string, Block>, chain: seq<Block>, lo: nat, hi: nat)
    requires AllStored(blocks, chain) && lo <= hi <= |chain|
    ensures PutBlocks(blocks, chain, lo, hi) == blocks
    decreases hi
  {
    if lo < hi {
      PutBlocksSame(blocks, chain, lo, hi - 1);
      assert chain[hi - 1] in chain;
    }
  }

  /** What the canonical index holds after writing: the written blocks at their numbers, the rest as before. */
  lemma {:induction false} PutHashesAt(m: map<int, string>, chain: seq<Block>, lo: nat, hi: nat)
    requires Rising(chain) && lo <= hi <= |chain|
    ensures
      var r := PutHashes(m, chain, lo, hi);
      && (forall i :: lo <= i < hi ==> chain[i].number in r && r[chain[i].number] == chain[i].hash)
      && (forall i :: 0 <= i < lo && chain[i].number in m ==>
            chain[i].number in r && r[chain[i].number] == m[chain[i].number])
    decreases hi
  {
    if lo < hi { PutHashesAt(m, chain, lo, hi - 1); }
  }

  lemma {:induction false} PutKeepsIndex(blocks: map<string, Block>, m: map<int, string>, l: map<int, Block>,
                                         chain: seq<Block>, lo: nat, hi: nat)
    requires BlocksOk(blocks) && CanonicalOk(blocks, m) && LegacyOk(blocks, m, l)
    requires AllStored(blocks, chain) && lo <= hi <= |chain|
    ensures CanonicalOk(blocks, PutHashes(m, chain, lo, hi))
    ensures LegacyOk(blocks, PutHashes(m, chain, lo, hi), PutLegacy(l, chain, lo, hi))
    decreases hi
  {
    if lo < hi {
      PutKeepsIndex(blocks, m, l, chain, lo, hi - 1);
      assert chain[hi - 1] in chain;
    }
  }

  lemma WriteKeeps(db: Db, chain: seq<Block>, lo: nat, hi: nat)
    requires Indexed(db) && AllStored(db.blocks, chain) && lo <= hi <= |chain|
    ensures Write(db, chain, lo, hi).blocks == db.blocks && Indexed(Write(db, chain, lo, hi))
  {
    PutBlocksSame(db.blocks, chain, lo, hi);
    PutKeepsIndex(db.blocks, db.canonical, db.legacy, chain, lo, hi);
  }

  /** The next keys of a chain written from scratch are exactly its consecutive pairs. */
  ghost predicate LinksExactly(nextHash: map<string, string>, nextId: map<int, int>, chain: seq<Block>) {
    && (forall h :: h in nextHash <==> exists i :: 0 <= i < |chain| - 1 && chain[i].hash == h)
    && (forall n :: n in nextId <==> exists i :: 0 <= i < |chain| - 1 && chain[i].number == n)
    && (forall i :: 0 <= i < |chain| - 1 ==> chain[i].hash in nextHash && nextHash[chain[i].hash] == chain[i + 1].hash)
    && (forall i :: 0 <= i < |chain| - 1 ==> chain[i].number in nextId && nextId[chain[i].number] == chain[i + 1].number)
  }

  lemma NextHashesAdded(m: map<string, string>, chain: seq<Block>, k: nat)
    requires Rising(chain) && k + 1 < |chain|
    requires forall i :: 0 <= i < k ==> chain[i].hash in m && m[chain[i].hash] == chain[i + 1].hash
    requires forall h <- m :: exists i :: 0 <= i < k && chain[i].hash == h
    ensures
      var r := m[chain[k].hash := chain[k + 1].hash];
      && (forall i :: 0 <= i < k + 1 ==> chain[i].hash in r && r[chain[i].hash] == chain[i + 1].hash)
      && (forall h <- r :: exists i :: 0 <= i < k + 1 && chain[i].hash == h)
  {
  }

  lemma {:induction false} PutNextHashesAt(chain: seq<Block>, hi: nat)
    requires Rising(chain) && hi < |chain|
    ensures
      var r := PutNextHashes(map[], chain, 0, hi);
      && (forall i :: 0 <= i < hi ==> chain[i].hash in r && r[chain[i].hash] == chain[i + 1].hash)
      && (forall h <- r :: exists i :: 0 <= i < hi && chain[i].hash == h)
  {
    if hi > 0 {
      PutNextHashesAt(chain, hi - 1);
      NextHashesAdded(PutNextHashes(map[], chain, 0, hi - 1), chain, hi - 1);
    }
  }

  lemma NextIdsAdded(m: map<int, int>, chain: seq<Block>, k: nat)
    requires Rising(chain) && k + 1 < |chain|
    requires forall i :: 0 <= i < k ==> chain[i].number in m && m[chain[i].number] == chain[i + 1].number
    requires forall n <- m :: exists i :: 0 <= i < k && chain[i].number == n
    ensures
      var r := m[chain[k].number := chain[k + 1].number];
      && (forall i :: 0 <= i < k + 1 ==> chain[i].number in r && r[chain[i].number] == chain[i + 1].number)
      && (forall n <- r :: exists i :: 0 <= i < k + 1 && chain[i].number == n)
  {
  }

  lemma {:induction false} PutNextIdsAt(chain: seq<Block>, hi: nat)
    requires Rising(chain) && hi < |chain|
    ensures
      var r := PutNextIds(map[], chain, 0, hi);
      && (forall i :: 0 <= i < hi ==> chain[i].number in r && r[chain[i].number] == chain[i + 1].number)
      && (forall n <- r :: exists i :: 0 <= i < hi && chain[i].number == n)
  {
    if hi > 0 {
      PutNextIdsAt(chain, hi - 1);
      NextIdsAdded(PutNextIds(map[], chain, 0, hi - 1), chain, hi - 1);
    }
  }

  lemma WriteLinks(chain: seq<Block>)
    requires Rising(chain) && chain != []
    ensures LinksExactly(PutNextHashes(map[], chain, 0, |chain|), PutNextIds(map[], chain, 0, |chain|), chain)
  {
    PutNextHashesAt(chain, |chain| - 1);
    PutNextIdsAt(chain, |chain| - 1);
  }

  /** `getBlock` returns the chain's block at every number on it. */
  ghost predicate Answers(db: Db, chain: seq<Block>) {
    forall i :: 0 <= i < |chain| ==> GetBlock(db, chain[i].number) == chain[i]
  }

  /** Latest number, latest hash and connected tip all name this block. */
  ghost predicate TipIs(db: Db, tip: Block) {
    db.latest == Some(tip.number) && db.latestHash == Some(tip.hash) && db.connected == Some(tip.number)
  }

  /** After the canonical index holds the chain, finishing sets the tip and keeps the invariant. */
  lemma FinishLaw(env: Env, db: Db, chain: seq<Block>)
    requires Valid(env, db) && chain != [] && AllStored(db.blocks, chain)
    requires forall i :: 0 <= i < |chain| ==>
      chain[i].number in db.canonical && db.canonical[chain[i].number] == chain[i].hash
    ensures
      var d := Finish(env, db, Last(chain));
      && Valid(env, d) && Answers(d, chain) && TipIs(d, Last(chain))
      && d.nextId == db.nextId && d.nextHash == db.nextHash && d.blocks == db.blocks
      && CheckpointNumber(d) >= CheckpointNumber(db)
  {
    var tip := Last(chain);
    assert tip in chain;
    GetBlockIndexed(db, tip.number);
    var d := SetLatest(db, tip.number).(connected := Some(tip.number));
    assert d == db.(latest := Some(tip.number), latestHash := Some(tip.hash), connected := Some(tip.number));
    AdvanceLaw(env, d, tip);
    var f := Finish(env, db, tip);
    assert Indexed(f);
    forall i | 0 <= i < |chain| ensures GetBlock(f, chain[i].number) == chain[i] {
      assert chain[i] in chain;
      GetBlockIndexed(f, chain[i].number);
    }
  }

  lemma FinishMoves(env: Env, db: Db, tip: Block)
    requires Valid(env, db) && tip.hash in db.blocks && db.blocks[tip.hash] == tip
    requires tip.number in db.canonical && db.canonical[tip.number] == tip.hash
    ensures CheckpointMoves(env, db, Finish(env, db, tip))
  {
    GetBlockIndexed(db, tip.number);
    var d := SetLatest(db, tip.number).(connected := Some(tip.number));
    assert d == db.(latest := Some(tip.number), latestHash := Some(tip.hash), connected := Some(tip.number));
    AdvanceMoves(env, d, tip);
  }

  // ---------------------------------------------------------------- rebuild

  lemma {:induction false} AcceptedPrefixIsLongest(env: Env, chain: seq<Block>)
    ensures AcceptedPrefix(env, chain) <= chain
    ensures AcceptedPrefix(env, chain) == [] || env.chainOk(AcceptedPrefix(env, chain))
    ensures forall k :: |AcceptedPrefix(env, chain)| < k <= |chain| ==> !env.chainOk(chain[..k])
  {
    if chain != [] && !env.chainOk(chain) {
      var shorter := chain[..|chain| - 1];
      AcceptedPrefixIsLongest(env, shorter);
      assert chain[..|chain|] == chain;
      forall k | |AcceptedPrefix(env, chain)| < k <= |chain| ensures !env.chainOk(chain[..k]) {
        if k < |chain| { assert chain[..k] == shorter[..k]; }
      }
    } else {
      assert chain[..|chain|] == chain;
    }
  }

  ghost function Candidates(db: Db): set<Block> {
    GenesisCandidates(Stored(db), FirstId(db), GetBlock(db, FirstId(db)))
  }

  /** The selected chain against every hash-linked path from a genesis candidate: it is the first 20000 blocks
      of a path that is no shorter and, if as long, ends no lower. */
  lemma SelectedIsLongest(db: Db, path: seq<Block>)
    requires Indexed(db) && IsPath(Stored(db), path) && path[0] in Candidates(db)
    ensures exists full ::
      && IsPath(Stored(db), full) && full[0] in Candidates(db)
      && NoBetter(|path|, Last(path).number, |full|, Last(full).number)
      && Selected(db) == Cut(full)
  {
    StoredIsWellStored(db);
    GetBlockIndexed(db, FirstId(db));
    FullChainIsLongest(Stored(db), Candidates(db), path);
    var full := FullChain(Stored(db), Candidates(db));
    assert Selected(db) == Cut(full);
  }

  lemma PrefixIsPath(store: set<Block>, path: seq<Block>, prefix: seq<Block>)
    requires IsPath(store, path) && prefix <= path && prefix != []
    ensures IsPath(store, prefix)
  {
    forall i | 0 <= i < |prefix| - 1 ensures Connects(prefix[i + 1], prefix[i]) {
      assert Connects(path[i + 1], path[i]);
    }
  }

  lemma SelectedIsPath(db: Db)
    requires Indexed(db)
    ensures Selected(db) != [] ==> IsPath(Stored(db), Selected(db)) && Selected(db)[0] in Candidates(db)
    ensures Selected(db) == [] <==> Candidates(db) == {}
  {
    StoredIsWellStored(db);
    GetBlockIndexed(db, FirstId(db));
    var full := FullChain(Stored(db), Candidates(db));
    assert Selected(db) == Cut(full);
    if c :| c in Candidates(db) {
      FullChainIsLongest(Stored(db), Candidates(db), [c]);
      PrefixIsPath(Stored(db), full, Cut(full));
    }
  }

  /** A stored chain committed: canonical at all its numbers, the next keys exactly its links, the tip its last
      block. */
  lemma CommitLaw(env: Env, db: Db, chain: seq<Block>)
    requires Valid(env, db) && IsPath(Stored(db), chain)
    ensures
      var d := Commit(env, db, chain);
      && Valid(env, d) && CheckpointNumber(d) >= CheckpointNumber(db) && d.blocks == db.blocks
      && Answers(d, chain) && LinksExactly(d.nextHash, d.nextId, chain) && TipIs(d, Last(chain))
      && d.nextHash == PutNextHashes(map[], chain, 0, |chain|) && d.nextId == PutNextIds(map[], chain, 0, |chain|)
  {
    PathIsRising(db, chain);
    var cleared := db.(nextId := map[], nextHash := map[]);
    WriteKeeps(cleared, chain, 0, |chain|);
    PutHashesAt(db.canonical, chain, 0, |chain|);
    WriteLinks(chain);
    FinishLaw(env, Write(cleared, chain, 0, |chain|), chain);
  }

  lemma CommitMoves(env: Env, db: Db, chain: seq<Block>)
    requires Valid(env, db) && IsPath(Stored(db), chain)
    ensures CheckpointMoves(env, db, Commit(env, db, chain))
  {
    PathIsRising(db, chain);
    var cleared := db.(nextId := map[], nextHash := map[]);
    WriteKeeps(cleared, chain, 0, |chain|);
    PutHashesAt(db.canonical, chain, 0, |chain|);
    assert Last(chain) in chain;
    FinishMoves(env, Write(cleared, chain, 0, |chain|), Last(chain));
  }

  /** What a slow rebuild leaves behind: the longest accepted prefix of the selected chain, committed; if the
      validator accepts no prefix the store is unchanged. */
  lemma SlowRebuildLaw(env: Env, db: Db)
    requires Valid(env, db)
    ensures
      var (tip, d) := SlowRebuild(env, db);
      var chain := AcceptedPrefix(env, Selected(db));
      && Valid(env, d) && CheckpointNumber(d) >= CheckpointNumber(db) && d.blocks == db.blocks
      && (chain == [] ==> tip == -1 && d == db)
      && (chain != [] ==>
            && tip == Last(chain).number
            && IsPath(Stored(db), chain)
            && Answers(d, chain) && LinksExactly(d.nextHash, d.nextId, chain) && TipIs(d, Last(chain)))
  {
    var chain := AcceptedPrefix(env, Selected(db));
    AcceptedPrefixIsLongest(env, Selected(db));
    SelectedIsPath(db);
    if chain != [] {
      PrefixIsPath(Stored(db), Selected(db), chain);
      SlowRebuildCommits(env, db, chain);
      CommitLaw(env, db, chain);
    }
  }

  /** No hash-linked path from a genesis candidate, accepted by the validator or not, is longer than the chain, or as
      long with a higher tip; of a chain cut at the limit, none of at most that length is longer. */
  ghost predicate Unbeaten(db: Db, chain: seq<Block>)
    requires Indexed(db)
  {
    chain != [] &&
    forall path :: IsPath(Stored(db), path) && path[0] in Candidates(db) ==>
      if |Selected(db)| < MAX_CHAIN_DEPTH then NoBetter(|path|, Last(path).number, |chain|, Last(chain).number)
      else |path| <= MAX_CHAIN_DEPTH ==> |path| <= |chain|
  }

  /** What a slow rebuild commits is unbeaten exactly when the validator accepts the whole selected chain: otherwise the
      rejected selection itself beats what is left of it. */
  lemma UnbeatenIffAccepted(env: Env, db: Db)
    requires Valid(env, db) && Candidates(db) != {}
    ensures Unbeaten(db, AcceptedPrefix(env, Selected(db))) <==> env.chainOk(Selected(db))
  {
    SelectedIsPath(db);
    if env.chainOk(Selected(db)) {
      SelectedIsUnbeaten(db);
    } else {
      RejectedIsShorter(env, Selected(db));
      SelectedBeats(db, AcceptedPrefix(env, Selected(db)));
    }
  }

  lemma RejectedIsShorter(env: Env, chain: seq<Block>)
    requires chain != [] && !env.chainOk(chain)
    ensures AcceptedPrefix(env, chain) < chain
  {
    AcceptedPrefixIsLongest(env, chain);
    assert AcceptedPrefix(env, chain) == chain ==> env.chainOk(chain);
  }

  lemma SelectedIsUnbeaten(db: Db)
    requires Indexed(db) && Selected(db) != []
    ensures Unbeaten(db, Selected(db))
  {
    var chain := Selected(db);
    forall path | IsPath(Stored(db), path) && path[0] in Candidates(db)
      ensures if |chain| < MAX_CHAIN_DEPTH then NoBetter(|path|, Last(path).number, |chain|, Last(chain).number)
              else |path| <= MAX_CHAIN_DEPTH ==> |path| <= |chain|
    {
      SelectedIsLongest(db, path);
    }
  }

  lemma SelectedBeats(db: Db, chain: seq<Block>)
    requires Indexed(db) && chain < Selected(db)
    ensures !Unbeaten(db, chain)
  {
    SelectedIsPath(db);
    var path := Selected(db);
    assert IsPath(Stored(db), path) && path[0] in Candidates(db);
    assert |path| <= MAX_CHAIN_DEPTH;
  }

  lemma SlowRebuildCommits(env: Env, db: Db, chain: seq<Block>)
    requires Indexed(db) && chain == AcceptedPrefix(env, Selected(db)) && IsPath(Stored(db), chain)
    ensures SlowRebuild(env, db) == (Last(chain).number, Commit(env, db, chain))
  {
    assert chain[0] in Stored(db);
  }

  /** A successful fast path: a connected, envelope-valid run of stored blocks leads from the checkpoint to the
      canonical latest block, and no stored block lies above it. */
  lemma FastPathSound(env: Env, db: Db)
    requires Valid(env, db) && FastTip(env, db, GetOr(db.highest, -1)).Some?
    ensures
      var tip := FastTip(env, db, GetOr(db.highest, -1)).value;
      && (exists run: seq<Block> :: ValidRun(env, db, run) && run[0].number == db.checkpoint.value
            && run[0].hash == db.checkpointHash.value && Last(run) == tip)
      && tip.number == LatestId(db) && GetBlock(db, LatestId(db)) == tip
      && tip.hash in db.blocks && db.blocks[tip.hash] == tip
      && (forall h <- db.blocks :: db.blocks[h].number <= tip.number)
  {
    var cp := ReadCheckpoint(db).value;
    var start := RawBlock(db, cp.1);
    var run := ClimbIsRun(env, db, start, LatestId(db), 0);
    var tip := Climb(env, db, start, LatestId(db), 0).value;
    GetBlockIndexed(db, LatestId(db));
    assert tip.hash in db.blocks;
  }

  lemma {:induction false} ClimbIsRun(env: Env, db: Db, current: Block, latest: int, steps: nat) returns (run: seq<Block>)
    requires Indexed(db) && steps <= FAST_LIMIT && EnvelopeValid(env, current)
    requires current.hash in db.blocks && db.blocks[current.hash] == current
    requires Climb(env, db, current, latest, steps).Some?
    ensures ValidRun(env, db, run) && run[0] == current && Last(run) == Climb(env, db, current, latest, steps).value
    ensures Last(run).number == latest && Last(run).hash in db.blocks && db.blocks[Last(run).hash] == Last(run)
    decreases FAST_LIMIT - steps
  {
    run := [current];
    if current.number < latest && steps < FAST_LIMIT {
      var next := RawBlock(db, db.nextHash[current.hash]);
      var above := ClimbIsRun(env, db, next, latest, steps + 1);
      run := [current] + above;
    }
  }

  lemma RebuildLaw(env: Env, db: Db)
    requires Valid(env, db)
    ensures
      var (tip, d) := RebuildStep(env, db);
      Valid(env, d) && CheckpointNumber(d) >= CheckpointNumber(db) && d.blocks == db.blocks
  {
    if FirstId(db) >= 0 {
      match FastTip(env, db, GetOr(db.highest, -1))
      case Some(tip) =>
        FastPathSound(env, db);
        AdvanceLaw(env, db.(connected := Some(tip.number)), tip);
      case None =>
        SlowRebuildLaw(env, db);
    }
  }

  lemma RebuildMoves(env: Env, db: Db)
    requires Valid(env, db)
    ensures CheckpointMoves(env, db, RebuildStep(env, db).1)
  {
    if FirstId(db) >= 0 {
      match FastTip(env, db, GetOr(db.highest, -1))
      case Some(tip) =>
        FastPathSound(env, db);
        AdvanceMoves(env, db.(connected := Some(tip.number)), tip);
      case None =>
        SlowRebuildMoves(env, db);
    }
  }

  lemma SlowRebuildMoves(env: Env, db: Db)
    requires Valid(env, db)
    ensures CheckpointMoves(env, db, SlowRebuild(env, db).1)
  {
    var chain := AcceptedPrefix(env, Selected(db));
    SlowRebuildLaw(env, db);
    if chain != [] {
      SlowRebuildCommits(env, db, chain);
      CommitMoves(env, db, chain);
    }
  }

  // ---------------------------------------------------------------- adoption

  /** Parent hashes lead from the last block to the configured genesis through stored, envelope-valid,
      connecting blocks. */
  ghost predicate GenesisPath(env: Env, db: Db, path: seq<Block>) {
    && IsPath(Stored(db), path)
    && (forall b <- path :: EnvelopeValid(env, b))
    && path[0].previousId <= 0 && path[0].number == FirstId(db)
    && env.genesisMatches(path[0].number, path[0].hash)
  }

  lemma {:induction false} WalkBackSound(env: Env, db: Db, b: Block)
    requires Indexed(db) && b in Stored(db) && WalkBack(env, db, FirstId(db), b).Some?
    ensures
      var chain := WalkBack(env, db, FirstId(db), b).value;
      GenesisPath(env, db, chain) && Last(chain) == b
    decreases b.number
  {
    if b.previousId > 0 {
      var parent := BlockByHash(db, b.previousHash);
      assert parent in Stored(db);
      WalkBackSound(env, db, parent);
      var below := WalkBack(env, db, FirstId(db), parent).value;
      var chain := below + [b];
      forall i | 0 <= i < |chain| - 1 ensures Connects(chain[i + 1], chain[i]) {
        if i < |below| - 1 { assert Connects(below[i + 1], below[i]); }
      }
    }
  }

  lemma {:induction false} WalkBackComplete(env: Env, db: Db, path: seq<Block>)
    requires Indexed(db) && GenesisPath(env, db, path)
    ensures Last(path).number > 0 && Last(path).hash != ""
    ensures WalkBack(env, db, FirstId(db), Last(path)) == Some(path)
    decreases |path|
  {
    var b := Last(path);
    assert b in path && b in Stored(db);
    if |path| > 1 {
      var below := path[..|path| - 1];
      assert Connects(path[|path| - 2 + 1], path[|path| - 2]);
      assert path == below + [b];
      PrefixIsPath(Stored(db), path, below);
      WalkBackComplete(env, db, below);
      assert Last(below) in path && Last(below) in Stored(db);
      assert BlockByHash(db, b.previousHash) == Last(below);
    } else {
      assert path == [b];
    }
  }

  /** Adoption succeeds exactly when such a path ends at the given hash. */
  lemma AdoptionIff(env: Env, db: Db, tipHash: string)
    requires Indexed(db) && FirstId(db) > 0 && tipHash != ""
    ensures AdoptStep(env, db, tipHash).0.Some?
       <==> exists path :: GenesisPath(env, db, path) && Last(path).hash == tipHash
  {
    var tip := BlockByHash(db, tipHash);
    if AdoptStep(env, db, tipHash).0.Some? {
      assert tip in Stored(db);
      WalkBackSound(env, db, tip);
    }
    if path :| GenesisPath(env, db, path) && Last(path).hash == tipHash {
      WalkBackComplete(env, db, path);
      assert Last(path) in path && Last(path) in Stored(db);
      assert Last(path) == tip;
    }
  }

  lemma {:induction false} AgreementIsPrefix(db: Db, chain: seq<Block>, i: nat)
    requires i < Agreement(db, chain)
    ensures Agrees(db, chain[i])
  {
    if i > 0 { AgreementIsPrefix(db, chain[1..], i - 1); }
  }

  lemma AdoptionWrites(env: Env, db: Db, chain: seq<Block>)
    requires Valid(env, db) && GenesisPath(env, db, chain)
    ensures
      var w := Write(db, chain, RewriteFrom(db, chain), |chain|);
      && Valid(env, w) && AllStored(w.blocks, chain) && w.blocks == db.blocks && CheckpointNumber(w) == CheckpointNumber(db)
      && forall i :: 0 <= i < |chain| ==> chain[i].number in w.canonical && w.canonical[chain[i].number] == chain[i].hash
  {
    PathIsRising(db, chain);
    var k := RewriteFrom(db, chain);
    var w := Write(db, chain, k, |chain|);
    WriteKeeps(db, chain, k, |chain|);
    PutHashesAt(db.canonical, chain, k, |chain|);
    forall i | 0 <= i < k ensures chain[i].number in w.canonical && w.canonical[chain[i].number] == chain[i].hash {
      AgreementIsPrefix(db, chain, i);
      GetBlockIndexed(db, chain[i].number);
      assert chain[i] in chain;
    }
  }

  /** When adoption rewrites, the adopted chain answers at all its numbers and its last block is the tip;
      when the previous tip is the adopted one it changes nothing; the invariant holds either way. */
  lemma AdoptionLaw(env: Env, db: Db, tipHash: string)
    requires Valid(env, db)
    ensures
      var (adopted, d) := AdoptStep(env, db, tipHash);
      && Valid(env, d) && CheckpointNumber(d) >= CheckpointNumber(db) && d.blocks == db.blocks
      && (adopted.None? ==> d == db)
      && (adopted.Some? ==>
            var chain := AdoptableChain(env, db, tipHash).value;
            && GenesisPath(env, db, chain) && Last(chain).hash == tipHash
            && (AlreadyTip(db, Last(chain)) ==> d == db && adopted == Some(Last(chain).number))
            && (!AlreadyTip(db, Last(chain)) ==>
                  adopted == Some(Last(chain).number) && Answers(d, chain) && TipIs(d, Last(chain))))
  {
    if AdoptStep(env, db, tipHash).0.Some? {
      var tip := BlockByHash(db, tipHash);
      assert tip in Stored(db);
      WalkBackSound(env, db, tip);
      var chain := AdoptableChain(env, db, tipHash).value;
      if AlreadyTip(db, tip) {
        GetBlockIndexed(db, LatestId(db));
      } else {
        AdoptionWrites(env, db, chain);
        FinishLaw(env, Write(db, chain, RewriteFrom(db, chain), |chain|), chain);
      }
    }
  }

  lemma AdoptionMoves(env: Env, db: Db, tipHash: string)
    requires Valid(env, db)
    ensures CheckpointMoves(env, db, AdoptStep(env, db, tipHash).1)
  {
    AdoptionLaw(env, db, tipHash);
    if AdoptStep(env, db, tipHash).0.Some? {
      var chain := AdoptableChain(env, db, tipHash).value;
      AdoptionWrites(env, db, chain);
      assert Last(chain) in chain;
      FinishMoves(env, Write(db, chain, RewriteFrom(db, chain), |chain|), Last(chain));
    }
  }

  lemma {:induction false} AgreementIsAll(db: Db, chain: seq<Block>)
    ensures Agreement(db, chain) == |chain| <==> forall i :: 0 <= i < |chain| ==> Agrees(db, chain[i])
  {
    if chain != [] {
      AgreementIsAll(db, chain[1..]);
      if forall i :: 0 <= i < |chain| ==> Agrees(db, chain[i]) {
        assert forall i :: 0 <= i < |chain[1..]| ==> chain[1..][i] == chain[i + 1];
      }
      if Agreement(db, chain) == |chain| {
        forall i | 0 <= i < |chain| ensures Agrees(db, chain[i]) { AgreementIsPrefix(db, chain, i); }
      }
    }
  }

  lemma AgreementAnswers(db: Db, chain: seq<Block>)
    requires Indexed(db) && AllStored(db.blocks, chain)
    ensures Answers(db, chain) <==> Agreement(db, chain) == |chain|
  {
    AgreementIsAll(db, chain);
    forall i | 0 <= i < |chain| ensures Agrees(db, chain[i]) <==> GetBlock(db, chain[i].number) == chain[i] {
      assert chain[i] in chain;
      GetBlockIndexed(db, chain[i].number);
    }
  }

  /** A successful adoption leaves the chain answering at all its numbers, unless its last block was the tip already
      and the canonical index disagrees somewhere below: that case is reported as adopted and not repaired. */
  lemma AdoptionAnswersIff(env: Env, db: Db, tipHash: string)
    requires Valid(env, db) && AdoptStep(env, db, tipHash).0.Some?
    ensures
      var chain := AdoptableChain(env, db, tipHash).value;
      Answers(AdoptStep(env, db, tipHash).1, chain) <==> !AlreadyTip(db, Last(chain)) || Agreement(db, chain) == |chain|
  {
    AdoptionLaw(env, db, tipHash);
    var chain := AdoptableChain(env, db, tipHash).value;
    PathIsRising(db, chain);
    AgreementAnswers(db, chain);
  }

  // ---------------------------------------------------------------- adding a block

  /** One more slot key: the count rises exactly when the slot was taken. */
  lemma SlotAdded(slots: set<(int, string)>, s: (int, string))
    requires s !in slots
    ensures ForkCount(slots + {s}) == ForkCount(slots) + if s.0 in Numbers(slots) then 1 else 0
    ensures forall n :: Forked(slots + {s}, n) <==> Forked(slots, n) || (n == s.0 && n in Numbers(slots))
  {
    var more := slots + {s};
    assert Numbers(more) == Numbers(slots) + {s.0} by {
      forall n | n in Numbers(slots) + {s.0} ensures n in Numbers(more) {
        if n == s.0 { assert s in more; } else { var t :| t in slots && t.0 == n; assert t in more; }
      }
    }
    assert |more| == |slots| + 1;
    if s.0 in Numbers(slots) { assert Numbers(more) == Numbers(slots); }
    forall n ensures Forked(more, n) <==> Forked(slots, n) || (n == s.0 && n in Numbers(slots)) {
      if Forked(slots, n) {
        var t, u :| t in slots && u in slots && t.0 == n && u.0 == n && t != u;
        assert t in more && u in more;
      } else if n == s.0 && n in Numbers(slots) {
        var t :| t in slots && t.0 == n;
        assert t in more && s in more;
      }
    }
  }

  lemma SlotTaken(db: Db, number: int)
    requires Indexed(db)
    ensures number in Numbers(db.slots) <==> number in db.canonical
  {
    if number in db.canonical {
      assert (number, db.canonical[number]) in db.slots;
    }
  }

  /** Whether the block takes over its slot. */
  predicate Wins(db: Db, b: Block) {
    b.number !in db.canonical || PreferVariant(b, GetBlock(db, b.number))
  }

  lemma InsertSameSlot(db: Db, b: Block)
    requires Indexed(db) && b.number > 0 && b.hash != "" && b.hash !in db.blocks
    ensures GetBlock(WithBlock(db, b), b.number) == GetBlock(db, b.number)
    ensures GetBlock(db, b.number).number > 0 <==> b.number in db.canonical
  {
    GetBlockIndexed(db, b.number);
    if b.number in db.canonical {
      assert db.canonical[b.number] != b.hash;
    }
  }

  lemma IndexAdded(blocks: map<string, Block>, canonical: map<int, string>, legacy: map<int, Block>, b: Block, wins: bool)
    requires BlocksOk(blocks) && CanonicalOk(blocks, canonical) && LegacyOk(blocks, canonical, legacy)
    requires b.number > 0 && b.hash != "" && b.hash !in blocks
    requires wins || b.number in canonical
    ensures
      var c := if wins then canonical[b.number := b.hash] else canonical;
      var l := if wins then legacy[b.number := b] else legacy;
      BlocksOk(blocks[b.hash := b]) && CanonicalOk(blocks[b.hash := b], c) && LegacyOk(blocks[b.hash := b], c, l)
  {
  }

  lemma SlotsAdded(blocks: map<string, Block>, b: Block)
    requires b.hash !in blocks
    ensures SlotsOf(blocks[b.hash := b]) == SlotsOf(blocks) + {(b.number, b.hash)}
  {
    var more := blocks[b.hash := b];
    assert forall h <- blocks :: more[h] == blocks[h];
    assert b.hash in more;
  }

  lemma EnterKeepsIndex(db: Db, b: Block)
    requires Indexed(db) && b.number > 0 && b.hash != "" && b.hash !in db.blocks
    ensures Indexed(Enter(db, b))
  {
    InsertSameSlot(db, b);
    IndexAdded(db.blocks, db.canonical, db.legacy, b, Wins(db, b));
    SlotsAdded(db.blocks, b);
  }

  lemma HighestAdded(blocks: map<string, Block>, b: Block, highest: int)
    requires IsHighest(blocks, highest) && b.hash !in blocks && b.number > 0
    ensures IsHighest(blocks[b.hash := b], if b.number > highest then b.number else highest)
  {
    var more := blocks[b.hash := b];
    if b.number > highest {
      assert more[b.hash].number == b.number;
    } else {
      var h :| h in blocks && blocks[h].number == highest;
      assert more[h].number == highest;
    }
  }

  lemma ForksAdded(slots: set<(int, string)>, latestFork: Option<int>, forkCount: Option<int>, s: (int, string))
    requires ForksExact(slots, latestFork, forkCount) && s !in slots && s.0 > 0
    ensures s.0 !in Numbers(slots) ==> ForksExact(slots + {s}, latestFork, forkCount)
    ensures s.0 in Numbers(slots) ==>
      ForksExact(slots + {s},
        if s.0 > GetOr(latestFork, -1) then Some(s.0) else latestFork,
        Some(if forkCount.Some? then forkCount.value + 1 else ForkCount(slots + {s})))
  {
    SlotAdded(slots, s);
  }

  lemma EnterKeepsCaches(db: Db, b: Block)
    requires Indexed(db) && CachesExact(db) && b.number > 0 && b.hash != "" && b.hash !in db.blocks
    ensures CachesExact(Enter(db, b))
  {
    InsertSameSlot(db, b);
    SlotTaken(db, b.number);
    assert (b.number, b.hash) !in db.slots;
    ForksAdded(db.slots, db.latestFork, db.forkCount, (b.number, b.hash));
    HighestAdded(db.blocks, b, GetOr(db.highest, -1));
  }

  lemma LinkKeeps(db: Db, b: Block)
    ensures
      var l := LinkNext(db, b);
      l == db.(nextId := l.nextId, nextHash := l.nextHash)
  {
  }

  lemma MoveTipKeeps(env: Env, db: Db, b: Block)
    requires Valid(env, db) && b.hash in db.blocks && db.blocks[b.hash] == b
    ensures
      var d := MoveTip(env, db, b);
      && Valid(env, d) && CheckpointNumber(d) >= CheckpointNumber(db)
      && d.blocks == db.blocks && d.canonical == db.canonical && d.legacy == db.legacy
  {
    SetLatestKeeps(env, db, b.number);
    AdvanceKeeps(env, SetLatest(db, b.number), b);
    MoveTipCases(env, db, b);
  }

  lemma MoveTipCases(env: Env, db: Db, b: Block)
    ensures
      var d, l := MoveTip(env, db, b), SetLatest(db, b.number);
      d == db || d == l || d == Advance(env, l, b)
  {
  }

  lemma SetLatestKeeps(env: Env, db: Db, number: int)
    requires Valid(env, db)
    ensures
      var l := SetLatest(db, number);
      l == db.(latest := l.latest, latestHash := l.latestHash) && Valid(env, l)
  {
  }

  lemma AdvanceKeeps(env: Env, db: Db, tip: Block)
    requires Valid(env, db) && tip.hash in db.blocks && db.blocks[tip.hash] == tip
    ensures
      var d := Advance(env, db, tip);
      && Valid(env, d) && CheckpointNumber(d) >= CheckpointNumber(db)
      && d.blocks == db.blocks && d.canonical == db.canonical && d.legacy == db.legacy
  {
    AdvanceLaw(env, db, tip);
  }

  /** Adding keeps the invariant, in particular every cache, and never lowers the checkpoint. */
  lemma AddLaw(env: Env, db: Db, b: Block, rulesOk: bool)
    requires Valid(env, db)
    ensures
      var (ok, d) := AddStep(env, db, b, rulesOk);
      && Valid(env, d) && CheckpointNumber(d) >= CheckpointNumber(db)
      && d.blocks == if ok && b.hash !in db.blocks then db.blocks[b.hash := b] else db.blocks
  {
    if Enters(env, db, b, rulesOk) {
      StoreBlockKeeps(env, db, b);
    }
  }

  /** Linking and moving the tip keep the invariant and leave the block indexes as the entry made them. */
  lemma StoreBlockKeeps(env: Env, db: Db, b: Block)
    requires Valid(env, db) && b.number > 0 && b.hash != "" && b.hash !in db.blocks
    ensures
      var d, e := StoreBlock(env, db, b), Enter(db, b);
      && Valid(env, d) && CheckpointNumber(d) >= CheckpointNumber(db)
      && d.blocks == e.blocks && d.canonical == e.canonical && d.legacy == e.legacy
  {
    EnterLaw(env, db, b);
    var e := Enter(db, b);
    StoreBlockSplits(env, db, b);
    LinkKeeps(e, b);
    MoveTipKeeps(env, LinkNext(e, b), b);
  }

  lemma StoreBlockSplits(env: Env, db: Db, b: Block)
    requires Indexed(db) && b.number > 0 && b.hash != "" && b.hash !in db.blocks
    ensures StoreBlock(env, db, b) == if Wins(db, b) then MoveTip(env, LinkNext(Enter(db, b), b), b) else Enter(db, b)
  {
    InsertSameSlot(db, b);
  }

  lemma EnterLaw(env: Env, db: Db, b: Block)
    requires Valid(env, db) && b.number > 0 && b.hash != "" && b.hash !in db.blocks
    ensures Valid(env, Enter(db, b)) && CheckpointNumber(Enter(db, b)) == CheckpointNumber(db)
  {
    InsertSameSlot(db, b);
    EnterKeepsIndex(db, b);
    EnterKeepsCaches(db, b);
  }

  lemma AddMoves(env: Env, db: Db, b: Block)
    requires Valid(env, db) && b.number > 0 && b.hash != "" && b.hash !in db.blocks
    ensures CheckpointMoves(env, db, StoreBlock(env, db, b))
  {
    InsertSameSlot(db, b);
    StoreBlockSplits(env, db, b);
    EnterLaw(env, db, b);
    if Wins(db, b) {
      var e := Enter(db, b);
      LinkKeeps(e, b);
      MoveTipMoves(env, LinkNext(e, b), b);
    }
  }

  lemma MoveTipMoves(env: Env, db: Db, b: Block)
    requires Valid(env, db) && b.hash in db.blocks && db.blocks[b.hash] == b
    requires b.number in db.canonical && db.canonical[b.number] == b.hash
    ensures CheckpointMoves(env, db, MoveTip(env, db, b))
  {
    GetBlockIndexed(db, b.number);
    var l := SetLatest(db, b.number);
    SetLatestKeeps(env, db, b.number);
    MoveTipCases(env, db, b);
    AdvanceMoves(env, l, b);
  }

  /** Whether a winning block becomes the latest: a first block in a store without one, or one on top of the canonical
      latest block. */
  predicate MovesTip(db: Db, b: Block) {
    var latest := LatestId(db);
    || (b.previousId <= 0 && latest < 0)
    || (b.previousId == latest && GetBlock(db, latest).number == latest
        && GetBlock(db, latest).hash != "" && GetBlock(db, latest).hash == b.previousHash)
  }

  /** What a stored block changes in the block indexes, the first block and the latest keys. */
  lemma AddEffect(env: Env, db: Db, b: Block)
    requires Valid(env, db) && b.number > 0 && b.hash != "" && b.hash !in db.blocks && b.previousId < b.number
    ensures
      var d := StoreBlock(env, db, b);
      && d.blocks == db.blocks[b.hash := b] && d.first == db.first
      && d.canonical == (if Wins(db, b) then db.canonical[b.number := b.hash] else db.canonical)
      && (if Wins(db, b) && MovesTip(db, b) then d.latest == Some(b.number) && d.latestHash == Some(b.hash)
          else d.latest == db.latest && d.latestHash == db.latestHash)
  {
    StoreBlockKeeps(env, db, b);
    StoreBlockSplits(env, db, b);
    InsertSameSlot(db, b);
    EnterLaw(env, db, b);
    var e := Enter(db, b);
    if Wins(db, b) {
      LinkKeeps(e, b);
      var l := LinkNext(e, b);
      SameTip(db, b, l);
      MoveTipEffect(env, l, b);
    }
  }

  /** Entering and linking a block leaves the answer at every other number. */
  lemma SameTip(db: Db, b: Block, l: Db)
    requires Indexed(db) && b.number > 0 && b.hash != "" && b.hash !in db.blocks && b.previousId < b.number
    requires Indexed(l) && l.blocks == db.blocks[b.hash := b] && l.canonical == db.canonical[b.number := b.hash]
    requires l.latest == db.latest
    ensures MovesTip(l, b) <==> MovesTip(db, b)
  {
    GetBlockIndexed(db, LatestId(db));
    GetBlockIndexed(l, LatestId(db));
  }

  lemma MoveTipEffect(env: Env, db: Db, b: Block)
    requires Indexed(db) && b.hash in db.blocks && db.blocks[b.hash] == b
    requires b.number in db.canonical && db.canonical[b.number] == b.hash
    ensures
      var d := MoveTip(env, db, b);
      && d.first == db.first
      && (if MovesTip(db, b) then d.latest == Some(b.number) && d.latestHash == Some(b.hash)
          else d.latest == db.latest && d.latestHash == db.latestHash)
  {
    GetBlockIndexed(db, b.number);
    var l := SetLatest(db, b.number);
    assert l == db.(latest := Some(b.number), latestHash := Some(b.hash));
    AdvanceKeepsTip(env, l, b);
  }

  lemma AdvanceKeepsTip(env: Env, db: Db, tip: Block)
    ensures
      var d := Advance(env, db, tip);
      d.first == db.first && d.latest == db.latest && d.latestHash == db.latestHash && d.canonical == db.canonical
  {
  }
}

/** Exactly when the checkpoint lets a rebuild skip the selection (src/blockdb.cpp): a run of next-hash keys leads from
    the canonical checkpoint to the canonical latest block, nothing is stored above it, and no number from the checkpoint
    on is stored twice. */
module FastPath {
  import opened Options
  import opened Blocks
  import opened BestChain
  import opened ChainStore

  // ---------------------------------------------------------------- forks, on the blocks themselves

  /** Some number from the given one on belongs to two stored blocks. */
  ghost predicate StoredTwiceFrom(blocks: map<string, Block>, number: int) {
    exists g <- blocks, h <- blocks :: g != h && blocks[g].number == blocks[h].number && blocks[g].number >= number
  }

  lemma ForkedFromIff(blocks: map<string, Block>, number: int)
    ensures ForkedFrom(SlotsOf(blocks), number) <==> StoredTwiceFrom(blocks, number)
  {
    var slots := SlotsOf(blocks);
    if ForkedFrom(slots, number) {
      var n :| n >= number && Forked(slots, n);
      var s, t :| s in slots && t in slots && s.0 == n && t.0 == n && s != t;
      assert s.1 in blocks && t.1 in blocks && s.1 != t.1;
    }
    if StoredTwiceFrom(blocks, number) {
      var g, h :| g in blocks && h in blocks && g != h && blocks[g].number == blocks[h].number && blocks[g].number >= number;
      assert (blocks[g].number, g) in slots && (blocks[h].number, h) in slots;
      assert Forked(slots, blocks[g].number);
    }
  }

  /** Every forked slot is counted. */
  lemma ForkIsCounted(slots: set<(int, string)>, n: int)
    requires Forked(slots, n)
    ensures ForkCount(slots) > 0
  {
    var s, t :| s in slots && t in slots && s.0 == n && t.0 == n && s != t;
    var rest := slots - {s};
    assert Numbers(slots) == Numbers(rest) by {
      forall m | m in Numbers(slots) ensures m in Numbers(rest) {
        var u :| u in slots && u.0 == m;
        assert (if u == s then t else u) in rest;
      }
    }
    NumbersAtMost(rest);
  }

  lemma {:induction false} NumbersAtMost(slots: set<(int, string)>)
    ensures |Numbers(slots)| <= |slots|
    decreases |slots|
  {
    if slots != {} {
      var s :| s in slots;
      var rest := slots - {s};
      NumbersAtMost(rest);
      assert Numbers(slots) == Numbers(rest) + {s.0} by {
        forall m | m in Numbers(slots) ensures m in Numbers(rest) + {s.0} {
          var u :| u in slots && u.0 == m;
          assert u != s ==> u in rest;
        }
      }
    }
  }

  /** With exact caches the test of the fast path is a test of the stored blocks. */
  lemma ForkTestIff(db: Db, number: int)
    requires Indexed(db) && CachesExact(db)
    ensures StoredTwiceFrom(db.blocks, number) <==>
      GetOr(db.forkCount, 0) > 0 && (db.latestFork.None? || db.latestFork.value >= number) && ForkedFrom(db.slots, number)
  {
    ForkedFromIff(db.blocks, number);
    if ForkedFrom(db.slots, number) {
      var n :| n >= number && Forked(db.slots, n);
      ForkIsCounted(db.slots, n);
    }
  }

  // ---------------------------------------------------------------- the climb

  /** Connected, envelope-valid blocks, each named by the next-hash key of the one before. */
  ghost predicate KeyRun(env: Env, db: Db, run: seq<Block>) {
    && run != []
    && (forall b <- run :: EnvelopeValid(env, b) && b.hash in db.blocks && db.blocks[b.hash] == b)
    && (forall i :: 0 <= i < |run| - 1 ==> KeyLink(db, run[i], run[i + 1]))
  }

  ghost predicate KeyLink(db: Db, b: Block, c: Block) {
    Connects(c, b) && b.hash in db.nextHash && db.nextHash[b.hash] == c.hash
  }

  lemma {:induction false} ClimbSound(env: Env, db: Db, current: Block, latest: int, steps: nat) returns (run: seq<Block>)
    requires Indexed(db) && steps <= FAST_LIMIT && EnvelopeValid(env, current)
    requires current.hash in db.blocks && db.blocks[current.hash] == current
    requires Climb(env, db, current, latest, steps).Some?
    ensures KeyRun(env, db, run) && run[0] == current && steps + |run| <= FAST_LIMIT
    ensures Last(run) == Climb(env, db, current, latest, steps).value && Last(run).number == latest
    decreases FAST_LIMIT - steps
  {
    run := [current];
    if current.number < latest && steps < FAST_LIMIT {
      var next := RawBlock(db, db.nextHash[current.hash]);
      var above := ClimbSound(env, db, next, latest, steps + 1);
      run := [current] + above;
      forall i | 0 <= i < |run| - 1 ensures KeyLink(db, run[i], run[i + 1]) {
        if i > 0 { assert KeyLink(db, above[i - 1], above[i - 1 + 1]); }
      }
    }
  }

  lemma KeyRunTail(env: Env, db: Db, run: seq<Block>)
    requires KeyRun(env, db, run) && |run| > 1
    ensures KeyRun(env, db, run[1..]) && KeyLink(db, run[0], run[1])
  {
    assert KeyLink(db, run[0], run[0 + 1]);
    forall i | 0 <= i < |run[1..]| - 1 ensures KeyLink(db, run[1..][i], run[1..][i + 1]) {
      assert KeyLink(db, run[i + 1], run[i + 1 + 1]);
    }
  }

  lemma {:induction false} KeyRunRises(env: Env, db: Db, run: seq<Block>)
    requires KeyRun(env, db, run)
    ensures run[0].number <= Last(run).number && (|run| > 1 ==> run[0].number < Last(run).number)
    decreases |run|
  {
    if |run| > 1 {
      KeyRunTail(env, db, run);
      KeyRunRises(env, db, run[1..]);
    }
  }

  lemma {:induction false} ClimbComplete(env: Env, db: Db, run: seq<Block>, steps: nat)
    requires Indexed(db) && KeyRun(env, db, run) && steps + |run| <= FAST_LIMIT
    ensures Climb(env, db, run[0], Last(run).number, steps) == Some(Last(run))
    decreases |run|
  {
    KeyRunRises(env, db, run);
    if |run| > 1 {
      KeyRunTail(env, db, run);
      ClimbComplete(env, db, run[1..], steps + 1);
      assert run[1] in run;
      assert RawBlock(db, db.nextHash[run[0].hash]) == run[1];
    }
  }

  // ---------------------------------------------------------------- the fast path

  /** The run starts at the checkpoint, which is canonical, and ends at the canonical latest block, within the limit. */
  ghost predicate SpansCheckpoint(env: Env, db: Db, run: seq<Block>) {
    && KeyRun(env, db, run) && |run| <= 20000
    && db.checkpoint == Some(run[0].number) && db.checkpointHash == Some(run[0].hash)
    && GetBlock(db, run[0].number) == run[0]
    && db.latest == Some(Last(run).number) && GetBlock(db, Last(run).number) == Last(run)
  }

  /** No stored block lies above the latest number, and no number from the checkpoint on is stored twice. */
  ghost predicate Undisputed(db: Db) {
    && (forall h <- db.blocks :: db.blocks[h].number <= LatestId(db))
    && db.checkpoint.Some? && !StoredTwiceFrom(db.blocks, db.checkpoint.value)
  }

  lemma CanonicalCheckpoint(env: Env, db: Db, number: int, hash: string)
    requires Indexed(db)
    ensures CheckpointMatches(env, db, number, hash) <==>
      && number in db.canonical && db.canonical[number] == hash && EnvelopeValid(env, GetBlock(db, number))
  {
    GetBlockIndexed(db, number);
  }

  lemma NothingAbove(db: Db, latest: int)
    requires HighestExact(db.blocks, db.highest) && latest > 0
    ensures GetOr(db.highest, -1) <= latest <==> forall h <- db.blocks :: db.blocks[h].number <= latest
  {
    var highest := GetOr(db.highest, -1);
    if highest > 0 {
      var h :| h in db.blocks && db.blocks[h].number == highest;
    }
  }

  lemma FastPathNeeds(env: Env, db: Db) returns (run: seq<Block>)
    requires Valid(env, db) && FastTip(env, db, GetOr(db.highest, -1)).Some?
    ensures SpansCheckpoint(env, db, run) && Undisputed(db) && Last(run) == FastTip(env, db, GetOr(db.highest, -1)).value
  {
    var cp := ReadCheckpoint(db).value;
    CanonicalCheckpoint(env, db, cp.0, cp.1);
    GetBlockIndexed(db, cp.0);
    GetBlockIndexed(db, LatestId(db));
    NothingAbove(db, LatestId(db));
    ForkTestIff(db, cp.0);
    run := ClimbSound(env, db, RawBlock(db, cp.1), LatestId(db), 0);
    assert Last(run) in run;
  }

  lemma FastPathTakes(env: Env, db: Db, run: seq<Block>)
    requires Valid(env, db) && SpansCheckpoint(env, db, run) && Undisputed(db)
    ensures FastTip(env, db, GetOr(db.highest, -1)) == Some(Last(run))
  {
    assert run[0] in run && Last(run) in run;
    KeyRunRises(env, db, run);
    CanonicalCheckpoint(env, db, run[0].number, run[0].hash);
    GetBlockIndexed(db, run[0].number);
    GetBlockIndexed(db, LatestId(db));
    NothingAbove(db, LatestId(db));
    ForkTestIff(db, run[0].number);
    ClimbComplete(env, db, run, 0);
  }

  /** The fast path succeeds exactly in this case. */
  lemma FastPathIff(env: Env, db: Db)
    requires Valid(env, db)
    ensures FastTip(env, db, GetOr(db.highest, -1)).Some? <==>
      Undisputed(db) && exists run: seq<Block> :: SpansCheckpoint(env, db, run)
  {
    if FastTip(env, db, GetOr(db.highest, -1)).Some? {
      var run := FastPathNeeds(env, db);
    } else if Undisputed(db) && exists run: seq<Block> :: SpansCheckpoint(env, db, run) {
      var run: seq<Block> :| SpansCheckpoint(env, db, run);
      FastPathTakes(env, db, run);
    }
  }
}

/** Exactly what becomes of the validated checkpoint (src/blockdb.cpp): which block each operation makes it, and that it
    is there from the first block on top of the latest one. */
module Checkpoints {
  import opened Options
  import opened Blocks
  import opened BestChain
  import opened ChainStore
  import opened StoreLaws
  import opened Runs
  import opened LatestKeys

  /** A block has no stored, envelope-valid parent that it connects to. */
  ghost predicate NoParent(env: Env, blocks: map<string, Block>, b: Block) {
    forall h <- blocks :: !(Connects(b, blocks[h]) && EnvelopeValid(env, blocks[h]))
  }

  /** Connected, envelope-valid blocks up to this one; all but it are stored. */
  ghost predicate RunTo(env: Env, blocks: map<string, Block>, run: seq<Block>, b: Block) {
    && run != [] && Last(run) == b
    && (forall i :: 0 <= i < |run| ==> EnvelopeValid(env, run[i]))
    && (forall i :: 0 <= i < |run| - 1 ==> StoredLink(blocks, run[i], run[i + 1]))
  }

  ghost predicate StoredLink(blocks: map<string, Block>, b: Block, c: Block) {
    Connects(c, b) && b.hash in blocks && blocks[b.hash] == b
  }

  /** The run has this many links, or fewer and nowhere to go on to. */
  ghost predicate Deepest(env: Env, blocks: map<string, Block>, run: seq<Block>, b: Block, links: nat) {
    RunTo(env, blocks, run, b) && |run| - 1 <= links && (|run| - 1 == links || NoParent(env, blocks, run[0]))
  }

  lemma ShorterRun(env: Env, blocks: map<string, Block>, run: seq<Block>, b: Block)
    requires RunTo(env, blocks, run, b) && |run| > 1
    ensures RunTo(env, blocks, run[..|run| - 1], run[|run| - 2]) && StoredLink(blocks, run[|run| - 2], b)
  {
    var below := run[..|run| - 1];
    assert StoredLink(blocks, run[|run| - 2], run[|run| - 2 + 1]);
    forall i | 0 <= i < |below| - 1 ensures StoredLink(blocks, below[i], below[i + 1]) {
      assert StoredLink(blocks, run[i], run[i + 1]);
    }
  }

  /** The walk of the program ends at the first block of every such run. */
  lemma {:induction false} DescendIsDeepest(env: Env, db: Db, b: Block, run: seq<Block>, links: nat)
    requires Indexed(db) && Deepest(env, db.blocks, run, b, links)
    ensures Descend(env, db, b, links) == run[0]
    decreases links
  {
    if |run| > 1 {
      ShorterRun(env, db.blocks, run, b);
      var parent := run[|run| - 2];
      assert RawBlock(db, b.previousHash) == parent;
      DescendIsDeepest(env, db, parent, run[..|run| - 1], links - 1);
    } else if links > 0 && b.previousHash != "" {
      var parent := RawBlock(db, b.previousHash);
      assert b.previousHash in db.blocks ==> parent == db.blocks[b.previousHash];
    }
  }

  lemma {:induction false} DeepestExists(env: Env, db: Db, b: Block, links: nat) returns (run: seq<Block>)
    requires Indexed(db) && EnvelopeValid(env, b)
    ensures Deepest(env, db.blocks, run, b, links)
    decreases links
  {
    run := [b];
    if links > 0 {
      var parent := RawBlock(db, b.previousHash);
      if b.previousHash != "" && Connects(b, parent) && EnvelopeValid(env, parent) {
        var below := DeepestExists(env, db, parent, links - 1);
        run := below + [b];
        forall i | 0 <= i < |run| - 1 ensures StoredLink(db.blocks, run[i], run[i + 1]) {
          if i < |below| - 1 { assert StoredLink(db.blocks, below[i], below[i + 1]); }
        }
      } else {
        forall h | h in db.blocks ensures !(Connects(b, db.blocks[h]) && EnvelopeValid(env, db.blocks[h])) {
          assert db.blocks[h].hash == h;
        }
      }
    }
  }

  // ---------------------------------------------------------------- one advance

  predicate SameCheckpoint(before: Db, after: Db) {
    after.checkpoint == before.checkpoint && after.checkpointHash == before.checkpointHash
  }

  predicate CheckpointIs(db: Db, b: Block) {
    db.checkpoint == Some(b.number) && db.checkpointHash == Some(b.hash)
  }

  /** With no checkpoint, or one at least 4000 numbers below the tip, the checkpoint becomes the block 2000 links below the
      tip, or as far down as the run goes, if that lies above the old one. Otherwise it stays. */
  ghost predicate Advances(env: Env, before: Db, tip: Block, after: Db) {
    if !EnvelopeValid(env, tip) then SameCheckpoint(before, after)
    else
      forall run: seq<Block> :: Deepest(env, after.blocks, run, tip, 2000) ==>
        if before.checkpoint.None?
           || (tip.number - before.checkpoint.value >= 4000 && run[0].number > before.checkpoint.value)
        then CheckpointIs(after, run[0])
        else SameCheckpoint(before, after)
  }

  lemma AdvanceExact(env: Env, db: Db, tip: Block)
    requires Indexed(db) && CheckpointSound(env, db)
    ensures Advances(env, db, tip, Advance(env, db, tip))
  {
    if EnvelopeValid(env, tip) {
      var d := Advance(env, db, tip);
      forall run: seq<Block> | Deepest(env, d.blocks, run, tip, 2000)
        ensures
          if db.checkpoint.None? || (tip.number - db.checkpoint.value >= 4000 && run[0].number > db.checkpoint.value)
          then CheckpointIs(d, run[0]) else SameCheckpoint(db, d)
      {
        AdvancesTo(env, db, tip, run);
      }
    }
  }

  lemma AdvancesTo(env: Env, db: Db, tip: Block, run: seq<Block>)
    requires Indexed(db) && CheckpointSound(env, db) && EnvelopeValid(env, tip) && Deepest(env, db.blocks, run, tip, 2000)
    ensures
      var d := Advance(env, db, tip);
      if db.checkpoint.None? || (tip.number - db.checkpoint.value >= 4000 && run[0].number > db.checkpoint.value)
      then CheckpointIs(d, run[0]) else SameCheckpoint(db, d)
  {
    DescendIsDeepest(env, db, tip, run, 2000);
  }

  // ---------------------------------------------------------------- every operation

  /** The block stands on the canonical latest block. */
  ghost predicate OnLatest(db: Db, b: Block) {
    var latest := LatestId(db);
    b.previousId == latest && !(b.previousId <= 0 && latest < 0)
    && GetBlock(db, latest).number == latest && GetBlock(db, latest).hash != "" && GetBlock(db, latest).hash == b.previousHash
  }

  /** The operations that look at the checkpoint. */
  ghost predicate Looks(env: Env, db: Db, e: Event)
    requires Valid(env, db)
  {
    match e
    case Add(b, rulesOk) => Enters(env, db, b, rulesOk) && Wins(db, b) && OnLatest(db, b)
    case Rebuild => RebuildStep(env, db).0 != -1
    case Adopt(tipHash) => Rewrites(env, db, tipHash)
    case _ => false
  }

  ghost predicate Exact(env: Env, db: Db, d: Db, looks: bool) {
    if looks then Advances(env, db, GetBlock(d, LatestId(d)), d) else SameCheckpoint(db, d)
  }

  /** Advances compares checkpoints only, so a store that differs elsewhere will do. */
  lemma AdvanceFrom(env: Env, before: Db, db: Db, tip: Block)
    requires Indexed(db) && CheckpointSound(env, db) && SameCheckpoint(before, db)
    ensures Advances(env, before, tip, Advance(env, db, tip))
  {
    AdvanceExact(env, db, tip);
    var d := Advance(env, db, tip);
    if EnvelopeValid(env, tip) {
      forall run: seq<Block> | Deepest(env, d.blocks, run, tip, 2000)
        ensures
          if before.checkpoint.None? || (tip.number - before.checkpoint.value >= 4000 && run[0].number > before.checkpoint.value)
          then CheckpointIs(d, run[0]) else SameCheckpoint(before, d)
      {
        AdvancesTo(env, db, tip, run);
      }
    }
  }

  lemma FinishExact(env: Env, before: Db, db: Db, tip: Block)
    requires Valid(env, db) && SameCheckpoint(before, db) && tip.hash in db.blocks && db.blocks[tip.hash] == tip
    requires tip.number in db.canonical && db.canonical[tip.number] == tip.hash
    ensures
      var d := Finish(env, db, tip);
      Advances(env, before, tip, d) && d.latest == Some(tip.number)
  {
    GetBlockIndexed(db, tip.number);
    var f := SetLatest(db, tip.number).(connected := Some(tip.number));
    assert f == db.(latest := Some(tip.number), latestHash := Some(tip.hash), connected := Some(tip.number));
    AdvanceFrom(env, before, f, tip);
    AdvanceKeepsTip(env, f, tip);
  }

  lemma CommitExact(env: Env, db: Db, chain: seq<Block>)
    requires Valid(env, db) && IsPath(Stored(db), chain)
    ensures
      var d := Commit(env, db, chain);
      Advances(env, db, Last(chain), d) && d.latest == Some(Last(chain).number)
  {
    PathIsRising(db, chain);
    var cleared := db.(nextId := map[], nextHash := map[]);
    WriteKeeps(cleared, chain, 0, |chain|);
    PutHashesAt(db.canonical, chain, 0, |chain|);
    assert Last(chain) in chain;
    FinishExact(env, db, Write(cleared, chain, 0, |chain|), Last(chain));
  }

  lemma SlowExact(env: Env, db: Db)
    requires Valid(env, db)
    ensures Exact(env, db, SlowRebuild(env, db).1, SlowRebuild(env, db).0 != -1)
  {
    var chain := AcceptedPrefix(env, Selected(db));
    SlowRebuildLaw(env, db);
    if chain != [] {
      SlowRebuildCommits(env, db, chain);
      CommitExact(env, db, chain);
      assert Last(chain) in chain && chain[|chain| - 1] == Last(chain);
    }
  }

  lemma RebuildExact(env: Env, db: Db)
    requires Valid(env, db)
    ensures Exact(env, db, RebuildStep(env, db).1, RebuildStep(env, db).0 != -1)
  {
    if FirstId(db) >= 0 {
      match FastTip(env, db, GetOr(db.highest, -1))
      case Some(tip) =>
        FastExact(env, db, tip);
      case None =>
        SlowExact(env, db);
    }
  }

  lemma FastExact(env: Env, db: Db, tip: Block)
    requires Valid(env, db) && FastTip(env, db, GetOr(db.highest, -1)) == Some(tip)
    ensures
      var d := Advance(env, db.(connected := Some(tip.number)), tip);
      tip.number != -1 && Exact(env, db, d, true)
  {
    FastPathSound(env, db);
    var f := db.(connected := Some(tip.number));
    AdvanceFrom(env, db, f, tip);
    AdvanceKeepsTip(env, f, tip);
    AdvanceKeeps(env, f, tip);
    GetBlockIndexed(db, tip.number);
    GetBlockIndexed(Advance(env, f, tip), tip.number);
  }

  lemma AdoptionExact(env: Env, db: Db, tipHash: string)
    requires Valid(env, db)
    ensures Exact(env, db, AdoptStep(env, db, tipHash).1, Rewrites(env, db, tipHash))
  {
    AdoptionLaw(env, db, tipHash);
    if Rewrites(env, db, tipHash) {
      var chain := AdoptableChain(env, db, tipHash).value;
      AdoptionWrites(env, db, chain);
      assert Last(chain) in chain && chain[|chain| - 1] == Last(chain);
      FinishExact(env, db, Write(db, chain, RewriteFrom(db, chain), |chain|), Last(chain));
    }
  }

  lemma AddExact(env: Env, db: Db, b: Block)
    requires Valid(env, db) && b.number > 0 && b.hash != "" && b.hash !in db.blocks && b.previousId < b.number
    ensures Exact(env, db, StoreBlock(env, db, b), Wins(db, b) && OnLatest(db, b))
  {
    StoreBlockSplits(env, db, b);
    InsertSameSlot(db, b);
    EnterLaw(env, db, b);
    AddEffect(env, db, b);
    StoreBlockKeeps(env, db, b);
    if Wins(db, b) {
      var e := Enter(db, b);
      LinkKeeps(e, b);
      SameOnLatest(db, b, LinkNext(e, b));
      MoveTipExact(env, db, LinkNext(e, b), b);
      GetBlockIndexed(StoreBlock(env, db, b), b.number);
    }
  }

  lemma SameOnLatest(db: Db, b: Block, l: Db)
    requires Indexed(db) && b.number > 0 && b.hash != "" && b.hash !in db.blocks && b.previousId < b.number
    requires Indexed(l) && l.blocks == db.blocks[b.hash := b] && l.canonical == db.canonical[b.number := b.hash]
    requires l.latest == db.latest
    ensures OnLatest(l, b) <==> OnLatest(db, b)
    ensures OnLatest(db, b) ==> MovesTip(db, b)
  {
    GetBlockIndexed(db, LatestId(db));
    GetBlockIndexed(l, LatestId(db));
  }

  lemma MoveTipExact(env: Env, before: Db, db: Db, b: Block)
    requires Valid(env, db) && SameCheckpoint(before, db)
    ensures
      var d := MoveTip(env, db, b);
      if OnLatest(db, b) then Advances(env, before, b, d) else SameCheckpoint(before, d)
  {
    SetLatestKeeps(env, db, b.number);
    AdvanceFrom(env, before, SetLatest(db, b.number), b);
  }

  /** Every operation leaves the checkpoint exactly so. */
  lemma StepExact(env: Env, db: Db, e: Event)
    requires Valid(env, db)
    ensures Exact(env, db, Step(env, db, e), Looks(env, db, e))
  {
    match e
    case SetFirst(_) =>
    case SetLatestId(number) => SetLatestKeeps(env, db, number);
    case Add(b, rulesOk) => if Enters(env, db, b, rulesOk) { AddExact(env, db, b); }
    case Rebuild => RebuildExact(env, db);
    case Adopt(tipHash) => AdoptionExact(env, db, tipHash);
    case CountForks =>
  }

  // ---------------------------------------------------------------- whole runs

  lemma AdvancedExists(env: Env, db: Db, tip: Block, d: Db)
    requires Indexed(d) && Advances(env, db, tip, d) && EnvelopeValid(env, tip)
    ensures d.checkpoint.Some?
  {
    var run := DeepestExists(env, d, tip, 2000);
    assert Deepest(env, d.blocks, run, tip, 2000);
  }

  lemma GrowthWrites(env: Env, db: Db, b: Block, rulesOk: bool)
    requires Valid(env, db) && Enters(env, db, b, rulesOk) && Wins(db, b) && OnLatest(db, b)
    ensures CheckpointNumber(AddStep(env, db, b, rulesOk).1) > 0
  {
    AddExact(env, db, b);
    StoreBlockKeeps(env, db, b);
    AddEffect(env, db, b);
    var d := StoreBlock(env, db, b);
    GetBlockIndexed(d, b.number);
    SameOnLatestMoves(db, b);
    AdvancedExists(env, db, b, d);
  }

  lemma SameOnLatestMoves(db: Db, b: Block)
    ensures OnLatest(db, b) ==> MovesTip(db, b)
  {
  }

  lemma CheckpointThere(env: Env, db: Db)
    requires CheckpointSound(env, db)
    ensures CheckpointNumber(db) > 0 <==> db.checkpoint.Some?
  {
  }

  /** The last event adds a block on top of the latest block. */
  ghost predicate EndsInGrowth(env: Env, events: seq<Event>) {
    events != [] && events[|events| - 1].Add? &&
    var db, e := Run(env, events[..|events| - 1]), events[|events| - 1];
    Enters(env, db, e.block, e.rulesOk) && Wins(db, e.block) && OnLatest(db, e.block)
  }

  lemma GrowthIsWritten(env: Env, events: seq<Event>)
    requires EndsInGrowth(env, events)
    ensures CheckpointNumber(Run(env, events)) > 0
  {
    var e := events[|events| - 1];
    GrowthWrites(env, Run(env, events[..|events| - 1]), e.block, e.rulesOk);
  }

  /** Once a block has been added on top of the latest block, there is a checkpoint, whatever else the run does. */
  lemma CheckpointFromGrowth(env: Env, events: seq<Event>, k: nat)
    requires k <= |events| && EndsInGrowth(env, events[..k])
    ensures Run(env, events).checkpoint.Some?
  {
    GrowthIsWritten(env, events[..k]);
    StaysAbove(env, events, k);
    CheckpointThere(env, Run(env, events));
  }

  lemma StaysAbove(env: Env, events: seq<Event>, k: nat)
    requires k <= |events|
    ensures CheckpointNumber(Run(env, events[..k])) <= CheckpointNumber(Run(env, events))
  {
    RunsOnlyAdvance(env, events, k);
  }
}

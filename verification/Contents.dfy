/** What the store accepts and holds (src/blockdb.cpp, src/functions/chainvalidator.cpp): which blocks `AddBlock` takes,
    what every stored block satisfies after any run, and that the two canonical indexes agree. */
module Contents {
  import opened Options
  import opened Blocks
  import opened BestChain
  import opened ChainStore
  import opened StoreLaws
  import opened Runs
  import opened LatestKeys

  // ---------------------------------------------------------------- what is accepted

  /** The records fit, none is too large, and no two share a nonempty hash; the whole block fits as well. */
  ghost predicate Fits(env: Env, b: Block) {
    && |b.records| <= env.maxRecords && env.jsonFits(b)
    && (forall i :: 0 <= i < |b.records| ==> env.recordSizeOk(b.records[i]))
    && (forall i, j :: 0 <= i < |b.records| && 0 <= j < |b.records| && i != j ==>
          b.records[i].hash == "" || b.records[i].hash != b.records[j].hash)
  }

  /** A genesis is the configured one; any other block names an earlier number. */
  ghost predicate WellNumbered(env: Env, b: Block) {
    if b.previousId <= 0 then env.genesisMatches(b.number, b.hash) && (b.previousId < b.number || b.previousId == -1)
    else b.previousId < b.number
  }

  lemma RecordsOkIff(env: Env, records: seq<Record>)
    ensures RecordsOk(env, records) <==>
      && (forall i :: 0 <= i < |records| ==> env.recordSizeOk(records[i]))
      && (forall i, j :: 0 <= i < |records| && 0 <= j < |records| && i != j ==>
            records[i].hash == "" || records[i].hash != records[j].hash)
  {
    if forall i :: 0 <= i < |records| ==> env.recordSizeOk(records[i]) {
      forall r | r in records ensures env.recordSizeOk(r) {
        var i :| 0 <= i < |records| && records[i] == r;
      }
    }
  }

  lemma AdmissibleIff(env: Env, b: Block)
    ensures Admissible(env, b) <==> Fits(env, b) && WellNumbered(env, b)
  {
    RecordsOkIff(env, b.records);
  }

  /** `AddBlock` answers true exactly for a fitting, well-numbered block that is stored already, or that is sealed, passes
      the rules, and is a genesis or stands on a stored block. */
  lemma AddAnswersIff(env: Env, db: Db, b: Block, rulesOk: bool)
    requires Indexed(db)
    ensures AddStep(env, db, b, rulesOk).0 <==>
      && Fits(env, b) && WellNumbered(env, b)
      && (b.hash in db.blocks
          || (EnvelopeValid(env, b) && rulesOk && (b.previousId <= 0 || exists p <- Stored(db) :: Connects(b, p))))
    ensures b.hash in db.blocks || !AddStep(env, db, b, rulesOk).0 ==> AddStep(env, db, b, rulesOk).1 == db
  {
    AdmissibleIff(env, b);
    if b.previousId > 0 && EnvelopeValid(env, b) {
      ParentIff(db, b);
    }
  }

  lemma ParentIff(db: Db, b: Block)
    requires Indexed(db) && b.previousId > 0 && b.number > 0
    ensures (exists p <- Stored(db) :: Connects(b, p)) <==>
      && b.previousHash != "" && BlockByHash(db, b.previousHash).number > 0
      && BlockByHash(db, b.previousHash).number == b.previousId && b.previousId < b.number
  {
    var parent := BlockByHash(db, b.previousHash);
    if p :| p in Stored(db) && Connects(b, p) {
      assert p == parent;
    }
    if b.previousHash != "" && parent.number > 0 {
      assert parent in Stored(db);
    }
  }

  // ---------------------------------------------------------------- what is stored

  ghost predicate AllFit(env: Env, blocks: map<string, Block>) {
    forall h <- blocks :: Fits(env, blocks[h]) && WellNumbered(env, blocks[h])
  }

  lemma AddFits(env: Env, db: Db, b: Block, rulesOk: bool)
    requires Valid(env, db) && AllFit(env, db.blocks)
    ensures AllFit(env, AddStep(env, db, b, rulesOk).1.blocks)
  {
    AddLaw(env, db, b, rulesOk);
    if AddStep(env, db, b, rulesOk).0 { AdmissibleIff(env, b); }
  }

  lemma StepFits(env: Env, db: Db, e: Event)
    requires Valid(env, db) && AllFit(env, db.blocks)
    ensures AllFit(env, Step(env, db, e).blocks)
  {
    match e
    case SetFirst(_) =>
    case SetLatestId(_) =>
    case Add(b, rulesOk) => AddFits(env, db, b, rulesOk);
    case Rebuild => RebuildLaw(env, db);
    case Adopt(tipHash) => AdoptionLaw(env, db, tipHash);
    case CountForks =>
  }

  /** After any run every stored block fits and is well numbered. */
  lemma {:induction false} FitsAfterAnyRun(env: Env, events: seq<Event>)
    ensures AllFit(env, Run(env, events).blocks)
  {
    if events != [] {
      var n := |events| - 1;
      FitsAfterAnyRun(env, events[..n]);
      StepFits(env, Run(env, events[..n]), events[n]);
    }
  }

  /** After any run, where one hash names one block: `AddBlock` answers true exactly when the block is stored afterwards. */
  lemma AnswersTrueIffStored(env: Env, events: seq<Event>, b: Block, rulesOk: bool)
    requires b.hash in Run(env, events).blocks ==> Run(env, events).blocks[b.hash] == b
    ensures
      var (ok, d) := AddStep(env, Run(env, events), b, rulesOk);
      ok <==> b.hash in d.blocks && d.blocks[b.hash] == b
  {
    FitsAfterAnyRun(env, events);
    StoredIffAccepted(env, Run(env, events), b, rulesOk);
  }

  lemma StoredIffAccepted(env: Env, db: Db, b: Block, rulesOk: bool)
    requires Valid(env, db) && AllFit(env, db.blocks) && (b.hash in db.blocks ==> db.blocks[b.hash] == b)
    ensures
      var (ok, d) := AddStep(env, db, b, rulesOk);
      ok <==> b.hash in d.blocks && d.blocks[b.hash] == b
  {
    AddLaw(env, db, b, rulesOk);
    AdmissibleIff(env, b);
  }

  // ---------------------------------------------------------------- the copies by number

  /** The copy by number is the canonical block, at every number. */
  ghost predicate CopiesAgree(blocks: map<string, Block>, canonical: map<int, string>, legacy: map<int, Block>) {
    && legacy.Keys == canonical.Keys
    && forall n <- canonical :: canonical[n] in blocks && legacy[n] == blocks[canonical[n]]
  }

  lemma {:induction false} CopiesWritten(blocks: map<string, Block>, m: map<int, string>, l: map<int, Block>,
                                         chain: seq<Block>, lo: nat, hi: nat)
    requires CopiesAgree(blocks, m, l) && AllStored(blocks, chain) && lo <= hi <= |chain|
    ensures CopiesAgree(blocks, PutHashes(m, chain, lo, hi), PutLegacy(l, chain, lo, hi))
    decreases hi
  {
    if lo < hi {
      CopiesWritten(blocks, m, l, chain, lo, hi - 1);
      assert chain[hi - 1] in chain;
      OneCopy(blocks, PutHashes(m, chain, lo, hi - 1), PutLegacy(l, chain, lo, hi - 1), chain[hi - 1]);
    }
  }

  lemma OneCopy(blocks: map<string, Block>, m: map<int, string>, l: map<int, Block>, b: Block)
    requires CopiesAgree(blocks, m, l) && b.hash in blocks && blocks[b.hash] == b
    ensures CopiesAgree(blocks, m[b.number := b.hash], l[b.number := b])
  {
  }

  ghost predicate DbAgrees(db: Db) {
    CopiesAgree(db.blocks, db.canonical, db.legacy)
  }

  lemma AdvanceCopies(env: Env, db: Db, tip: Block)
    ensures
      var d := Advance(env, db, tip);
      d.blocks == db.blocks && d.canonical == db.canonical && d.legacy == db.legacy
  {
  }

  lemma FinishCopies(env: Env, db: Db, tip: Block)
    requires DbAgrees(db)
    ensures DbAgrees(Finish(env, db, tip))
  {
    AdvanceCopies(env, SetLatest(db, tip.number).(connected := Some(tip.number)), tip);
  }

  lemma WriteCopies(db: Db, chain: seq<Block>, lo: nat)
    requires DbAgrees(db) && AllStored(db.blocks, chain) && lo <= |chain|
    ensures DbAgrees(Write(db, chain, lo, |chain|))
  {
    PutBlocksSame(db.blocks, chain, lo, |chain|);
    CopiesWritten(db.blocks, db.canonical, db.legacy, chain, lo, |chain|);
  }

  lemma RebuildCopies(env: Env, db: Db)
    requires Valid(env, db) && DbAgrees(db)
    ensures DbAgrees(RebuildStep(env, db).1)
  {
    if FirstId(db) >= 0 {
      match FastTip(env, db, GetOr(db.highest, -1))
      case Some(tip) =>
        AdvanceCopies(env, db.(connected := Some(tip.number)), tip);
      case None =>
        SlowCopies(env, db);
    }
  }

  lemma SlowCopies(env: Env, db: Db)
    requires Valid(env, db) && DbAgrees(db)
    ensures DbAgrees(SlowRebuild(env, db).1)
  {
    SlowRebuildLaw(env, db);
    var chain := AcceptedPrefix(env, Selected(db));
    if chain != [] {
      SlowRebuildCommits(env, db, chain);
      PathIsRising(db, chain);
      var cleared := db.(nextId := map[], nextHash := map[]);
      WriteCopies(cleared, chain, 0);
      FinishCopies(env, Write(cleared, chain, 0, |chain|), Last(chain));
    }
  }

  lemma AdoptionCopies(env: Env, db: Db, tipHash: string)
    requires Valid(env, db) && DbAgrees(db)
    ensures DbAgrees(AdoptStep(env, db, tipHash).1)
  {
    AdoptionLaw(env, db, tipHash);
    if Rewrites(env, db, tipHash) {
      var chain := AdoptableChain(env, db, tipHash).value;
      PathIsRising(db, chain);
      var k := RewriteFrom(db, chain);
      WriteCopies(db, chain, k);
      FinishCopies(env, Write(db, chain, k, |chain|), Last(chain));
    }
  }

  lemma AddCopies(env: Env, db: Db, b: Block)
    requires Valid(env, db) && DbAgrees(db) && b.number > 0 && b.hash != "" && b.hash !in db.blocks
    ensures DbAgrees(StoreBlock(env, db, b))
  {
    StoreBlockKeeps(env, db, b);
    InsertSameSlot(db, b);
    EnterCopies(db.blocks, db.canonical, db.legacy, b);
  }

  lemma EnterCopies(blocks: map<string, Block>, m: map<int, string>, l: map<int, Block>, b: Block)
    requires CopiesAgree(blocks, m, l) && b.hash !in blocks
    ensures CopiesAgree(blocks[b.hash := b], m, l)
    ensures CopiesAgree(blocks[b.hash := b], m[b.number := b.hash], l[b.number := b])
  {
    OneCopy(blocks[b.hash := b], m, l, b);
  }

  lemma StepCopies(env: Env, db: Db, e: Event)
    requires Valid(env, db) && DbAgrees(db)
    ensures DbAgrees(Step(env, db, e))
  {
    match e
    case SetFirst(_) =>
    case SetLatestId(number) => SetLatestKeeps(env, db, number);
    case Add(b, rulesOk) => if Enters(env, db, b, rulesOk) { AddCopies(env, db, b); }
    case Rebuild => RebuildCopies(env, db);
    case Adopt(tipHash) => AdoptionCopies(env, db, tipHash);
    case CountForks =>
  }

  /** After any run the copies by number are the canonical blocks. */
  lemma {:induction false} CopiesAfterAnyRun(env: Env, events: seq<Event>)
    ensures DbAgrees(Run(env, events))
  {
    if events != [] {
      var n := |events| - 1;
      CopiesAfterAnyRun(env, events[..n]);
      StepCopies(env, Run(env, events[..n]), events[n]);
    }
  }

  // ---------------------------------------------------------------- what a rebuild answers

  /** A rebuild answers -1 and changes nothing, or answers the number that is the latest and the connected tip, of a
      stored block, afterwards. */
  lemma RebuildAnswers(env: Env, db: Db)
    requires Valid(env, db)
    ensures
      var (tip, d) := RebuildStep(env, db);
      if tip == -1 then d == db
      else d.latest == Some(tip) && d.connected == Some(tip) && tip in d.canonical
  {
    if FirstId(db) >= 0 {
      match FastTip(env, db, GetOr(db.highest, -1))
      case Some(tip) =>
        FastAnswers(env, db, tip);
      case None =>
        SlowAnswers(env, db);
    }
  }

  lemma FastAnswers(env: Env, db: Db, tip: Block)
    requires Valid(env, db) && FastTip(env, db, GetOr(db.highest, -1)) == Some(tip)
    ensures
      var d := Advance(env, db.(connected := Some(tip.number)), tip);
      d.latest == Some(tip.number) && d.connected == Some(tip.number) && tip.number in d.canonical && tip.number != -1
  {
    FastPathSound(env, db);
    AdvanceLaw(env, db.(connected := Some(tip.number)), tip);
    GetBlockIndexed(db, tip.number);
  }

  lemma SlowAnswers(env: Env, db: Db)
    requires Valid(env, db)
    ensures
      var (tip, d) := SlowRebuild(env, db);
      if tip == -1 then d == db
      else d.latest == Some(tip) && d.connected == Some(tip) && tip in d.canonical
  {
    SlowRebuildLaw(env, db);
    var chain := AcceptedPrefix(env, Selected(db));
    if chain != [] {
      assert Last(chain) in chain && chain[|chain| - 1] == Last(chain);
      GetBlockIndexed(SlowRebuild(env, db).1, Last(chain).number);
    }
  }
}

/** The keys that name the first and the latest block, over whole runs: what each operation does to them, and exactly
    when the stored latest hash falls behind the canonical index. */
module LatestKeys {
  import opened Options
  import opened Blocks
  import opened BestChain
  import opened ChainStore
  import opened StoreLaws
  import opened Runs

  // ---------------------------------------------------------------- which operations set the latest block

  ghost predicate Commits(env: Env, db: Db)
    requires Valid(env, db)
  {
    FirstId(db) >= 0 && FastTip(env, db, GetOr(db.highest, -1)).None? && AcceptedPrefix(env, Selected(db)) != []
  }

  predicate Rewrites(env: Env, db: Db, tipHash: string) {
    match AdoptableChain(env, db, tipHash)
    case None => false
    case Some(chain) => chain != [] && !AlreadyTip(db, Last(chain))
  }

  /** The guards under which an operation writes the latest number. */
  ghost predicate SetsLatest(env: Env, db: Db, e: Event)
    requires Valid(env, db)
  {
    match e
    case SetFirst(_) => false
    case SetLatestId(_) => true
    case Add(b, rulesOk) => Enters(env, db, b, rulesOk) && Wins(db, b) && MovesTip(db, b)
    case Rebuild => Commits(env, db)
    case Adopt(tipHash) => Rewrites(env, db, tipHash)
    case CountForks => false
  }

  /** The block takes over the slot of the latest number. */
  ghost predicate TakesLatest(env: Env, db: Db, e: Event) {
    e.Add? && Enters(env, db, e.block, e.rulesOk) && Wins(db, e.block) && db.latest == Some(e.block.number)
  }

  predicate SetsEmptySlot(db: Db, e: Event) {
    e.SetLatestId? && e.number !in db.canonical
  }

  // ---------------------------------------------------------------- what an operation leaves of the keys

  predicate SameLatest(a: Db, b: Db) {
    a.latest == b.latest && a.latestHash == b.latestHash
  }

  /** The latest keys name the block that lookups give at the latest number. */
  predicate Fresh(db: Db) {
    db.latest.Some? && db.latest.value in db.canonical && db.latestHash == Some(GetBlock(db, db.latest.value).hash)
  }

  lemma TipIsFresh(db: Db, chain: seq<Block>)
    requires Indexed(db) && chain != [] && Answers(db, chain) && TipIs(db, Last(chain)) && Last(chain).number > 0
    ensures Fresh(db)
  {
    assert chain[|chain| - 1] == Last(chain);
    GetBlockIndexed(db, Last(chain).number);
  }

  lemma RebuildEffect(env: Env, db: Db)
    requires Valid(env, db)
    ensures
      var d := RebuildStep(env, db).1;
      d.first == db.first && if Commits(env, db) then Fresh(d) else SameLatest(d, db) && d.canonical == db.canonical
  {
    RebuildLaw(env, db);
    if FirstId(db) >= 0 {
      match FastTip(env, db, GetOr(db.highest, -1))
      case Some(tip) =>
        AdvanceKeepsTip(env, db.(connected := Some(tip.number)), tip);
      case None =>
        SlowEffect(env, db);
    }
  }

  lemma SlowEffect(env: Env, db: Db)
    requires Valid(env, db)
    ensures
      var d := SlowRebuild(env, db).1;
      d.first == db.first && if AcceptedPrefix(env, Selected(db)) != [] then Fresh(d) else d == db
  {
    SlowRebuildLaw(env, db);
    var chain := AcceptedPrefix(env, Selected(db));
    if chain != [] {
      SlowRebuildCommits(env, db, chain);
      var w := Write(db.(nextId := map[], nextHash := map[]), chain, 0, |chain|);
      AdvanceKeepsTip(env, ChainStore.SetLatest(w, Last(chain).number).(connected := Some(Last(chain).number)), Last(chain));
      assert Last(chain) in chain;
      TipIsFresh(SlowRebuild(env, db).1, chain);
    }
  }

  lemma AdoptionEffect(env: Env, db: Db, tipHash: string)
    requires Valid(env, db)
    ensures
      var d := AdoptStep(env, db, tipHash).1;
      d.first == db.first && if Rewrites(env, db, tipHash) then Fresh(d) else d == db
  {
    AdoptionLaw(env, db, tipHash);
    if Rewrites(env, db, tipHash) {
      var chain := AdoptableChain(env, db, tipHash).value;
      var w := Write(db, chain, RewriteFrom(db, chain), |chain|);
      AdvanceKeepsTip(env, ChainStore.SetLatest(w, Last(chain).number).(connected := Some(Last(chain).number)), Last(chain));
      assert Last(chain) in chain;
      TipIsFresh(AdoptStep(env, db, tipHash).1, chain);
    }
  }

  lemma AddFresh(env: Env, db: Db, b: Block)
    requires Valid(env, db) && b.number > 0 && b.hash != "" && b.hash !in db.blocks && b.previousId < b.number
    requires Wins(db, b) && MovesTip(db, b)
    ensures Fresh(StoreBlock(env, db, b))
  {
    AddEffect(env, db, b);
    StoreBlockKeeps(env, db, b);
    GetBlockIndexed(StoreBlock(env, db, b), b.number);
  }

  // ---------------------------------------------------------------- the first block id

  /** The number of the last first-block setting. */
  function LastFirst(events: seq<Event>): Option<int> {
    if events == [] then None
    else
      var e := events[|events| - 1];
      if e.SetFirst? then Some(e.number) else LastFirst(events[..|events| - 1])
  }

  lemma StepFirst(env: Env, db: Db, e: Event)
    requires Valid(env, db)
    ensures Step(env, db, e).first == if e.SetFirst? then Some(e.number) else db.first
  {
    match e
    case SetFirst(_) =>
    case SetLatestId(number) => SetLatestKeeps(env, db, number);
    case Add(b, rulesOk) => if Enters(env, db, b, rulesOk) { AddEffect(env, db, b); }
    case Rebuild => RebuildEffect(env, db);
    case Adopt(tipHash) => AdoptionEffect(env, db, tipHash);
    case CountForks =>
  }

  /** Whatever else a run does, the first block id is the one set last. */
  lemma {:induction false} FirstAfterAnyRun(env: Env, events: seq<Event>)
    ensures Run(env, events).first == LastFirst(events)
  {
    if events != [] {
      var n := |events| - 1;
      FirstAfterAnyRun(env, events[..n]);
      StepFirst(env, Run(env, events[..n]), events[n]);
    }
  }

  // ---------------------------------------------------------------- the latest slot is stored

  /** The latest number, once set, is the number of a stored block. */
  predicate Anchored(db: Db) {
    db.latest.Some? ==> db.latest.value in db.canonical
  }

  lemma SlotsStay(env: Env, before: Db, after: Db, number: int)
    requires Indexed(before) && Indexed(after) && Extends(before, after) && number in before.canonical
    ensures number in after.canonical
  {
    var h := before.canonical[number];
    assert h in after.blocks && after.blocks[h].number == number;
  }

  lemma StepAnchors(env: Env, db: Db, e: Event)
    requires Valid(env, db) && Anchored(db)
    ensures Anchored(Step(env, db, e)) <==> !SetsEmptySlot(db, e)
  {
    StepKeeps(env, db, e);
    if db.latest.Some? { SlotsStay(env, db, Step(env, db, e), db.latest.value); }
    match e
    case SetFirst(_) =>
    case SetLatestId(number) => SetLatestKeeps(env, db, number);
    case Add(b, rulesOk) => if Enters(env, db, b, rulesOk) { AddEffect(env, db, b); }
    case Rebuild => RebuildEffect(env, db);
    case Adopt(tipHash) => AdoptionEffect(env, db, tipHash);
    case CountForks =>
  }

  /** Every setting of the latest number is at a slot stored by then. */
  ghost predicate AtStoredSlots(env: Env, events: seq<Event>) {
    events == [] ||
    (var n := |events| - 1; AtStoredSlots(env, events[..n]) && !SetsEmptySlot(Run(env, events[..n]), events[n]))
  }

  /** Along any run that points the latest number at stored slots only, it names a stored slot. */
  lemma {:induction false} AnchoredAfterRun(env: Env, events: seq<Event>)
    requires AtStoredSlots(env, events)
    ensures Anchored(Run(env, events))
  {
    if events != [] {
      var n := |events| - 1;
      AnchoredAfterRun(env, events[..n]);
      StepAnchors(env, Run(env, events[..n]), events[n]);
    }
  }

  // ---------------------------------------------------------------- the latest hash

  /** The stored latest hash is the hash `getBlock` gives at the latest number. */
  predicate HashInStep(db: Db) {
    db.latest.Some? ==> db.latestHash == Some(GetBlock(db, db.latest.value).hash)
  }

  /** The latest hash, once set, is the hash of a stored block. */
  predicate HashKnown(db: Db) {
    db.latestHash.Some? ==> db.latestHash.value in db.blocks
  }

  lemma FreshIsInStep(db: Db)
    requires Indexed(db) && Fresh(db)
    ensures HashInStep(db) && HashKnown(db)
  {
    GetBlockIndexed(db, db.latest.value);
  }

  lemma UnmovedInStep(before: Db, after: Db)
    requires Indexed(before) && Indexed(after) && SameLatest(after, before)
    requires after.blocks == before.blocks && after.canonical == before.canonical
    ensures HashInStep(after) <==> HashInStep(before)
  {
    if before.latest.Some? {
      GetBlockIndexed(before, before.latest.value);
      GetBlockIndexed(after, before.latest.value);
    }
  }

  lemma AddInStep(env: Env, db: Db, b: Block)
    requires Valid(env, db) && HashKnown(db)
    requires b.number > 0 && b.hash != "" && b.hash !in db.blocks && b.previousId < b.number
    requires !(Wins(db, b) && MovesTip(db, b))
    ensures
      var d := StoreBlock(env, db, b);
      HashInStep(d) <==> HashInStep(db) && !(Wins(db, b) && db.latest == Some(b.number))
  {
    AddEffect(env, db, b);
    StoreBlockKeeps(env, db, b);
    var d := StoreBlock(env, db, b);
    if db.latest.Some? {
      GetBlockIndexed(db, db.latest.value);
      GetBlockIndexed(d, db.latest.value);
    }
  }

  lemma PointInStep(env: Env, db: Db, number: int)
    requires Valid(env, db) && HashKnown(db)
    ensures
      var d := ChainStore.SetLatest(db, number);
      HashKnown(d) && (HashInStep(d) <==> number in db.canonical)
  {
    SetLatestKeeps(env, db, number);
    GetBlockIndexed(db, number);
    GetBlockIndexed(ChainStore.SetLatest(db, number), number);
  }

  lemma AddInStepIff(env: Env, db: Db, b: Block, rulesOk: bool)
    requires Valid(env, db) && HashKnown(db)
    ensures
      var d, e := AddStep(env, db, b, rulesOk).1, Add(b, rulesOk);
      && HashKnown(d)
      && (HashInStep(d) <==> SetsLatest(env, db, e) || (HashInStep(db) && !TakesLatest(env, db, e)))
  {
    if Enters(env, db, b, rulesOk) { StoredInStepIff(env, db, b); }
  }

  lemma StoredInStepIff(env: Env, db: Db, b: Block)
    requires Valid(env, db) && HashKnown(db)
    requires b.number > 0 && b.hash != "" && b.hash !in db.blocks && b.previousId < b.number
    ensures
      var d := StoreBlock(env, db, b);
      && HashKnown(d)
      && (HashInStep(d) <==>
          (Wins(db, b) && MovesTip(db, b)) || (HashInStep(db) && !(Wins(db, b) && db.latest == Some(b.number))))
  {
    StoreBlockKeeps(env, db, b);
    if Wins(db, b) && MovesTip(db, b) {
      AddFresh(env, db, b);
      FreshIsInStep(StoreBlock(env, db, b));
    } else {
      AddInStep(env, db, b);
      AddKnown(env, db, b);
    }
  }

  lemma AddKnown(env: Env, db: Db, b: Block)
    requires Valid(env, db) && HashKnown(db)
    requires b.number > 0 && b.hash != "" && b.hash !in db.blocks && b.previousId < b.number
    ensures HashKnown(StoreBlock(env, db, b))
  {
    AddEffect(env, db, b);
  }

  /** Every operation: setting the latest number puts the hash in step, unless at an empty slot; otherwise it stays in
      step unless a new block takes over the latest slot. */
  lemma StepInStepIff(env: Env, db: Db, e: Event)
    requires Valid(env, db) && HashKnown(db)
    ensures HashKnown(Step(env, db, e))
    ensures HashInStep(Step(env, db, e)) <==>
      (if SetsLatest(env, db, e) then !SetsEmptySlot(db, e) else HashInStep(db) && !TakesLatest(env, db, e))
  {
    StepKeeps(env, db, e);
    var d := Step(env, db, e);
    match e
    case SetFirst(_) => UnmovedInStep(db, d);
    case SetLatestId(number) => PointInStep(env, db, number);
    case Add(b, rulesOk) => AddInStepIff(env, db, b, rulesOk);
    case Rebuild =>
      RebuildEffect(env, db);
      RebuildLaw(env, db);
      if Commits(env, db) { FreshIsInStep(d); } else { UnmovedInStep(db, d); }
    case Adopt(tipHash) =>
      AdoptionEffect(env, db, tipHash);
      if Rewrites(env, db, tipHash) { FreshIsInStep(d); }
    case CountForks => UnmovedInStep(db, d);
  }

  // ---------------------------------------------------------------- whole runs

  /** The positions of the events that set the latest number. */
  ghost function Setters(env: Env, events: seq<Event>): (r: set<nat>)
    ensures forall k <- r :: k < |events|
  {
    if events == [] then {}
    else
      var n := |events| - 1;
      Setters(env, events[..n]) + (if SetsLatest(env, Run(env, events[..n]), events[n]) then {n} else {})
  }

  /** Taking over the latest slot, or pointing the latest number at an empty one. */
  ghost predicate Spoils(env: Env, db: Db, e: Event) {
    TakesLatest(env, db, e) || SetsEmptySlot(db, e)
  }

  ghost function Spoilers(env: Env, events: seq<Event>): (r: set<nat>)
    ensures forall k <- r :: k < |events|
  {
    if events == [] then {}
    else
      var n := |events| - 1;
      Spoilers(env, events[..n]) + (if Spoils(env, Run(env, events[..n]), events[n]) then {n} else {})
  }

  /** After every event that spoils the latest hash comes one that sets the latest number again. */
  ghost predicate Mended(spoilers: set<nat>, setters: set<nat>) {
    forall k <- spoilers :: exists j <- setters :: j > k
  }

  lemma OneMoreMark(spoilers: set<nat>, setters: set<nat>, n: nat, spoils: bool, sets: bool)
    requires (forall k <- spoilers :: k < n) && (forall k <- setters :: k < n)
    ensures Mended(spoilers + (if spoils then {n} else {}), setters + (if sets then {n} else {}))
       <==> !spoils && (sets || Mended(spoilers, setters))
  {
    var more, moreSet := spoilers + (if spoils then {n} else {}), setters + (if sets then {n} else {});
    if spoils {
      assert n in more;
    } else if sets {
      assert n in moreSet;
    } else {
      assert more == spoilers && moreSet == setters;
    }
  }

  lemma LastMark(env: Env, events: seq<Event>)
    requires events != []
    ensures
      var before, e := events[..|events| - 1], events[|events| - 1];
      Mended(Spoilers(env, events), Setters(env, events)) <==>
        && !Spoils(env, Run(env, before), e)
        && (SetsLatest(env, Run(env, before), e) || Mended(Spoilers(env, before), Setters(env, before)))
  {
    var n := |events| - 1;
    OneMoreMark(Spoilers(env, events[..n]), Setters(env, events[..n]), n,
                Spoils(env, Run(env, events[..n]), events[n]), SetsLatest(env, Run(env, events[..n]), events[n]));
  }

  lemma LastInStep(env: Env, events: seq<Event>)
    requires events != [] && HashKnown(Run(env, events[..|events| - 1]))
    ensures HashKnown(Run(env, events))
    ensures
      var before, e := Run(env, events[..|events| - 1]), events[|events| - 1];
      HashInStep(Run(env, events)) <==>
        !Spoils(env, before, e) && (SetsLatest(env, before, e) || HashInStep(before))
  {
    StepInStepIff(env, Run(env, events[..|events| - 1]), events[|events| - 1]);
    SpoilsOrSets(env, Run(env, events[..|events| - 1]), events[|events| - 1]);
  }

  /** A take-over of the latest slot does not move the latest number. */
  lemma SpoilsOrSets(env: Env, db: Db, e: Event)
    requires Valid(env, db)
    ensures TakesLatest(env, db, e) ==> !SetsLatest(env, db, e) && !SetsEmptySlot(db, e)
    ensures SetsEmptySlot(db, e) ==> SetsLatest(env, db, e)
  {
  }

  /** After any run the latest hash is that of the canonical latest block exactly when every take-over of the latest
      slot, and every pointing at an empty slot, was followed by an operation that set the latest block. */
  lemma {:induction false} LatestHashInStepIff(env: Env, events: seq<Event>)
    ensures HashKnown(Run(env, events))
    ensures HashInStep(Run(env, events)) <==> Mended(Spoilers(env, events), Setters(env, events))
  {
    if events != [] {
      LatestHashInStepIff(env, events[..|events| - 1]);
      LastInStep(env, events);
      LastMark(env, events);
    }
  }
}

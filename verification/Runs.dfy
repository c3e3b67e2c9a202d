/** Whole runs of the block store from the empty one: any sequence of first and latest block settings,
    additions, rebuilds, adoptions and fork counts. */
module Runs {
  import opened Options
  import opened Blocks
  import opened ChainStore
  import opened StoreLaws

  datatype Event =
    | SetFirst(number: int)
    | SetLatestId(number: int)
    | Add(block: Block, rulesOk: bool)
    | Rebuild
    | Adopt(tipHash: string)
    | CountForks

  ghost function Step(env: Env, db: Db, e: Event): Db
    requires Valid(env, db)
  {
    match e
    case SetFirst(number) => db.(first := Some(number))
    case SetLatestId(number) => SetLatest(db, number)
    case Add(b, rulesOk) => AddStep(env, db, b, rulesOk).1
    case Rebuild => RebuildStep(env, db).1
    case Adopt(tipHash) => AdoptStep(env, db, tipHash).1
    case CountForks => CountForksStep(db)
  }

  /** The later store has no lower checkpoint and every block of the earlier one. */
  ghost predicate Extends(before: Db, after: Db) {
    && CheckpointNumber(before) <= CheckpointNumber(after)
    && forall h <- before.blocks :: h in after.blocks && after.blocks[h] == before.blocks[h]
  }

  lemma ExtendsTransitive(a: Db, b: Db, c: Db)
    requires Extends(a, b) && Extends(b, c)
    ensures Extends(a, c)
  {
  }

  /** Every step keeps the invariant and never lowers the checkpoint; no step forgets or alters a stored block. */
  lemma StepKeeps(env: Env, db: Db, e: Event)
    requires Valid(env, db)
    ensures Valid(env, Step(env, db, e))
    ensures Extends(db, Step(env, db, e))
  {
    match e
    case SetFirst(number) => SetFirstKeeps(env, db, number);
    case SetLatestId(number) => SetLatestKeeps(env, db, number);
    case Add(b, rulesOk) => AddExtends(env, db, b, rulesOk);
    case Rebuild => RebuildLaw(env, db);
    case Adopt(tipHash) => AdoptionLaw(env, db, tipHash);
    case CountForks => CountForksKeeps(env, db);
  }

  lemma SetFirstKeeps(env: Env, db: Db, number: int)
    requires Valid(env, db)
    ensures Valid(env, db.(first := Some(number)))
  {
  }

  lemma CountForksKeeps(env: Env, db: Db)
    requires Valid(env, db)
    ensures Valid(env, CountForksStep(db))
  {
  }

  lemma AddExtends(env: Env, db: Db, b: Block, rulesOk: bool)
    requires Valid(env, db)
    ensures Valid(env, AddStep(env, db, b, rulesOk).1) && Extends(db, AddStep(env, db, b, rulesOk).1)
  {
    AddLaw(env, db, b, rulesOk);
  }

  lemma EmptyIsValid(env: Env)
    ensures Valid(env, Empty)
  {
    assert forall n :: !Forked(Empty.slots, n);
    assert Numbers(Empty.slots) == {};
  }

  ghost function Run(env: Env, events: seq<Event>): (db: Db)
    ensures Valid(env, db)
  {
    if events == [] then
      EmptyIsValid(env);
      Empty
    else
      var n := |events| - 1;
      StepKeeps(env, Run(env, events[..n]), events[n]);
      Step(env, Run(env, events[..n]), events[n])
  }

  /** After any run the caches agree with full scans of the store, fork count, latest fork slot and highest block
      alike, and the slot keys list exactly the stored blocks. */
  lemma CachesAfterAnyRun(env: Env, events: seq<Event>)
    ensures
      var db := Run(env, events);
      && db.slots == SlotsOf(db.blocks)
      && (db.forkCount.Some? ==> db.forkCount.value == ForkCount(db.slots))
      && (db.forkCount.None? ==> ForkCount(db.slots) == 0)
      && IsLatestFork(db.slots, GetOr(db.latestFork, -1))
      && IsHighest(db.blocks, GetOr(db.highest, -1))
  {
  }

  lemma RunExtends(env: Env, events: seq<Event>)
    requires events != []
    ensures Extends(Run(env, events[..|events| - 1]), Run(env, events))
  {
    StepKeeps(env, Run(env, events[..|events| - 1]), events[|events| - 1]);
  }

  /** Along any run the checkpoint number never decreases and stored blocks stay. */
  lemma {:induction false} RunsOnlyAdvance(env: Env, events: seq<Event>, k: nat)
    requires k <= |events|
    ensures Extends(Run(env, events[..k]), Run(env, events))
    decreases |events|
  {
    if k == |events| {
      assert events[..k] == events;
    } else {
      var shorter := events[..|events| - 1];
      RunsOnlyAdvance(env, shorter, k);
      assert shorter[..k] == events[..k];
      OneMoreEvent(env, Run(env, events[..k]), events);
    }
  }

  lemma OneMoreEvent(env: Env, earlier: Db, events: seq<Event>)
    requires events != [] && Extends(earlier, Run(env, events[..|events| - 1]))
    ensures Extends(earlier, Run(env, events))
  {
    RunExtends(env, events);
    ExtendsTransitive(earlier, Run(env, events[..|events| - 1]), Run(env, events));
  }

  lemma StepMoves(env: Env, db: Db, e: Event)
    requires Valid(env, db)
    ensures CheckpointMoves(env, db, Step(env, db, e))
  {
    match e
    case SetFirst(_) =>
    case SetLatestId(number) => SetLatestKeeps(env, db, number);
    case Add(b, rulesOk) => if Enters(env, db, b, rulesOk) { AddMoves(env, db, b); }
    case Rebuild => RebuildMoves(env, db);
    case Adopt(tipHash) => AdoptionMoves(env, db, tipHash);
    case CountForks =>
  }

  lemma RunMoves(env: Env, events: seq<Event>)
    requires events != []
    ensures CheckpointMoves(env, Run(env, events[..|events| - 1]), Run(env, events))
  {
    StepMoves(env, Run(env, events[..|events| - 1]), events[|events| - 1]);
  }

  /** The store had this checkpoint after k events, and then it lay at most 2000 connected, envelope-valid links below
      the canonical latest block. */
  ghost predicate WrittenAt(env: Env, events: seq<Event>, k: nat, number: Option<int>, hash: Option<string>)
  {
    && k <= |events|
    && var db := Run(env, events[..k]);
       db.checkpoint == number && db.checkpointHash == hash && NearTip(env, db)
  }

  lemma WrittenBefore(env: Env, events: seq<Event>, n: nat, k: nat, number: Option<int>, hash: Option<string>)
    requires n <= |events| && WrittenAt(env, events[..n], k, number, hash)
    ensures WrittenAt(env, events, k, number, hash)
  {
    assert events[..n][..k] == events[..k];
  }

  lemma WrittenLast(env: Env, events: seq<Event>)
    requires NearTip(env, Run(env, events))
    ensures WrittenAt(env, events, |events|, Run(env, events).checkpoint, Run(env, events).checkpointHash)
  {
    assert events[..|events|] == events;
  }

  /** Whatever checkpoint a run ends with was written near the tip at some moment of the run. */
  lemma {:induction false} CheckpointOrigin(env: Env, events: seq<Event>) returns (k: nat)
    requires Run(env, events).checkpoint.Some?
    ensures WrittenAt(env, events, k, Run(env, events).checkpoint, Run(env, events).checkpointHash)
  {
    var n := |events| - 1;
    RunMoves(env, events);
    var before, after := Run(env, events[..n]), Run(env, events);
    if after.checkpoint == before.checkpoint && after.checkpointHash == before.checkpointHash {
      k := CheckpointOrigin(env, events[..n]);
      WrittenBefore(env, events, n, k, after.checkpoint, after.checkpointHash);
    } else {
      k := |events|;
      WrittenLast(env, events);
    }
  }
}

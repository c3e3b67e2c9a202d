/** Because the validator stores a block only on top of a stored parent, every stored block reaches a genesis block
    (src/functions/chainvalidator.cpp, src/blockdb.cpp); so adoption of a stored hash depends on its root alone. */
module Roots {
  import opened Blocks
  import opened BestChain
  import opened ChainStore
  import opened StoreLaws
  import opened Runs

  /** A stored block is sealed, and either matches the configured genesis or stands on a stored block. */
  ghost predicate Grounded(env: Env, blocks: map<string, Block>, b: Block) {
    && EnvelopeValid(env, b)
    && if b.previousId <= 0 then env.genesisMatches(b.number, b.hash)
       else b.previousHash in blocks && Connects(b, blocks[b.previousHash])
  }

  ghost predicate Rooted(env: Env, blocks: map<string, Block>) {
    forall h <- blocks :: Grounded(env, blocks, blocks[h])
  }

  lemma RootedGrows(env: Env, blocks: map<string, Block>, b: Block)
    requires Rooted(env, blocks) && b.hash !in blocks && Grounded(env, blocks, b)
    ensures Rooted(env, blocks[b.hash := b])
  {
    var more := blocks[b.hash := b];
    forall h <- more ensures Grounded(env, more, more[h]) {
      if h != b.hash { assert Grounded(env, blocks, blocks[h]); }
    }
  }

  lemma StepRooted(env: Env, db: Db, e: Event)
    requires Valid(env, db) && Rooted(env, db.blocks)
    ensures Rooted(env, Step(env, db, e).blocks)
  {
    match e
    case SetFirst(_) =>
    case SetLatestId(_) =>
    case Add(b, rulesOk) =>
      AddLaw(env, db, b, rulesOk);
      if Enters(env, db, b, rulesOk) { RootedGrows(env, db.blocks, b); }
    case Rebuild => RebuildLaw(env, db);
    case Adopt(tipHash) => AdoptionLaw(env, db, tipHash);
    case CountForks =>
  }

  /** No run stores a block that does not reach a genesis. */
  lemma {:induction false} RootedAfterAnyRun(env: Env, events: seq<Event>)
    ensures Rooted(env, Run(env, events).blocks)
  {
    if events != [] {
      var n := |events| - 1;
      RootedAfterAnyRun(env, events[..n]);
      StepRooted(env, Run(env, events[..n]), events[n]);
    }
  }

  /** Spelled out: every stored block has a number, a hash, a creator, no more records than allowed, and a seal that holds. */
  lemma SealedAfterAnyRun(env: Env, events: seq<Event>, h: string)
    requires h in Run(env, events).blocks
    ensures
      var b := Run(env, events).blocks[h];
      b.hash == h && b.number > 0 && b.hash != "" && b.creator != "" && |b.records| <= env.maxRecords && env.sealOk(b)
  {
    RootedAfterAnyRun(env, events);
    assert Grounded(env, Run(env, events).blocks, Run(env, events).blocks[h]);
  }

  /** The genesis block under a block. */
  ghost function Root(env: Env, blocks: map<string, Block>, b: Block): (r: Block)
    requires Rooted(env, blocks) && Grounded(env, blocks, b)
    ensures r.previousId <= 0 && Grounded(env, blocks, r)
    decreases b.number
  {
    if b.previousId <= 0 then b else Root(env, blocks, blocks[b.previousHash])
  }

  /** How many blocks there are from the root to a block. */
  ghost function Depth(env: Env, blocks: map<string, Block>, b: Block): nat
    requires Rooted(env, blocks) && Grounded(env, blocks, b)
    decreases b.number
  {
    if b.previousId <= 0 then 1 else 1 + Depth(env, blocks, blocks[b.previousHash])
  }

  /** Stored, connecting, envelope-valid blocks lead from the root up to the block. */
  lemma {:induction false} RootPath(env: Env, db: Db, b: Block) returns (path: seq<Block>)
    requires Indexed(db) && Rooted(env, db.blocks) && b in Stored(db)
    ensures IsPath(Stored(db), path) && (forall x <- path :: EnvelopeValid(env, x))
    ensures path[0] == Root(env, db.blocks, b) && Last(path) == b && |path| == Depth(env, db.blocks, b)
    decreases b.number
  {
    path := [b];
    if b.previousId > 0 {
      var parent := db.blocks[b.previousHash];
      var below := RootPath(env, db, parent);
      path := below + [b];
      forall i | 0 <= i < |path| - 1 ensures Connects(path[i + 1], path[i]) {
        if i < |below| - 1 { assert Connects(below[i + 1], below[i]); }
      }
    }
  }

  /** A path down to any block without predecessor ends at the root. */
  lemma {:induction false} PathFindsRoot(env: Env, db: Db, path: seq<Block>)
    requires Indexed(db) && Rooted(env, db.blocks) && IsPath(Stored(db), path) && path[0].previousId <= 0
    ensures Last(path) in Stored(db) && path[0] == Root(env, db.blocks, Last(path))
    decreases |path|
  {
    var b := Last(path);
    assert b in path;
    if |path| > 1 {
      var below := path[..|path| - 1];
      PrefixIsPath(Stored(db), path, below);
      PathFindsRoot(env, db, below);
      assert Connects(path[|path| - 2 + 1], path[|path| - 2]);
      assert Last(below) in path && Last(below) in Stored(db);
    }
  }

  /** Any stored hash is adopted exactly when the number of its root is the first block id. */
  lemma AdoptsByRoot(env: Env, db: Db, tipHash: string)
    requires Indexed(db) && Rooted(env, db.blocks) && FirstId(db) > 0 && tipHash in db.blocks
    ensures AdoptStep(env, db, tipHash).0.Some? <==> Root(env, db.blocks, db.blocks[tipHash]).number == FirstId(db)
  {
    AdoptionIff(env, db, tipHash);
    var b := db.blocks[tipHash];
    assert b in Stored(db);
    var path := RootPath(env, db, b);
    if path[0].number == FirstId(db) {
      assert GenesisPath(env, db, path);
    }
    if other :| GenesisPath(env, db, other) && Last(other).hash == tipHash {
      PathFindsRoot(env, db, other);
      assert Last(other) == b;
    }
  }

  /** Over any run: adoption of a hash succeeds exactly when the hash is stored and its root has the first number. */
  lemma AdoptionAfterAnyRun(env: Env, events: seq<Event>, tipHash: string)
    requires FirstId(Run(env, events)) > 0
    ensures Rooted(env, Run(env, events).blocks)
    ensures
      var db := Run(env, events);
      AdoptStep(env, db, tipHash).0.Some? <==>
        tipHash in db.blocks && Root(env, db.blocks, db.blocks[tipHash]).number == FirstId(db)
  {
    RootedAfterAnyRun(env, events);
    var db := Run(env, events);
    if tipHash in db.blocks { AdoptsByRoot(env, db, tipHash); }
  }

  // ---------------------------------------------------------------- nothing deeper than the selection

  /** The selected chain is cut at the limit, or no shorter than this and, if as long, ends no lower. */
  ghost predicate Covers(selected: seq<Block>, length: nat, tip: int) {
    selected != [] && (|selected| == MAX_CHAIN_DEPTH || NoBetter(length, tip, |selected|, Last(selected).number))
  }

  lemma CoversPath(db: Db, path: seq<Block>)
    requires Indexed(db) && IsPath(Stored(db), path) && path[0].number == FirstId(db) && path[0].previousId <= 0
    ensures Covers(Selected(db), |path|, Last(path).number)
  {
    assert path[0] in path;
    var found := set b | b in Stored(db) && b.number == FirstId(db) && b.previousId <= 0;
    assert path[0] in found;
    SelectedIsLongest(db, path);
  }

  /** After any run no stored block whose root has the first number lies deeper than the selected chain, up to the cut. */
  lemma NoneDeeper(env: Env, events: seq<Event>, b: Block)
    requires b in Stored(Run(env, events))
    ensures Rooted(env, Run(env, events).blocks)
    ensures
      var db := Run(env, events);
      Root(env, db.blocks, b).number == FirstId(db) ==> Covers(Selected(db), Depth(env, db.blocks, b), b.number)
  {
    RootedAfterAnyRun(env, events);
    var db := Run(env, events);
    var path := RootPath(env, db, b);
    if path[0].number == FirstId(db) { CoversPath(db, path); }
  }

  /** So adoption never finds a chain that beats what a rebuild selects. */
  lemma NoAdoptionBeats(env: Env, events: seq<Event>, tipHash: string)
    requires AdoptStep(env, Run(env, events), tipHash).0.Some?
    ensures
      var db := Run(env, events);
      var chain := AdoptableChain(env, db, tipHash).value;
      chain != [] && Covers(Selected(db), |chain|, Last(chain).number)
  {
    var db := Run(env, events);
    AdoptionLaw(env, db, tipHash);
    CoversPath(db, AdoptableChain(env, db, tipHash).value);
  }

  // ---------------------------------------------------------------- where the selection starts

  /** After any run the selected chain starts at a stored block with the first number and no predecessor, which matches the
      configured genesis; if none is stored, at the canonical block of the first number; and is empty without that. */
  lemma SelectionStarts(env: Env, events: seq<Event>)
    ensures
      var db := Run(env, events);
      var chain := Selected(db);
      if exists b <- Stored(db) :: b.number == FirstId(db) && b.previousId <= 0 then
        chain != [] && chain[0].number == FirstId(db) && chain[0].previousId <= 0
        && env.genesisMatches(chain[0].number, chain[0].hash)
      else if FirstId(db) in db.canonical then chain != [] && chain[0] == GetBlock(db, FirstId(db))
      else chain == []
  {
    RootedAfterAnyRun(env, events);
    StartsAt(env, Run(env, events));
  }

  lemma StartsAt(env: Env, db: Db)
    requires Indexed(db) && Rooted(env, db.blocks)
    ensures
      var chain := Selected(db);
      if exists b <- Stored(db) :: b.number == FirstId(db) && b.previousId <= 0 then
        chain != [] && chain[0].number == FirstId(db) && chain[0].previousId <= 0
        && env.genesisMatches(chain[0].number, chain[0].hash)
      else if FirstId(db) in db.canonical then chain != [] && chain[0] == GetBlock(db, FirstId(db))
      else chain == []
  {
    SelectedIsPath(db);
    GetBlockIndexed(db, FirstId(db));
    var found := set b | b in Stored(db) && b.number == FirstId(db) && b.previousId <= 0;
    if b :| b in Stored(db) && b.number == FirstId(db) && b.previousId <= 0 {
      assert b in found;
      var g := Selected(db)[0];
      assert g in found && Grounded(env, db.blocks, g);
    } else {
      assert found == {};
    }
  }
}

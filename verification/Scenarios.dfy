/** Short runs from the empty store in which an operation of src/blockdb.cpp, or a replay over it, does less than one
    would expect. */
module Scenarios {
  import opened Options
  import opened Text
  import opened Blocks
  import opened BestChain
  import opened ChainStore
  import opened StoreLaws
  import opened Successors
  import opened Runs
  import opened NextKeys
  import opened LatestKeys
  import opened ChainWalk
  import Ledger

  /** A network without a configured genesis on which every seal holds and every block fits. */
  ghost predicate Lenient(env: Env) {
    && (forall b :: env.sealOk(b)) && (forall n, h :: env.genesisMatches(n, h)) && (forall b :: env.jsonFits(b))
    && (forall r :: env.recordSizeOk(r)) && env.maxRecords >= 1
  }

  /** A block without records, created by "k". */
  function Plain(number: int, hash: string, previousId: int, previousHash: string): Block {
    Block(number, hash, previousId, previousHash, "k", [])
  }

  lemma RunSnoc(env: Env, events: seq<Event>, e: Event)
    ensures Run(env, events + [e]) == Step(env, Run(env, events), e)
  {
    assert (events + [e])[..|events|] == events;
  }

  // ---------------------------------------------------------------- what one addition does

  /** The part of a store that the scenarios look at. */
  ghost predicate Holds(db: Db, blocks: map<string, Block>, canonical: map<int, string>, first: Option<int>,
                        latest: Option<int>, latestHash: Option<string>) {
    && db.blocks == blocks && db.canonical == canonical
    && db.first == first && db.latest == latest && db.latestHash == latestHash
  }

  ghost function Adding(events: seq<Event>, b: Block): seq<Event> {
    events + [Add(b, true)]
  }

  lemma RunAdding(env: Env, events: seq<Event>, b: Block)
    requires Enters(env, Run(env, events), b, true)
    ensures Run(env, Adding(events, b)) == StoreBlock(env, Run(env, events), b)
  {
    RunSnoc(env, events, Add(b, true));
  }

  /** A real block with at most one record. */
  predicate Small(b: Block) {
    b.number > 0 && b.hash != "" && b.creator != "" && |b.records| <= 1
  }

  predicate IsFirst(b: Block) {
    Small(b) && b.previousId == -1 && b.previousHash == ""
  }

  predicate Stands(blocks: map<string, Block>, b: Block) {
    && Small(b) && 0 < b.previousId < b.number && b.hash !in blocks
    && b.previousHash != "" && b.previousHash in blocks && blocks[b.previousHash].number == b.previousId
  }

  lemma StandsEnters(env: Env, db: Db, b: Block)
    requires Lenient(env) && (if b.previousId <= 0 then IsFirst(b) && b.hash !in db.blocks else Stands(db.blocks, b))
    ensures Enters(env, db, b, true)
  {
  }

  /** A first block becomes the latest. */
  lemma FirstEffect(env: Env, db: Db, first: Option<int>, b: Block)
    requires Valid(env, db) && Holds(db, map[], map[], first, None, None) && IsFirst(b)
    ensures Holds(StoreBlock(env, db, b), map[b.hash := b], map[b.number := b.hash], first, Some(b.number), Some(b.hash))
  {
    AddEffect(env, db, b);
  }

  /** A block at a free slot: the latest if it stands on the latest block. */
  lemma FreeEffect(env: Env, db: Db, blocks: map<string, Block>, canonical: map<int, string>, first: Option<int>,
                   latest: int, latestHash: string, b: Block)
    requires Valid(env, db) && Holds(db, blocks, canonical, first, Some(latest), Some(latestHash))
    requires Stands(blocks, b) && b.number !in canonical && latest > 0 && latest in canonical
    ensures
      var moves := b.previousId == latest && canonical[latest] == b.previousHash;
      Holds(StoreBlock(env, db, b), blocks[b.hash := b], canonical[b.number := b.hash], first,
            Some(if moves then b.number else latest), Some(if moves then b.hash else latestHash))
  {
    AddEffect(env, db, b);
    GetBlockIndexed(db, latest);
  }

  /** The block has the smaller hash of two variants without records. */
  predicate Displaces(blocks: map<string, Block>, canonical: map<int, string>, b: Block) {
    && b.number in canonical && canonical[b.number] in blocks && b.records == []
    && blocks[canonical[b.number]].records == [] && Less(b.hash, canonical[b.number])
  }

  /** Such a variant takes over its slot; the latest keys stay. */
  lemma VariantEffect(env: Env, db: Db, blocks: map<string, Block>, canonical: map<int, string>, first: Option<int>,
                      latest: int, latestHash: string, b: Block)
    requires Valid(env, db) && Holds(db, blocks, canonical, first, Some(latest), Some(latestHash))
    requires Stands(blocks, b) && Displaces(blocks, canonical, b) && b.previousId != latest && latest > 0
    ensures Holds(StoreBlock(env, db, b), blocks[b.hash := b], canonical[b.number := b.hash], first,
                  Some(latest), Some(latestHash))
  {
    AddEffect(env, db, b);
    GetBlockIndexed(db, b.number);
  }

  /** What a run leaves of that part. */
  ghost predicate After(env: Env, events: seq<Event>, blocks: map<string, Block>, canonical: map<int, string>,
                        first: Option<int>, latest: Option<int>, latestHash: Option<string>) {
    Holds(Run(env, events), blocks, canonical, first, latest, latestHash)
  }

  lemma SetFirstRun(env: Env, number: int)
    ensures After(env, [SetFirst(number)], map[], map[], Some(number), None, None)
    ensures Run(env, [SetFirst(number)]).nextId == map[] && Run(env, [SetFirst(number)]).nextHash == map[]
  {
    RunSnoc(env, [], SetFirst(number));
    assert [] + [SetFirst(number)] == [SetFirst(number)];
  }

  lemma AddFirst(env: Env, events: seq<Event>, first: Option<int>, b: Block)
    requires Lenient(env) && After(env, events, map[], map[], first, None, None) && IsFirst(b)
    ensures After(env, Adding(events, b), map[b.hash := b], map[b.number := b.hash], first, Some(b.number), Some(b.hash))
  {
    StandsEnters(env, Run(env, events), b);
    FirstEffect(env, Run(env, events), first, b);
    RunAdding(env, events, b);
  }

  lemma AddFree(env: Env, events: seq<Event>, blocks: map<string, Block>, canonical: map<int, string>, first: Option<int>,
                latest: int, latestHash: string, b: Block)
    requires Lenient(env) && After(env, events, blocks, canonical, first, Some(latest), Some(latestHash))
    requires Stands(blocks, b) && b.number !in canonical && latest > 0 && latest in canonical
    ensures
      var moves := b.previousId == latest && canonical[latest] == b.previousHash;
      After(env, Adding(events, b), blocks[b.hash := b], canonical[b.number := b.hash], first,
            Some(if moves then b.number else latest), Some(if moves then b.hash else latestHash))
  {
    StandsEnters(env, Run(env, events), b);
    FreeEffect(env, Run(env, events), blocks, canonical, first, latest, latestHash, b);
    RunAdding(env, events, b);
  }

  lemma AddVariant(env: Env, events: seq<Event>, blocks: map<string, Block>, canonical: map<int, string>, first: Option<int>,
                   latest: int, latestHash: string, b: Block)
    requires Lenient(env) && After(env, events, blocks, canonical, first, Some(latest), Some(latestHash))
    requires Stands(blocks, b) && Displaces(blocks, canonical, b) && b.previousId != latest && latest > 0
    ensures After(env, Adding(events, b), blocks[b.hash := b], canonical[b.number := b.hash], first,
                  Some(latest), Some(latestHash))
  {
    StandsEnters(env, Run(env, events), b);
    VariantEffect(env, Run(env, events), blocks, canonical, first, latest, latestHash, b);
    RunAdding(env, events, b);
  }

  /** A genesis and a block on it. */
  lemma TwoBlocks(env: Env, events: seq<Event>, first: Option<int>, g: Block, b: Block)
    requires Lenient(env) && After(env, events, map[], map[], first, None, None)
    requires IsFirst(g) && g.number == 1 && Stands(map[g.hash := g], b) && b.number == 2
    ensures After(env, Adding(Adding(events, g), b), map[g.hash := g, b.hash := b], map[1 := g.hash, 2 := b.hash],
                  first, Some(2), Some(b.hash))
  {
    AddFirst(env, events, first, g);
    AddFree(env, Adding(events, g), map[g.hash := g], map[1 := g.hash], first, 1, g.hash, b);
  }

  // ---------------------------------------------------------------- the stale latest hash

  predicate Variants(g: Block, b: Block, a: Block) {
    g == Plain(1, "g", -1, "") && b == Plain(2, "b", 1, "g") && a == Plain(2, "a", 1, "g")
  }

  lemma VariantDisplaces(g: Block, b: Block, a: Block)
    requires Variants(g, b, a)
    ensures
      var blocks, canonical := map["g" := g, "b" := b], map[1 := "g", 2 := "b"];
      && IsFirst(g) && Stands(map["g" := g], b) && Stands(blocks, a) && Displaces(blocks, canonical, a)
      && canonical[a.number := a.hash] == map[1 := "g", 2 := "a"]
      && blocks[a.hash := a] == map["g" := g, "b" := b, "a" := a]
  {
  }

  lemma TakeOver(env: Env, events: seq<Event>, first: Option<int>, g: Block, b: Block, a: Block)
    requires Lenient(env) && Variants(g, b, a)
    requires After(env, events, map["g" := g, "b" := b], map[1 := "g", 2 := "b"], first, Some(2), Some("b"))
    ensures After(env, Adding(events, a), map["g" := g, "b" := b, "a" := a], map[1 := "g", 2 := "a"],
                  first, Some(2), Some("b"))
  {
    var blocks, canonical := map["g" := g, "b" := b], map[1 := "g", 2 := "b"];
    VariantDisplaces(g, b, a);
    AddVariant(env, events, blocks, canonical, first, 2, "b", a);
  }

  lemma VariantRun(env: Env, events: seq<Event>, first: Option<int>, g: Block, b: Block, a: Block)
    requires Lenient(env) && Variants(g, b, a) && After(env, events, map[], map[], first, None, None)
    ensures After(env, Adding(Adding(Adding(events, g), b), a), map["g" := g, "b" := b, "a" := a], map[1 := "g", 2 := "a"],
                  first, Some(2), Some("b"))
  {
    VariantDisplaces(g, b, a);
    TwoBlocks(env, events, first, g, b);
    TakeOver(env, Adding(Adding(events, g), b), first, g, b, a);
  }

  /** Two variants of block 2: the second takes the slot, and the latest hash still names the first. */
  lemma LatestHashGoesStale(env: Env)
    requires Lenient(env)
    ensures
      var g, b, a := Plain(1, "g", -1, ""), Plain(2, "b", 1, "g"), Plain(2, "a", 1, "g");
      var d := Run(env, [Add(g, true), Add(b, true), Add(a, true)]);
      && d.latest == Some(2) && d.latestHash == Some("b") && GetBlock(d, 2) == a && !HashInStep(d)
  {
    var g, b, a := Plain(1, "g", -1, ""), Plain(2, "b", 1, "g"), Plain(2, "a", 1, "g");
    assert Adding(Adding(Adding([], g), b), a) == [Add(g, true), Add(b, true), Add(a, true)];
    VariantRun(env, [], None, g, b, a);
    GetBlockIndexed(Run(env, [Add(g, true), Add(b, true), Add(a, true)]), 2);
  }

  // ---------------------------------------------------------------- the adoption that repairs nothing

  predicate Overtaken(g: Block, b: Block, c: Block, a: Block) {
    Variants(g, b, a) && c == Plain(3, "c", 2, "b")
  }

  /** Block 3 is the tip and stands on variant "b" of block 2, whose slot variant "a" has taken: adopting block 3
      succeeds, changes nothing and leaves "a" canonical. */
  lemma AdoptionLeavesVariant(env: Env)
    requires Lenient(env)
    ensures
      var g, b, c, a := Plain(1, "g", -1, ""), Plain(2, "b", 1, "g"), Plain(3, "c", 2, "b"), Plain(2, "a", 1, "g");
      var events := [SetFirst(1), Add(g, true), Add(b, true), Add(c, true), Add(a, true)];
      var d := Run(env, events);
      && AdoptableChain(env, d, "c") == Some([g, b, c])
      && AdoptStep(env, d, "c").0 == Some(3) && Run(env, events + [Adopt("c")]) == d
      && GetBlock(d, 2) == a
  {
    var g, b, c, a := Plain(1, "g", -1, ""), Plain(2, "b", 1, "g"), Plain(3, "c", 2, "b"), Plain(2, "a", 1, "g");
    assert Adding(Adding(Adding(Adding([SetFirst(1)], g), b), c), a)
        == [SetFirst(1), Add(g, true), Add(b, true), Add(c, true), Add(a, true)];
    var events := [SetFirst(1), Add(g, true), Add(b, true), Add(c, true), Add(a, true)];
    OvertakenRun(env, g, b, c, a);
    AdoptsInPlace(env, Run(env, events), g, b, c, a);
    AdoptKeeps(env, events, "c");
  }

  lemma AdoptKeeps(env: Env, events: seq<Event>, tipHash: string)
    requires AdoptStep(env, Run(env, events), tipHash).1 == Run(env, events)
    ensures Run(env, events + [Adopt(tipHash)]) == Run(env, events)
  {
    RunSnoc(env, events, Adopt(tipHash));
  }

  lemma OvertakenRun(env: Env, g: Block, b: Block, c: Block, a: Block)
    requires Lenient(env) && Overtaken(g, b, c, a)
    ensures After(env, Adding(Adding(Adding(Adding([SetFirst(1)], g), b), c), a),
                  map["g" := g, "b" := b, "c" := c, "a" := a], map[1 := "g", 2 := "a", 3 := "c"], Some(1), Some(3), Some("c"))
  {
    OvertakesSlot(g, b, c, a);
    SetFirstRun(env, 1);
    TwoBlocks(env, [SetFirst(1)], Some(1), g, b);
    OnTop(env, Adding(Adding([SetFirst(1)], g), b), g, b, c, a);
    Overtake(env, Adding(Adding(Adding([SetFirst(1)], g), b), c), g, b, c, a);
  }

  lemma OvertakesSlot(g: Block, b: Block, c: Block, a: Block)
    requires Overtaken(g, b, c, a)
    ensures IsFirst(g) && Stands(map["g" := g], b) && Stands(map["g" := g, "b" := b], c)
    ensures
      var blocks, canonical := map["g" := g, "b" := b, "c" := c], map[1 := "g", 2 := "b", 3 := "c"];
      && Stands(blocks, a) && Displaces(blocks, canonical, a)
      && canonical[a.number := a.hash] == map[1 := "g", 2 := "a", 3 := "c"]
      && blocks[a.hash := a] == map["g" := g, "b" := b, "c" := c, "a" := a]
  {
  }

  lemma OnTop(env: Env, events: seq<Event>, g: Block, b: Block, c: Block, a: Block)
    requires Lenient(env) && Overtaken(g, b, c, a)
    requires After(env, events, map["g" := g, "b" := b], map[1 := "g", 2 := "b"], Some(1), Some(2), Some("b"))
    ensures After(env, Adding(events, c), map["g" := g, "b" := b, "c" := c], map[1 := "g", 2 := "b", 3 := "c"],
                  Some(1), Some(3), Some("c"))
  {
    OvertakesSlot(g, b, c, a);
    AddFree(env, events, map["g" := g, "b" := b], map[1 := "g", 2 := "b"], Some(1), 2, "b", c);
  }

  lemma Overtake(env: Env, events: seq<Event>, g: Block, b: Block, c: Block, a: Block)
    requires Lenient(env) && Overtaken(g, b, c, a)
    requires After(env, events, map["g" := g, "b" := b, "c" := c], map[1 := "g", 2 := "b", 3 := "c"], Some(1), Some(3), Some("c"))
    ensures After(env, Adding(events, a), map["g" := g, "b" := b, "c" := c, "a" := a], map[1 := "g", 2 := "a", 3 := "c"],
                  Some(1), Some(3), Some("c"))
  {
    var blocks, canonical := map["g" := g, "b" := b, "c" := c], map[1 := "g", 2 := "b", 3 := "c"];
    OvertakesSlot(g, b, c, a);
    AddVariant(env, events, blocks, canonical, Some(1), 3, "c", a);
  }

  lemma AdoptsInPlace(env: Env, db: Db, g: Block, b: Block, c: Block, a: Block)
    requires Lenient(env) && Indexed(db) && Overtaken(g, b, c, a)
    requires Holds(db, map["g" := g, "b" := b, "c" := c, "a" := a], map[1 := "g", 2 := "a", 3 := "c"], Some(1),
                   Some(3), Some("c"))
    ensures AdoptableChain(env, db, "c") == Some([g, b, c]) && AdoptStep(env, db, "c") == (Some(3), db) && GetBlock(db, 2) == a
  {
    GetBlockIndexed(db, 2);
    GetBlockIndexed(db, 3);
    assert WalkBack(env, db, 1, g) == Some([g]);
    assert WalkBack(env, db, 1, b) == Some([g] + [b]);
    assert WalkBack(env, db, 1, c) == Some([g] + [b] + [c]);
    assert [g] + [b] + [c] == [g, b, c];
  }

  // ---------------------------------------------------------------- the rebuild that looks at one branch only

  /** The chain validator rejects exactly the chains with this block in them. */
  ghost predicate Rejects(env: Env, hash: string) {
    forall chain: seq<Block> :: env.chainOk(chain) <==> forall b <- chain :: b.hash != hash
  }

  predicate Branched(g: Block, w: Block, x: Block, y: Block) {
    && g == Plain(1, "g", -1, "") && w == Plain(2, "w", 1, "g")
    && x == Plain(3, "x", 1, "g") && y == Plain(4, "y", 3, "x")
  }

  /** The chain validator rejects the longer branch with "x" in it: the rebuild falls back to the genesis alone and drops
      the canonical tip "w", although the path to it is accepted and longer. */
  lemma RebuildPassesOver(env: Env)
    requires Lenient(env) && Rejects(env, "x")
    ensures
      var g, w := Plain(1, "g", -1, ""), Plain(2, "w", 1, "g");
      var x, y := Plain(3, "x", 1, "g"), Plain(4, "y", 3, "x");
      var d := Run(env, [SetFirst(1), Add(g, true), Add(w, true), Add(x, true), Add(y, true)]);
      && d.latest == Some(2) && GetBlock(d, 2) == w && RebuildStep(env, d).0 == 1
      && IsPath(Stored(d), [g, w]) && g in Candidates(d) && env.chainOk([g, w])
  {
    var g, w := Plain(1, "g", -1, ""), Plain(2, "w", 1, "g");
    var x, y := Plain(3, "x", 1, "g"), Plain(4, "y", 3, "x");
    assert Adding(Adding(Adding(Adding([SetFirst(1)], g), w), x), y)
        == [SetFirst(1), Add(g, true), Add(w, true), Add(x, true), Add(y, true)];
    BranchedRun(env, g, w, x, y);
    var d := Run(env, [SetFirst(1), Add(g, true), Add(w, true), Add(x, true), Add(y, true)]);
    FallsBack(env, d, g, w, x, y);
    OtherBranch(env, d, g, w, x, y);
  }

  /** In that run "x" and "y" do not extend the latest block, so they are stored without the rules by which the chain
      validator can reject them. */
  lemma BranchUnchecked(env: Env)
    requires Lenient(env)
    ensures
      var g, w := Plain(1, "g", -1, ""), Plain(2, "w", 1, "g");
      var x, y := Plain(3, "x", 1, "g"), Plain(4, "y", 3, "x");
      && !RulesEnforced(Run(env, [SetFirst(1), Add(g, true), Add(w, true)]), x)
      && !RulesEnforced(Run(env, [SetFirst(1), Add(g, true), Add(w, true), Add(x, true)]), y)
  {
    var g, w := Plain(1, "g", -1, ""), Plain(2, "w", 1, "g");
    var x, y := Plain(3, "x", 1, "g"), Plain(4, "y", 3, "x");
    assert Adding(Adding([SetFirst(1)], g), w) == [SetFirst(1), Add(g, true), Add(w, true)];
    assert Adding(Adding(Adding([SetFirst(1)], g), w), x) == [SetFirst(1), Add(g, true), Add(w, true), Add(x, true)];
    BranchStart(env, g, w, x, y);
    NotOnLatest(Run(env, Adding(Adding([SetFirst(1)], g), w)), x);
    NotOnLatest(Run(env, Adding(Adding(Adding([SetFirst(1)], g), w), x)), y);
  }

  lemma NotOnLatest(db: Db, b: Block)
    requires b.previousId > 0 && b.previousId != LatestId(db)
    ensures !RulesEnforced(db, b)
  {
  }

  lemma BranchStart(env: Env, g: Block, w: Block, x: Block, y: Block)
    requires Lenient(env) && Branched(g, w, x, y)
    ensures
      var two := Adding(Adding([SetFirst(1)], g), w);
      && LatestId(Run(env, two)) == 2 && LatestId(Run(env, Adding(two, x))) == 2
      && After(env, Adding(two, x), map["g" := g, "w" := w, "x" := x], map[1 := "g", 2 := "w", 3 := "x"],
               Some(1), Some(2), Some("w"))
  {
    BranchStands(g, w, x, y);
    SetFirstRun(env, 1);
    TwoBlocks(env, [SetFirst(1)], Some(1), g, w);
    BranchLeft(env, Adding(Adding([SetFirst(1)], g), w), g, w, x, y);
  }

  lemma BranchedRun(env: Env, g: Block, w: Block, x: Block, y: Block)
    requires Lenient(env) && Branched(g, w, x, y)
    ensures After(env, Adding(Adding(Adding(Adding([SetFirst(1)], g), w), x), y), map["g" := g, "w" := w, "x" := x, "y" := y],
                  map[1 := "g", 2 := "w", 3 := "x", 4 := "y"], Some(1), Some(2), Some("w"))
  {
    BranchStart(env, g, w, x, y);
    BranchGrows(env, Adding(Adding(Adding([SetFirst(1)], g), w), x), g, w, x, y);
  }

  lemma BranchStands(g: Block, w: Block, x: Block, y: Block)
    requires Branched(g, w, x, y)
    ensures IsFirst(g) && Stands(map["g" := g], w)
    ensures Stands(map["g" := g, "w" := w], x) && Stands(map["g" := g, "w" := w, "x" := x], y)
  {
  }

  lemma BranchLeft(env: Env, events: seq<Event>, g: Block, w: Block, x: Block, y: Block)
    requires Lenient(env) && Branched(g, w, x, y)
    requires After(env, events, map["g" := g, "w" := w], map[1 := "g", 2 := "w"], Some(1), Some(2), Some("w"))
    ensures After(env, Adding(events, x), map["g" := g, "w" := w, "x" := x], map[1 := "g", 2 := "w", 3 := "x"],
                  Some(1), Some(2), Some("w"))
  {
    BranchStands(g, w, x, y);
    AddFree(env, events, map["g" := g, "w" := w], map[1 := "g", 2 := "w"], Some(1), 2, "w", x);
  }

  lemma BranchGrows(env: Env, events: seq<Event>, g: Block, w: Block, x: Block, y: Block)
    requires Lenient(env) && Branched(g, w, x, y)
    requires After(env, events, map["g" := g, "w" := w, "x" := x], map[1 := "g", 2 := "w", 3 := "x"],
                   Some(1), Some(2), Some("w"))
    ensures After(env, Adding(events, y), map["g" := g, "w" := w, "x" := x, "y" := y],
                  map[1 := "g", 2 := "w", 3 := "x", 4 := "y"], Some(1), Some(2), Some("w"))
  {
    BranchStands(g, w, x, y);
    AddFree(env, events, map["g" := g, "w" := w, "x" := x], map[1 := "g", 2 := "w", 3 := "x"], Some(1), 2, "w", y);
  }

  /** The store of that run. */
  ghost predicate FourBlocks(db: Db, g: Block, w: Block, x: Block, y: Block) {
    && Branched(g, w, x, y) && db.blocks == map["g" := g, "w" := w, "x" := x, "y" := y]
    && db.first == Some(1) && db.latest == Some(2)
  }

  lemma FallsBack(env: Env, db: Db, g: Block, w: Block, x: Block, y: Block)
    requires Valid(env, db) && Rejects(env, "x") && FourBlocks(db, g, w, x, y)
    ensures RebuildStep(env, db).0 == 1
  {
    FourStored(db, g, w, x, y);
    SelectsRejected(db, g, w, x, y);
    TrimsToGenesis(env, g, x, y);
    HighestBeats(env, db, "y");
    SlowRebuildCommits(env, db, [g]);
  }

  lemma OtherBranch(env: Env, db: Db, g: Block, w: Block, x: Block, y: Block)
    requires Indexed(db) && Rejects(env, "x") && FourBlocks(db, g, w, x, y)
    requires 2 in db.canonical && db.canonical[2] == "w"
    ensures IsPath(Stored(db), [g, w]) && g in Candidates(db) && env.chainOk([g, w]) && GetBlock(db, 2) == w
  {
    FourStored(db, g, w, x, y);
    GetBlockIndexed(db, 2);
  }

  /** A stored block above the latest number turns the fast path away. */
  lemma HighestBeats(env: Env, db: Db, hash: string)
    requires Valid(env, db) && FirstId(db) >= 0 && hash in db.blocks && db.blocks[hash].number > LatestId(db)
    ensures RebuildStep(env, db) == SlowRebuild(env, db)
  {
    assert FastTip(env, db, GetOr(db.highest, -1)).None?;
  }

  lemma SelectsRejected(db: Db, g: Block, w: Block, x: Block, y: Block)
    requires Branched(g, w, x, y) && Indexed(db) && Stored(db) == {g, w, x, y} && Candidates(db) == {g}
    ensures Selected(db) == [g, x, y]
  {
    var path := [g, x, y];
    assert IsPath(Stored(db), path);
    SelectedIsLongest(db, path);
    var full :| IsPath(Stored(db), full) && full[0] in Candidates(db)
      && NoBetter(|path|, Last(path).number, |full|, Last(full).number) && Selected(db) == Cut(full);
    OnlyLongPath(Stored(db), full, g, w, x, y);
  }

  lemma FourStored(db: Db, g: Block, w: Block, x: Block, y: Block)
    requires Indexed(db) && FourBlocks(db, g, w, x, y)
    ensures Stored(db) == {g, w, x, y} && Candidates(db) == {g}
  {
    FourInMap(db.blocks, g, w, x, y);
    var found := set b | b in Stored(db) && b.number == 1 && b.previousId <= 0;
    assert g in found;
    assert found == {g};
  }

  lemma FourInMap(blocks: map<string, Block>, g: Block, w: Block, x: Block, y: Block)
    requires blocks == map["g" := g, "w" := w, "x" := x, "y" := y]
    ensures (set h | h in blocks :: blocks[h]) == {g, w, x, y}
  {
    assert blocks["g"] == g && blocks["w"] == w && blocks["x"] == x && blocks["y"] == y;
  }

  lemma OnlyLongPath(store: set<Block>, path: seq<Block>, g: Block, w: Block, x: Block, y: Block)
    requires Branched(g, w, x, y) && store == {g, w, x, y} && IsPath(store, path) && path[0] == g && |path| >= 3
    ensures path == [g, x, y]
  {
    assert path[1] in path && path[2] in path;
    assert Connects(path[0 + 1], path[0]) && Connects(path[1 + 1], path[1]);
    assert path[2] == y && path[1] == x;
    assert |path| > 3 ==> path[3] in path && Connects(path[2 + 1], path[2]);
  }

  lemma TrimsToGenesis(env: Env, g: Block, x: Block, y: Block)
    requires Rejects(env, "x")
    requires g.hash == "g" && x.hash == "x"
    ensures AcceptedPrefix(env, [g, x, y]) == [g]
  {
    var all, two, one := [g, x, y], [g, x], [g];
    assert all[..2] == two && two[..1] == one;
    assert all[1] in all && two[1] in two;
    assert !env.chainOk(all) && !env.chainOk(two) && env.chainOk(one);
    assert AcceptedPrefix(env, one) == one;
    assert AcceptedPrefix(env, two) == one;
  }

  // ---------------------------------------------------------------- next keys along a run

  ghost predicate Keys(env: Env, events: seq<Event>, nextId: map<int, int>, nextHash: map<string, string>) {
    Run(env, events).nextId == nextId && Run(env, events).nextHash == nextHash
  }

  /** A block whose parent has no keys gets both. */
  lemma FreshKeys(env: Env, db: Db, b: Block)
    requires Valid(env, db) && b.number > 0 && b.hash != "" && b.hash !in db.blocks && b.number !in db.canonical
    requires b.previousId > 0 && b.previousHash != "" && b.previousId !in db.nextId && b.previousHash !in db.nextHash
    ensures
      var d := StoreBlock(env, db, b);
      d.nextId == db.nextId[b.previousId := b.number] && d.nextHash == db.nextHash[b.previousHash := b.hash]
  {
    KeysAre(env, db, b);
  }

  /** A variant of the child that the parent's keys lead to leaves them. */
  lemma KeptKeys(env: Env, db: Db, b: Block)
    requires Valid(env, db) && b.number > 0 && b.hash != "" && b.hash !in db.blocks && Wins(db, b) && b.previousId > 0
    requires b.previousId in db.nextId && db.nextId[b.previousId] == b.number
    requires b.previousHash in db.nextHash && b.previousHash in db.blocks && db.nextHash[b.previousHash] in db.blocks
    requires Connects(db.blocks[db.nextHash[b.previousHash]], db.blocks[b.previousHash])
    ensures
      var d := StoreBlock(env, db, b);
      d.nextId == db.nextId && d.nextHash == db.nextHash
  {
    KeysAre(env, db, b);
    assert b.previousHash != "" && db.nextHash[b.previousHash] != "" && db.nextHash[b.previousHash] != b.hash;
  }

  lemma AddFirstKeys(env: Env, events: seq<Event>, first: Option<int>, b: Block)
    requires Lenient(env) && After(env, events, map[], map[], first, None, None) && Keys(env, events, map[], map[])
    requires IsFirst(b)
    ensures Keys(env, Adding(events, b), map[], map[])
  {
    StandsEnters(env, Run(env, events), b);
    RunAdding(env, events, b);
    KeysAre(env, Run(env, events), b);
  }

  lemma AddFreshKeys(env: Env, events: seq<Event>, nextId: map<int, int>, nextHash: map<string, string>, b: Block)
    requires Lenient(env) && Stands(Run(env, events).blocks, b) && b.number !in Run(env, events).canonical
    requires Keys(env, events, nextId, nextHash) && b.previousId !in nextId && b.previousHash !in nextHash
    ensures Keys(env, Adding(events, b), nextId[b.previousId := b.number], nextHash[b.previousHash := b.hash])
  {
    StandsEnters(env, Run(env, events), b);
    RunAdding(env, events, b);
    FreshKeys(env, Run(env, events), b);
  }

  /** A genesis and a block on it, with the genesis's keys. */
  lemma TwoBlocksKeys(env: Env, g: Block, b: Block)
    requires Lenient(env) && IsFirst(g) && g.number == 1 && Stands(map[g.hash := g], b) && b.number == 2
    ensures Keys(env, Adding(Adding([SetFirst(1)], g), b), map[1 := 2], map[g.hash := b.hash])
  {
    SetFirstRun(env, 1);
    AddFirst(env, [SetFirst(1)], Some(1), g);
    AddFirstKeys(env, [SetFirst(1)], Some(1), g);
    AddFreshKeys(env, Adding([SetFirst(1)], g), map[], map[], b);
  }

  // ---------------------------------------------------------------- the walk over two branches

  predicate Crossed(g: Block, b: Block, a: Block, c: Block) {
    Variants(g, b, a) && c == Plain(3, "c", 2, "a")
  }

  /** Variant "a" has taken slot 2 from "b", and block 3 stands on "a"; the next-hash key of the genesis still leads to
      "b", and from there the next-number key leads to block 3: after additions alone the walk crosses from one branch to
      the other. */
  lemma WalkCrossesBranches(env: Env)
    requires Lenient(env)
    ensures
      var g, b, a, c := Plain(1, "g", -1, ""), Plain(2, "b", 1, "g"), Plain(2, "a", 1, "g"), Plain(3, "c", 2, "a");
      var d := Run(env, [SetFirst(1), Add(g, true), Add(b, true), Add(a, true), Add(c, true)]);
      Walk(d, None) == [g, b, c] && !Connects(c, b) && GetBlock(d, 2) == a
  {
    var g, b, a, c := Plain(1, "g", -1, ""), Plain(2, "b", 1, "g"), Plain(2, "a", 1, "g"), Plain(3, "c", 2, "a");
    assert Adding(Adding(Adding(Adding([SetFirst(1)], g), b), a), c)
        == [SetFirst(1), Add(g, true), Add(b, true), Add(a, true), Add(c, true)];
    CrossedRun(env, g, b, a, c);
    CrossesWalk(Run(env, [SetFirst(1), Add(g, true), Add(b, true), Add(a, true), Add(c, true)]), g, b, a, c);
  }

  lemma CrossedRun(env: Env, g: Block, b: Block, a: Block, c: Block)
    requires Lenient(env) && Crossed(g, b, a, c)
    ensures
      var events := Adding(Adding(Adding(Adding([SetFirst(1)], g), b), a), c);
      && After(env, events, map["g" := g, "b" := b, "a" := a, "c" := c], map[1 := "g", 2 := "a", 3 := "c"],
               Some(1), Some(3), Some("c"))
      && Keys(env, events, map[1 := 2, 2 := 3], map["g" := "b", "a" := "c"])
  {
    SetFirstRun(env, 1);
    VariantDisplaces(g, b, a);
    TwoBlocks(env, [SetFirst(1)], Some(1), g, b);
    TwoBlocksKeys(env, g, b);
    VariantKeeps(env, Adding(Adding([SetFirst(1)], g), b), g, b, a);
    Crosses(env, Adding(Adding(Adding([SetFirst(1)], g), b), a), g, b, a, c);
  }

  lemma VariantKeeps(env: Env, events: seq<Event>, g: Block, b: Block, a: Block)
    requires Lenient(env) && Variants(g, b, a)
    requires After(env, events, map["g" := g, "b" := b], map[1 := "g", 2 := "b"], Some(1), Some(2), Some("b"))
    requires Keys(env, events, map[1 := 2], map["g" := "b"])
    ensures After(env, Adding(events, a), map["g" := g, "b" := b, "a" := a], map[1 := "g", 2 := "a"],
                  Some(1), Some(2), Some("b"))
    ensures Keys(env, Adding(events, a), map[1 := 2], map["g" := "b"])
  {
    TakeOver(env, events, Some(1), g, b, a);
    VariantDisplaces(g, b, a);
    StandsEnters(env, Run(env, events), a);
    RunAdding(env, events, a);
    VariantWins(env, Run(env, events), g, b, a);
    KeptKeys(env, Run(env, events), a);
  }

  lemma VariantWins(env: Env, db: Db, g: Block, b: Block, a: Block)
    requires Valid(env, db) && Variants(g, b, a)
    requires db.blocks == map["g" := g, "b" := b] && db.canonical == map[1 := "g", 2 := "b"]
    ensures Wins(db, a)
  {
    GetBlockIndexed(db, 2);
    VariantDisplaces(g, b, a);
  }

  lemma CrossedStands(g: Block, b: Block, a: Block, c: Block)
    requires Crossed(g, b, a, c)
    ensures Stands(map["g" := g, "b" := b, "a" := a], c)
  {
  }

  lemma Crosses(env: Env, events: seq<Event>, g: Block, b: Block, a: Block, c: Block)
    requires Lenient(env) && Crossed(g, b, a, c)
    requires After(env, events, map["g" := g, "b" := b, "a" := a], map[1 := "g", 2 := "a"], Some(1), Some(2), Some("b"))
    requires Keys(env, events, map[1 := 2], map["g" := "b"])
    ensures After(env, Adding(events, c), map["g" := g, "b" := b, "a" := a, "c" := c], map[1 := "g", 2 := "a", 3 := "c"],
                  Some(1), Some(3), Some("c"))
    ensures Keys(env, Adding(events, c), map[1 := 2, 2 := 3], map["g" := "b", "a" := "c"])
  {
    CrossedStands(g, b, a, c);
    AddFree(env, events, map["g" := g, "b" := b, "a" := a], map[1 := "g", 2 := "a"], Some(1), 2, "b", c);
    AddFreshKeys(env, events, map[1 := 2], map["g" := "b"], c);
  }

  lemma CrossesWalk(db: Db, g: Block, b: Block, a: Block, c: Block)
    requires Indexed(db) && Crossed(g, b, a, c)
    requires Holds(db, map["g" := g, "b" := b, "a" := a, "c" := c], map[1 := "g", 2 := "a", 3 := "c"],
                   Some(1), Some(3), Some("c"))
    requires db.nextId == map[1 := 2, 2 := 3] && db.nextHash == map["g" := "b", "a" := "c"]
    ensures Walk(db, None) == [g, b, c] && !Connects(c, b) && GetBlock(db, 2) == a
  {
    GetBlockIndexed(db, 1);
    GetBlockIndexed(db, 2);
    NextByKey(db, g, b);
    NextByNumber(db, g, b, a, c);
    ThreeVisited(Next(db), g, b, c);
  }

  lemma NextByKey(db: Db, b: Block, c: Block)
    requires Indexed(db) && b.hash in db.nextHash && db.nextHash[b.hash] == c.hash
    requires c.hash != "" && c.hash in db.blocks && db.blocks[c.hash] == c && Connects(c, b)
    ensures NextBlock(db, b) == c
  {
  }

  lemma NextByNumber(db: Db, g: Block, b: Block, a: Block, c: Block)
    requires Indexed(db) && Crossed(g, b, a, c)
    requires db.blocks == map["g" := g, "b" := b, "a" := a, "c" := c] && db.canonical == map[1 := "g", 2 := "a", 3 := "c"]
    requires db.nextId == map[1 := 2, 2 := 3] && db.nextHash == map["g" := "b", "a" := "c"]
    ensures NextBlock(db, b) == c
  {
    GetBlockIndexed(db, 3);
    assert ByHashKey(db, b) == NoBlock && Leftover(db, b) == c;
    assert Rivals(db, b, c) == {};
  }

  lemma ThreeVisited(next: Block -> Block, g: Block, b: Block, c: Block)
    requires 0 < g.number < b.number < c.number && next(g) == b && next(b) == c
    ensures Visited(next, None, c.number, g, 0) == [g, b, c]
  {
    assert Visited(next, None, c.number, c, 2) == [c];
    assert Visited(next, None, c.number, b, 1) == [b] + [c];
  }

  // ---------------------------------------------------------------- the transfer to oneself

  /** Account "a" creates two blocks: in the first it issues one to itself, in the second it sends a half to itself. */
  lemma SelfTransferCreates(env: Env)
    requires Lenient(env)
    ensures
      var issue := Record(IssueCurrency, "h1", "a", "a", 1.0, 0.0, "", "");
      var transfer := Record(TransferCurrency, "h2", "a", "a", 0.5, 0.0, "", "");
      var g, t := Block(1, "g", -1, "", "a", [issue]), Block(2, "t", 1, "g", "a", [transfer]);
      Ledger.Reported(Run(env, [SetFirst(1), Add(g, true), Add(t, true)]), "a", 2) == 1.5
  {
    var issue := Record(IssueCurrency, "h1", "a", "a", 1.0, 0.0, "", "");
    var transfer := Record(TransferCurrency, "h2", "a", "a", 0.5, 0.0, "", "");
    var g, t := Block(1, "g", -1, "", "a", [issue]), Block(2, "t", 1, "g", "a", [transfer]);
    assert Adding(Adding([SetFirst(1)], g), t) == [SetFirst(1), Add(g, true), Add(t, true)];
    TwoWalked(env, g, t);
    TwoEntries(g, t);
    var d := Run(env, [SetFirst(1), Add(g, true), Add(t, true)]);
    Ledger.SelfTransferBalance(Ledger.ClaimKey, Ledger.Replayed(d, 2), "a", Ledger.REWARD);
  }

  lemma TwoEntries(g: Block, t: Block)
    requires |g.records| == 1 && |t.records| == 1
    ensures Entries([g, t]) == [Entry(g.number, g.creator, g.records[0]), Entry(t.number, t.creator, t.records[0])]
  {
    assert [g, t][..1] == [g] && [g][..0] == [];
    assert Entries([g]) == BlockEntries(g, 1);
    assert BlockEntries(g, 0) == [] && BlockEntries(t, 0) == [];
  }

  lemma TwoWalked(env: Env, g: Block, t: Block)
    requires Lenient(env) && IsFirst(g) && g.number == 1 && Stands(map[g.hash := g], t) && t.number == 2
    ensures Walk(Run(env, Adding(Adding([SetFirst(1)], g), t)), Some(2)) == [g, t]
  {
    SetFirstRun(env, 1);
    TwoBlocks(env, [SetFirst(1)], Some(1), g, t);
    TwoBlocksKeys(env, g, t);
    TwoOnWalk(Run(env, Adding(Adding([SetFirst(1)], g), t)), g, t);
  }

  lemma TwoOnWalk(db: Db, g: Block, t: Block)
    requires Indexed(db) && IsFirst(g) && g.number == 1 && Stands(map[g.hash := g], t) && t.number == 2
    requires Holds(db, map[g.hash := g, t.hash := t], map[1 := g.hash, 2 := t.hash], Some(1), Some(2), Some(t.hash))
    requires db.nextHash == map[g.hash := t.hash]
    ensures Walk(db, Some(2)) == [g, t]
  {
    GetBlockIndexed(db, 1);
    NextByKey(db, g, t);
    assert Visited(Next(db), Some(2), 2, t, 1) == [t];
  }
}

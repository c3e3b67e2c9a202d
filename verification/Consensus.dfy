/** What the stored blocks alone decide: two nodes that hold the same blocks agree, however the blocks reached
    them. */
module Consensus {
  import opened Blocks
  import opened BestChain
  import opened ChainStore
  import opened StoreLaws
  import opened Runs

  // ---------------------------------------------------------------- convergence of rebuilds

  ghost predicate HasGenesis(db: Db) {
    exists b <- Stored(db) :: b.number == FirstId(db) && b.previousId <= 0
  }

  /** The same blocks and first block id; without a stored genesis also the same block at the first number. */
  ghost predicate SameInputs(a: Db, b: Db) {
    && a.blocks == b.blocks && FirstId(a) == FirstId(b)
    && (HasGenesis(a) || GetBlock(a, FirstId(a)) == GetBlock(b, FirstId(b)))
  }

  /** A node's history does not matter to the selection. */
  lemma SameBlocksSameSelection(a: Db, b: Db)
    requires Indexed(a) && Indexed(b) && SameInputs(a, b)
    ensures Selected(a) == Selected(b)
  {
    StoredIsWellStored(a);
    GetBlockIndexed(a, FirstId(a));
    GetBlockIndexed(b, FirstId(b));
    assert Stored(a) == Stored(b);
    if HasGenesis(a) {
      var g :| g in Stored(a) && g.number == FirstId(a) && g.previousId <= 0;
      GenesisFound(Stored(a), FirstId(a), GetBlock(a, FirstId(a)), GetBlock(b, FirstId(b)), g);
    }
  }

  lemma GenesisFound(store: set<Block>, first: int, f: Block, f': Block, g: Block)
    requires g in store && g.number == first && g.previousId <= 0
    ensures GenesisCandidates(store, first, f) == GenesisCandidates(store, first, f')
  {
    var found := set b | b in store && b.number == first && b.previousId <= 0;
    assert g in found;
  }

  /** Two runs, any histories: once both hold the same blocks, slow rebuilds leave the same tip, the same next keys
      and the same answers along the whole chain. */
  lemma RebuildsConverge(env: Env, left: seq<Event>, right: seq<Event>)
    requires SameInputs(Run(env, left), Run(env, right))
    ensures
      var (s, a) := SlowRebuild(env, Run(env, left));
      var (t, b) := SlowRebuild(env, Run(env, right));
      s == t && Agree(a, b, AcceptedPrefix(env, Selected(Run(env, left))))
  {
    SlowRebuildsAgree(env, Run(env, left), Run(env, right));
  }

  /** Both stores answer the chain and have the same next keys and the same tip. */
  ghost predicate Agree(a: Db, b: Db, chain: seq<Block>) {
    chain != [] ==>
      && Answers(a, chain) && Answers(b, chain)
      && a.nextHash == b.nextHash && a.nextId == b.nextId
      && a.latest == b.latest && a.latestHash == b.latestHash && a.connected == b.connected
  }

  lemma SlowRebuildsAgree(env: Env, a: Db, b: Db)
    requires Valid(env, a) && Valid(env, b) && SameInputs(a, b)
    ensures SlowRebuild(env, a).0 == SlowRebuild(env, b).0
    ensures Agree(SlowRebuild(env, a).1, SlowRebuild(env, b).1, AcceptedPrefix(env, Selected(a)))
  {
    SameBlocksSameSelection(a, b);
    SlowRebuildLaw(env, a);
    SlowRebuildLaw(env, b);
    var chain := AcceptedPrefix(env, Selected(a));
    if chain != [] {
      CommitLaw(env, a, chain);
      CommitLaw(env, b, chain);
      SlowRebuildCommits(env, a, chain);
      SlowRebuildCommits(env, b, chain);
    }
  }

  // ---------------------------------------------------------------- arrival order of additions

  /** Every slot's canonical block is the preferred one among its variants. */
  ghost predicate BestVariants(blocks: map<string, Block>, canonical: map<int, string>)
    requires BlocksOk(blocks) && CanonicalOk(blocks, canonical)
  {
    forall h <- blocks ::
      var best := canonical[blocks[h].number];
      best == h || PreferVariant(blocks[best], blocks[h])
  }

  lemma AddKeepsBest(env: Env, db: Db, b: Block, rulesOk: bool)
    requires Valid(env, db) && BestVariants(db.blocks, db.canonical)
    ensures
      var d := AddStep(env, db, b, rulesOk).1;
      Valid(env, d) && BestVariants(d.blocks, d.canonical)
  {
    AddLaw(env, db, b, rulesOk);
    if Enters(env, db, b, rulesOk) {
      InsertSameSlot(db, b);
      StoreBlockKeeps(env, db, b);
      GetBlockIndexed(db, b.number);
      BestAdded(db.blocks, db.canonical, b, Wins(db, b));
    }
  }

  lemma BestAdded(blocks: map<string, Block>, canonical: map<int, string>, b: Block, wins: bool)
    requires BlocksOk(blocks) && CanonicalOk(blocks, canonical) && BestVariants(blocks, canonical)
    requires b.number > 0 && b.hash != "" && b.hash !in blocks
    requires wins <==> b.number !in canonical || PreferVariant(b, blocks[canonical[b.number]])
    ensures
      var c := if wins then canonical[b.number := b.hash] else canonical;
      && BlocksOk(blocks[b.hash := b]) && CanonicalOk(blocks[b.hash := b], c)
      && BestVariants(blocks[b.hash := b], c)
  {
    var c := if wins then canonical[b.number := b.hash] else canonical;
    var more := blocks[b.hash := b];
    forall h <- more
      ensures c[more[h].number] == h || PreferVariant(more[c[more[h].number]], more[h])
    {
      if h != b.hash && more[h].number == b.number {
        var old_ := canonical[b.number];
        if wins && old_ != h { PreferVariantTransitive(b, blocks[old_], blocks[h]); }
      } else if h == b.hash && !wins {
        PreferVariantTotal(b, blocks[canonical[b.number]]);
      }
    }
  }

  /** No rebuild and no adoption. */
  predicate AddsOnly(events: seq<Event>) {
    forall e <- events :: !e.Rebuild? && !e.Adopt?
  }

  lemma StepKeepsBest(env: Env, db: Db, e: Event)
    requires Valid(env, db) && BestVariants(db.blocks, db.canonical) && !e.Rebuild? && !e.Adopt?
    ensures
      var d := Step(env, db, e);
      Valid(env, d) && BestVariants(d.blocks, d.canonical)
  {
    StepKeeps(env, db, e);
    match e
    case Add(b, rulesOk) => AddKeepsBest(env, db, b, rulesOk);
    case SetLatestId(number) => SetLatestKeeps(env, db, number);
    case _ =>
  }

  /** After additions alone the canonical block of a slot is the preferred one of its variants. */
  lemma {:induction false} AddsKeepBest(env: Env, events: seq<Event>)
    requires AddsOnly(events)
    ensures BestVariants(Run(env, events).blocks, Run(env, events).canonical)
  {
    if events != [] {
      var n := |events| - 1;
      AddsKeepBest(env, events[..n]);
      StepKeepsBest(env, Run(env, events[..n]), events[n]);
    }
  }

  /** Spelled out: the canonical block of a slot has the most records among the stored blocks of its number, and of those
      with as many the hash that is smallest at the first difference. */
  lemma SlotWinner(env: Env, events: seq<Event>, b: Block)
    requires AddsOnly(events) && b in Stored(Run(env, events))
    ensures
      var winner := GetBlock(Run(env, events), b.number);
      winner.number == b.number && winner in Stored(Run(env, events)) && (winner == b || Outranks(winner, b))
  {
    AddsKeepBest(env, events);
    BestOutranks(Run(env, events), b);
  }

  lemma BestOutranks(db: Db, b: Block)
    requires Indexed(db) && BestVariants(db.blocks, db.canonical) && b in Stored(db)
    ensures
      var winner := GetBlock(db, b.number);
      winner.number == b.number && winner in Stored(db) && (winner == b || Outranks(winner, b))
  {
    GetBlockIndexed(db, b.number);
    PreferIsRank(GetBlock(db, b.number), b);
    assert b.hash in db.blocks;
  }

  /** Any two orders of arrival that end with the same blocks give the same canonical index. */
  lemma ArrivalOrderIrrelevant(env: Env, left: seq<Event>, right: seq<Event>)
    requires AddsOnly(left) && AddsOnly(right) && Run(env, left).blocks == Run(env, right).blocks
    ensures Run(env, left).canonical == Run(env, right).canonical
  {
    AddsKeepBest(env, left);
    AddsKeepBest(env, right);
    BestUnique(Run(env, left).blocks, Run(env, left).canonical, Run(env, right).canonical);
  }

  lemma BestUnique(blocks: map<string, Block>, c: map<int, string>, d: map<int, string>)
    requires BlocksOk(blocks) && CanonicalOk(blocks, c) && CanonicalOk(blocks, d)
    requires BestVariants(blocks, c) && BestVariants(blocks, d)
    ensures c == d
  {
    assert c.Keys == d.Keys by {
      forall n | n in c ensures n in d { assert blocks[c[n]].number in d; }
      forall n | n in d ensures n in c { assert blocks[d[n]].number in c; }
    }
    forall n | n in c && c[n] != d[n] ensures false {
      PreferVariantTotal(blocks[c[n]], blocks[d[n]]);
    }
  }

  // ---------------------------------------------------------------- adoption after additions

  /** The block is the preferred one among the stored variants of its slot. */
  ghost predicate Leads(store: set<Block>, b: Block) {
    forall c <- store :: c.number == b.number ==> c == b || PreferVariant(b, c)
  }

  lemma AnswersIffLeads(db: Db, b: Block)
    requires Indexed(db) && BestVariants(db.blocks, db.canonical) && b in Stored(db)
    ensures GetBlock(db, b.number) == b <==> Leads(Stored(db), b)
  {
    GetBlockIndexed(db, b.number);
    var best := GetBlock(db, b.number);
    if best == b {
      forall c <- Stored(db) | c.number == b.number ensures c == b || PreferVariant(b, c) {
        assert c.hash in db.blocks;
      }
    } else {
      assert best.hash != b.hash && PreferVariant(best, b);
      PreferVariantTotal(best, b);
      assert best in Stored(db);
    }
  }

  /** After additions alone, a successful adoption leaves the chain answering exactly when it rewrote, or when every
      block of the chain is the preferred variant of its slot. */
  lemma AdoptionAfterAdditions(env: Env, events: seq<Event>, tipHash: string)
    requires AddsOnly(events) && AdoptStep(env, Run(env, events), tipHash).0.Some?
    ensures
      var db := Run(env, events);
      var chain := AdoptableChain(env, db, tipHash).value;
      Answers(AdoptStep(env, db, tipHash).1, chain) <==>
        (!AlreadyTip(db, Last(chain)) || forall b <- chain :: Leads(Stored(db), b))
  {
    AddsKeepBest(env, events);
    AdoptionAnswersLeads(env, Run(env, events), tipHash);
  }

  lemma AdoptionAnswersLeads(env: Env, db: Db, tipHash: string)
    requires Valid(env, db) && BestVariants(db.blocks, db.canonical) && AdoptStep(env, db, tipHash).0.Some?
    ensures
      var chain := AdoptableChain(env, db, tipHash).value;
      Answers(AdoptStep(env, db, tipHash).1, chain) <==>
        (!AlreadyTip(db, Last(chain)) || forall b <- chain :: Leads(Stored(db), b))
  {
    AdoptionLaw(env, db, tipHash);
    var chain := AdoptableChain(env, db, tipHash).value;
    forall i | 0 <= i < |chain| ensures GetBlock(db, chain[i].number) == chain[i] <==> Leads(Stored(db), chain[i]) {
      assert chain[i] in chain;
      AnswersIffLeads(db, chain[i]);
    }
  }
}

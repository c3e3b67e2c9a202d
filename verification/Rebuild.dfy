/** The selection loops of `rebuildBestChainIndex` (src/blockdb.cpp), from the list of stored blocks to the
    chain read off the best-child map. The list comes in any order; the result is the function of the
    SET of blocks that BestChain defines. */
module Rebuild {
  import opened Options
  import opened Text
  import opened Blocks
  import opened BestChain

  /** The blocks of the list that have a hash. */
  ghost function Store(blocks: seq<Block>): set<Block> {
    set b | b in blocks && b.hash != ""
  }

  ghost function Elements(blocks: seq<Block>): set<Block> {
    set b | b in blocks
  }

  ghost function Hashes(blocks: set<Block>): set<string> {
    set b | b in blocks :: b.hash
  }

  /** What `getStoredBlocks` promises: positive numbers, no hash twice. */
  ghost predicate Deduplicated(blocks: seq<Block>) {
    && (forall b <- blocks :: b.number > 0)
    && (forall i, j :: 0 <= i < j < |blocks| ==> blocks[i].hash != blocks[j].hash)
  }

  lemma StoreIsWellStored(blocks: seq<Block>)
    requires Deduplicated(blocks)
    ensures WellStored(Store(blocks))
  {
    forall b <- Store(blocks), c <- Store(blocks) | b.hash == c.hash ensures b == c {
      var i :| 0 <= i < |blocks| && blocks[i] == b;
      var j :| 0 <= j < |blocks| && blocks[j] == c;
      assert i == j;
    }
  }

  // ---------------------------------------------------------------- std::sort by number, highest first

  predicate Precedes(a: Block, b: Block) {
    if a.number != b.number then a.number > b.number else !Less(b.hash, a.hash)
  }

  function Insert(a: Block, s: seq<Block>): (r: seq<Block>)
    ensures multiset(r) == multiset(s) + multiset{a}
  {
    if s == [] then [a]
    else if Precedes(a, s[0]) then [a] + s
    else
      assert s == [s[0]] + s[1..];
      [s[0]] + Insert(a, s[1..])
  }

  function SortDescending(s: seq<Block>): (r: seq<Block>)
    ensures multiset(r) == multiset(s)
  {
    if s == [] then []
    else
      assert s == [s[0]] + s[1..];
      Insert(s[0], SortDescending(s[1..]))
  }

  ghost predicate Descending(s: seq<Block>) {
    forall i, j :: 0 <= i < j < |s| ==> s[i].number >= s[j].number
  }

  lemma {:induction false} InsertKeepsDescending(a: Block, s: seq<Block>)
    requires Descending(s)
    ensures Descending(Insert(a, s))
  {
    if s != [] && !Precedes(a, s[0]) {
      InsertKeepsDescending(a, s[1..]);
      var t := Insert(a, s[1..]);
      forall j | 0 <= j < |t| ensures s[0].number >= t[j].number {
        assert t[j] in multiset(t);
        assert s == [s[0]] + s[1..];
      }
    }
  }

  lemma {:induction false} SortIsDescending(s: seq<Block>)
    ensures Descending(SortDescending(s))
  {
    if s != [] {
      SortIsDescending(s[1..]);
      InsertKeepsDescending(s[0], SortDescending(s[1..]));
    }
  }

  lemma SortKeepsElements(s: seq<Block>)
    ensures forall b :: b in SortDescending(s) <==> b in s
  {
    forall b ensures b in SortDescending(s) <==> b in s {
      assert b in SortDescending(s) <==> b in multiset(SortDescending(s));
      assert b in s <==> b in multiset(s);
    }
  }

  // ---------------------------------------------------------------- indexing the stored blocks

  ghost predicate IndexesChildren(children: map<string, seq<Block>>, store: set<Block>) {
    forall b {:trigger ListsChildren(children, store, b)} :: b in store ==> ListsChildren(children, store, b)
  }

  ghost predicate ListsChildren(children: map<string, seq<Block>>, store: set<Block>, b: Block) {
    if b.hash in children then Elements(children[b.hash]) == Children(store, b) else Children(store, b) == {}
  }

  /** The first two loops: blocks by hash, genesis candidates, children by parent hash. */
  method IndexBlocks(blocks: seq<Block>, firstBlockId: int, fallback: Block)
    returns (byHash: map<string, Block>, children: map<string, seq<Block>>, genesis: seq<Block>)
    requires Deduplicated(blocks)
    requires fallback.number > 0 ==> fallback in Store(blocks)
    ensures byHash.Keys == Hashes(Store(blocks))
    ensures forall h <- byHash :: byHash[h] in Store(blocks) && byHash[h].hash == h
    ensures IndexesChildren(children, Store(blocks))
    ensures forall b :: b in genesis <==> b in GenesisCandidates(Store(blocks), firstBlockId, fallback)
  {
    byHash, genesis := IndexHashes(blocks, firstBlockId);
    children := CollectChildren(blocks, byHash);
    assert genesis != [] ==> genesis[0] in genesis;
    ghost var found := set b | b in Store(blocks) && b.number == firstBlockId && b.previousId <= 0;
    assert forall b :: b in genesis <==> b in found;
    if |genesis| == 0 && fallback.number > 0 {
      genesis := [fallback];
      byHash := byHash[fallback.hash := fallback];
    }
  }

  lemma StoreGrows(blocks: seq<Block>, i: nat)
    requires i < |blocks|
    ensures Store(blocks[..i + 1]) == if blocks[i].hash != "" then Store(blocks[..i]) + {blocks[i]} else Store(blocks[..i])
    ensures blocks[i].hash != "" ==> blocks[i] in Store(blocks)
  {
    assert blocks[..i + 1] == blocks[..i] + [blocks[i]];
  }

  method IndexHashes(blocks: seq<Block>, firstBlockId: int) returns (byHash: map<string, Block>, genesis: seq<Block>)
    ensures byHash.Keys == Hashes(Store(blocks))
    ensures forall h <- byHash :: byHash[h] in Store(blocks) && byHash[h].hash == h
    ensures forall b :: b in genesis <==> b in Store(blocks) && b.number == firstBlockId && b.previousId <= 0
  {
    byHash, genesis := map[], [];
    for i := 0 to |blocks|
      invariant byHash.Keys == Hashes(Store(blocks[..i]))
      invariant forall h <- byHash :: byHash[h] in Store(blocks) && byHash[h].hash == h
      invariant forall b :: b in genesis <==> b in Store(blocks[..i]) && b.number == firstBlockId && b.previousId <= 0
    {
      StoreGrows(blocks, i);
      if blocks[i].hash != "" {
        byHash := byHash[blocks[i].hash := blocks[i]];
        if blocks[i].number == firstBlockId && blocks[i].previousId <= 0 {
          genesis := genesis + [blocks[i]];
        }
      }
    }
    assert blocks[..|blocks|] == blocks;
  }

  /** The children listed for b are those among `seen`. */
  ghost predicate ListsSeen(children: map<string, seq<Block>>, b: Block, seen: seq<Block>) {
    if b.hash in children
    then forall c :: c in children[b.hash] <==> c in seen && c.hash != "" && Connects(c, b)
    else forall c <- seen :: c.hash == "" || !Connects(c, b)
  }

  method CollectChildren(blocks: seq<Block>, byHash: map<string, Block>) returns (children: map<string, seq<Block>>)
    requires Deduplicated(blocks)
    requires byHash.Keys == Hashes(Store(blocks))
    requires forall h <- byHash :: byHash[h] in Store(blocks) && byHash[h].hash == h
    ensures IndexesChildren(children, Store(blocks))
  {
    StoreIsWellStored(blocks);
    children := map[];
    for i := 0 to |blocks|
      invariant forall b <- Store(blocks) :: ListsSeen(children, b, blocks[..i])
    {
      var block := blocks[i];
      ghost var before := children;
      if block.hash != "" && block.previousHash != "" && block.previousHash in byHash
         && Connects(block, byHash[block.previousHash])
      {
        var parent := block.previousHash;
        children := children[parent := (if parent in children then children[parent] else []) + [block]];
      }
      assert blocks[..i + 1] == blocks[..i] + [block];
      forall b <- Store(blocks) ensures ListsSeen(children, b, blocks[..i + 1]) {
        assert ListsSeen(before, b, blocks[..i]) && b.hash in byHash && byHash[b.hash] == b;
        ListsOneMore(before, b, blocks[..i], block);
      }
    }
    assert blocks[..|blocks|] == blocks;
    forall b <- Store(blocks) ensures ListsChildren(children, Store(blocks), b) {
      assert ListsSeen(children, b, blocks);
    }
  }

  lemma ListsOneMore(children: map<string, seq<Block>>, b: Block, seen: seq<Block>, block: Block)
    requires ListsSeen(children, b, seen)
    ensures block.hash != "" && Connects(block, b) ==>
      ListsSeen(children[b.hash := (if b.hash in children then children[b.hash] else []) + [block]], b, seen + [block])
    ensures block.hash == "" || !Connects(block, b) ==> ListsSeen(children, b, seen + [block])
  {
  }

  // ---------------------------------------------------------------- the dynamic program

  /** The three maps agree with the plans of the blocks done so far. */
  ghost predicate Tabulates(plans: map<Block, Plan>, done: set<Block>,
                            lengths: map<string, int>, tips: map<string, int>, childOf: map<string, string>)
    requires done <= plans.Keys
  {
    && (forall b <- done :: b.hash in lengths && lengths[b.hash] == plans[b].length)
    && (forall b <- done :: b.hash in tips && tips[b.hash] == plans[b].tip)
    && (forall b <- done :: LinksPlan(plans[b], b, childOf))
  }

  ghost predicate LinksPlan(plan: Plan, b: Block, childOf: map<string, string>) {
    if b.hash in childOf then plan.child.Some? && plan.child.value.hash == childOf[b.hash]
    else plan.child.None?
  }

  /** The inner loop, also used on the genesis candidates: `preferChainChild` on tabulated blocks picks the
      favourite, whatever their order. */
  method PickFavourite(candidates: seq<Block>, self: string, lengths: map<string, int>, tips: map<string, int>,
                       ghost plans: map<Block, Plan>, ghost done: set<Block>, ghost childOf: map<string, string>)
    returns (favourite: Block)
    requires WellStored(done) && done <= plans.Keys && Tabulates(plans, done, lengths, tips, childOf)
    requires forall c <- candidates :: c in done && c.hash != self
    ensures candidates == [] ==> favourite == NoBlock
    ensures candidates != [] ==>
      Elements(candidates) <= plans.Keys && IsFavourite(favourite, Elements(candidates), plans)
  {
    favourite := NoBlock;
    for i := 0 to |candidates|
      invariant i == 0 ==> favourite == NoBlock
      invariant i > 0 ==> favourite in candidates[..i]
      invariant i > 0 ==> forall c <- candidates[..i] :: c == favourite || Beats(favourite, plans[favourite], c, plans[c])
    {
      var c := candidates[i];
      assert c in done;
      if c.hash == "" || c.hash == self {
        continue;
      }
      ghost var previous := favourite;
      if i > 0 && c != previous { BeatsTotal(c, plans[c], previous, plans[previous]); }
      if PreferChild(c, favourite, lengths, tips) {
        favourite := c;
        if i > 0 {
          forall d <- candidates[..i] ensures d == c || Beats(c, plans[c], d, plans[d]) {
            if d != previous { BeatsTransitive(c, plans[c], previous, plans[previous], d, plans[d]); }
          }
        }
      }
    }
  }

  /** The best child of one block, once every block above it is tabulated. */
  method FavouriteChild(block: Block, children: map<string, seq<Block>>, lengths: map<string, int>, tips: map<string, int>,
                        ghost store: set<Block>, ghost plans: map<Block, Plan>, ghost done: set<Block>,
                        ghost childOf: map<string, string>)
    returns (favourite: Block)
    requires WellStored(store) && IndexesChildren(children, store) && Solves(store, plans)
    requires done <= store && Tabulates(plans, done, lengths, tips, childOf)
    requires block in store && Children(store, block) <= done
    ensures favourite == NoBlock ==> plans[block] == Plan(1, block.number, None)
    ensures favourite != NoBlock ==>
      && favourite in done && plans[block].child == Some(favourite)
      && plans[block].length == plans[favourite].length + 1 && plans[block].tip == plans[favourite].tip
  {
    favourite := NoBlock;
    assert Solved(store, plans, block) && ListsChildren(children, store, block);
    if block.hash in children {
      var kids := SortDescending(children[block.hash]);
      SortKeepsElements(children[block.hash]);
      assert forall c :: c in kids <==> c in Children(store, block) by {
        assert forall c :: c in Elements(children[block.hash]) <==> c in children[block.hash];
      }
      favourite := PickFavourite(kids, block.hash, lengths, tips, plans, done, childOf);
      assert Elements(kids) == Children(store, block);
      assert kids != [] ==> kids[0] in Children(store, block);
      if kids != [] {
        FavouriteUnique(Elements(kids), plans, favourite, plans[block].child.value);
      }
    }
  }

  lemma AllAboveDone(ordered: seq<Block>, store: set<Block>, i: nat)
    requires Descending(ordered) && (forall b :: b in ordered <==> b in store) && i < |ordered|
    ensures Children(store, ordered[i]) <= Elements(ordered[..i])
  {
    forall c | c in Children(store, ordered[i]) ensures c in ordered[..i] {
      var j :| 0 <= j < |ordered| && ordered[j] == c;
      assert j < i;
    }
  }

  method TabulateOne(block: Block, favourite: Block, lengths: map<string, int>, tips: map<string, int>,
                     childOf: map<string, string>, ghost plans: map<Block, Plan>, ghost done: set<Block>)
    returns (lengths': map<string, int>, tips': map<string, int>, childOf': map<string, string>)
    requires WellStored(plans.Keys) && done <= plans.Keys && block in plans.Keys
    requires Tabulates(plans, done, lengths, tips, childOf) && childOf.Keys <= Hashes(done)
    requires favourite == NoBlock ==> plans[block] == Plan(1, block.number, None)
    requires favourite != NoBlock ==>
      && favourite in done && plans[block].child == Some(favourite)
      && plans[block].length == plans[favourite].length + 1 && plans[block].tip == plans[favourite].tip
    ensures Tabulates(plans, done + {block}, lengths', tips', childOf') && childOf'.Keys <= Hashes(done + {block})
  {
    var length, tip := 1, block.number;
    childOf' := childOf;
    if favourite.number > 0 && favourite.hash != "" {
      length := if favourite.hash in lengths then lengths[favourite.hash] + 1 else 2;
      tip := if favourite.hash in tips then tips[favourite.hash] else favourite.number;
      childOf' := childOf[block.hash := favourite.hash];
    }
    lengths' := lengths[block.hash := length];
    tips' := tips[block.hash := tip];
  }

  /** One turn of the loop: every child is tabulated already. */
  method TabulateNext(block: Block, children: map<string, seq<Block>>, lengths: map<string, int>, tips: map<string, int>,
                      childOf: map<string, string>, ghost store: set<Block>, ghost plans: map<Block, Plan>,
                      ghost done: set<Block>)
    returns (lengths': map<string, int>, tips': map<string, int>, childOf': map<string, string>)
    requires WellStored(store) && IndexesChildren(children, store) && Solves(store, plans)
    requires done <= store && Tabulates(plans, done, lengths, tips, childOf) && childOf.Keys <= Hashes(done)
    requires block in store && Children(store, block) <= done
    ensures Tabulates(plans, done + {block}, lengths', tips', childOf') && childOf'.Keys <= Hashes(done + {block})
  {
    var favourite := FavouriteChild(block, children, lengths, tips, store, plans, done, childOf);
    lengths', tips', childOf' := TabulateOne(block, favourite, lengths, tips, childOf, plans, done);
  }

  lemma ElementsGrow(s: seq<Block>, i: nat)
    requires i < |s|
    ensures Elements(s[..i + 1]) == Elements(s[..i]) + {s[i]}
  {
    assert s[..i + 1] == s[..i] + [s[i]];
  }

  /** The loop from the highest number down fills the maps with the one table that solves the store. */
  method Tabulate(ordered: seq<Block>, children: map<string, seq<Block>>, ghost store: set<Block>, ghost plans: map<Block, Plan>)
    returns (lengths: map<string, int>, tips: map<string, int>, childOf: map<string, string>)
    requires WellStored(store) && IndexesChildren(children, store) && Solves(store, plans)
    requires Descending(ordered) && (forall b :: b in ordered <==> b in store)
    ensures Tabulates(plans, store, lengths, tips, childOf)
  {
    lengths, tips, childOf := map[], map[], map[];
    ghost var done: set<Block> := {};
    assert Tabulates(plans, done, lengths, tips, childOf);
    for i := 0 to |ordered|
      invariant done == Elements(ordered[..i])
      invariant done <= store
      invariant childOf.Keys <= Hashes(done) && Tabulates(plans, done, lengths, tips, childOf)
    {
      AllAboveDone(ordered, store, i);
      assert ordered[i] in store;
      lengths, tips, childOf := TabulateNext(ordered[i], children, lengths, tips, childOf, store, plans, done);
      ElementsGrow(ordered, i);
      done := done + {ordered[i]};
    }
    assert done == store by { assert ordered[..|ordered|] == ordered; }
  }

  // ---------------------------------------------------------------- reading the chain off

  /** The two maps lead from each block of the chain to the next and nowhere from its last. */
  ghost predicate Leads(full: seq<Block>, byHash: map<string, Block>, childOf: map<string, string>) {
    && (forall i, j :: 0 <= i < j < |full| ==> full[i].hash != full[j].hash)
    && (forall i :: 0 <= i < |full| ==> full[i].number > 0 && full[i].hash != "")
    && (forall i :: 0 <= i < |full| ==> full[i].hash in byHash && byHash[full[i].hash] == full[i])
    && (forall i :: 0 <= i < |full| - 1 ==> full[i].hash in childOf && childOf[full[i].hash] == full[i + 1].hash)
    && (full != [] ==> full[|full| - 1].hash !in childOf)
  }

  lemma ReadOffLeads(store: set<Block>, plans: map<Block, Plan>, genesis: Block,
                     byHash: map<string, Block>, childOf: map<string, string>)
    requires WellStored(store) && Solves(store, plans) && (forall b <- store :: LinksPlan(plans[b], b, childOf))
    requires byHash.Keys == Hashes(store)
    requires forall h <- byHash :: byHash[h] in store && byHash[h].hash == h
    requires genesis in store
    ensures Leads(ReadOff(store, plans, genesis), byHash, childOf)
    ensures ReadOff(store, plans, genesis) != [] && ReadOff(store, plans, genesis)[0] == genesis
  {
    var full := ReadOff(store, plans, genesis);
    ReadOffIsPath(store, plans, genesis);
    forall i, j | 0 <= i < j < |full| ensures full[i].hash != full[j].hash { PathRises(store, full, i, j); }
    forall i | 0 <= i < |full|
      ensures full[i].hash in childOf <==> i + 1 < |full|
      ensures i + 1 < |full| ==> childOf[full[i].hash] == full[i + 1].hash
      ensures full[i].hash in byHash && byHash[full[i].hash] == full[i]
    {
      ReadOffFollowsPlans(store, plans, genesis, i);
      assert full[i] in store && LinksPlan(plans[full[i]], full[i], childOf);
      assert full[i].hash in Hashes(store);
    }
  }

  /** The walk never meets a visited hash, never misses a block and stops only at the end or the limit. */
  method WalkBestChildren(genesis: Block, byHash: map<string, Block>, childOf: map<string, string>, ghost full: seq<Block>)
    returns (chain: seq<Block>)
    requires Leads(full, byHash, childOf)
    requires genesis == if full == [] then NoBlock else full[0]
    ensures chain == Cut(full)
  {
    chain := [];
    var current := genesis;
    var visited: set<string> := {};
    while current.number > 0 && current.hash != ""
      invariant |chain| < MAX_CHAIN_DEPTH && |chain| <= |full| && (full != [] ==> |chain| < |full|)
      invariant chain == full[..|chain|] && current == (if full == [] then NoBlock else full[|chain|])
      invariant forall h <- visited :: exists i :: 0 <= i < |chain| && full[i].hash == h
      decreases |full| - |chain|
    {
      ghost var k := |chain|;
      assert current.hash !in visited;
      if current.hash in visited {
        break;
      }
      chain := chain + [current];
      visited := visited + {current.hash};
      assert full[k].hash == current.hash;
      if |chain| >= MAX_CHAIN_DEPTH {
        return;
      }
      if current.hash !in childOf {
        return;
      }
      assert k + 1 < |full| && full[k + 1].hash in byHash;
      if childOf[current.hash] !in byHash {
        break;
      }
      current := byHash[childOf[current.hash]];
    }
  }

  /** The whole selection: whatever the order of the list, the chain is the cut of the full best chain
      of the set of stored blocks. */
  method SelectChain(blocks: seq<Block>, firstBlockId: int, fallback: Block) returns (chain: seq<Block>)
    requires Deduplicated(blocks)
    requires fallback.number > 0 ==> fallback in Store(blocks)
    ensures WellStored(Store(blocks))
    ensures GenesisCandidates(Store(blocks), firstBlockId, fallback) <= Store(blocks)
    ensures chain == Cut(FullChain(Store(blocks), GenesisCandidates(Store(blocks), firstBlockId, fallback)))
  {
    StoreIsWellStored(blocks);
    ghost var store := Store(blocks);
    ghost var plans := Plans(store);
    PlansSolve(store);
    var byHash, children, genesis := IndexBlocks(blocks, firstBlockId, fallback);
    ghost var candidates := GenesisCandidates(store, firstBlockId, fallback);
    var hashed := WithHash(blocks);
    var ordered := SortDescending(hashed);
    SortIsDescending(hashed);
    SortKeepsElements(hashed);
    var lengths, tips, childOf := Tabulate(ordered, children, store, plans);
    var first := PickGenesis(genesis, lengths, tips, store, plans, childOf, candidates);
    ghost var full := FullChain(store, candidates);
    if candidates != {} { ReadOffLeads(store, plans, first, byHash, childOf); }
    chain := WalkBestChildren(first, byHash, childOf, full);
  }

  // ---------------------------------------------------------------- std::sort of the genesis candidates, lowest first

  predicate Before(a: Block, b: Block) {
    if a.number != b.number then a.number < b.number else !Less(b.hash, a.hash)
  }

  function InsertBefore(a: Block, s: seq<Block>): seq<Block> {
    if s == [] then [a] else if Before(a, s[0]) then [a] + s else [s[0]] + InsertBefore(a, s[1..])
  }

  function SortByHash(s: seq<Block>): seq<Block> {
    if s == [] then [] else InsertBefore(s[0], SortByHash(s[1..]))
  }

  lemma {:induction false} InsertBeforeKeeps(a: Block, s: seq<Block>)
    ensures forall b :: b in InsertBefore(a, s) <==> b == a || b in s
  {
    if s != [] && !Before(a, s[0]) {
      InsertBeforeKeeps(a, s[1..]);
      assert s == [s[0]] + s[1..];
    }
  }

  lemma {:induction false} SortByHashKeeps(s: seq<Block>)
    ensures forall b :: b in SortByHash(s) <==> b in s
  {
    if s != [] {
      SortByHashKeeps(s[1..]);
      InsertBeforeKeeps(s[0], SortByHash(s[1..]));
      assert s == [s[0]] + s[1..];
    }
  }

  method PickGenesis(genesis: seq<Block>, lengths: map<string, int>, tips: map<string, int>, ghost store: set<Block>,
                     ghost plans: map<Block, Plan>, ghost childOf: map<string, string>, ghost candidates: set<Block>)
    returns (first: Block)
    requires WellStored(store) && plans.Keys == store && Tabulates(plans, store, lengths, tips, childOf)
    requires candidates <= store && forall b :: b in genesis <==> b in candidates
    ensures first == if candidates == {} then NoBlock else Favourite(candidates, plans)
  {
    var sorted := SortByHash(genesis);
    SortByHashKeeps(genesis);
    first := PickFavourite(sorted, "", lengths, tips, plans, store, childOf);
    assert Elements(sorted) == candidates;
    if sorted != [] {
      assert sorted[0] in candidates;
      FavouriteUnique(candidates, plans, first, Favourite(candidates, plans));
    }
  }

  method WithHash(blocks: seq<Block>) returns (hashed: seq<Block>)
    requires Deduplicated(blocks)
    ensures forall b :: b in hashed <==> b in Store(blocks)
  {
    hashed := [];
    for i := 0 to |blocks|
      invariant forall b :: b in hashed <==> b in blocks[..i] && b.hash != ""
    {
      if blocks[i].hash != "" {
        hashed := hashed + [blocks[i]];
      }
    }
  }
}

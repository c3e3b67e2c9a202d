/** `CBlockDB` itself (src/blockdb.cpp): one mutable store, updated key by key in loops. Each operation is proved
    to compute what ChainStore says. */
module BlockDatabase {
  import opened Options
  import opened Blocks
  import opened BestChain
  import opened ChainStore
  import opened Sequences
  import opened Successors
  import Rebuild

  /** The record checks of `AddBlock`: sizes, and no nonempty hash twice. */
  method CheckRecords(env: Env, records: seq<Record>) returns (ok: bool)
    ensures ok == RecordsOk(env, records)
  {
    var seen: set<string> := {};
    for i := 0 to |records|
      invariant RecordsOk(env, records[..i])
      invariant seen == set j | 0 <= j < i && records[j].hash != "" :: records[j].hash
    {
      var r := records[i];
      assert r in records;
      if !env.recordSizeOk(r) {
        return false;
      }
      if r.hash != "" && r.hash in seen {
        ghost var j :| 0 <= j < i && records[j].hash == r.hash;
        return false;
      }
      if r.hash != "" {
        seen := seen + {r.hash};
      }
    }
    assert records[..|records|] == records;
    return true;
  }

  /** The second loop of `scanForkVariantStats`. */
  method SumVariants(ghost slots: set<(int, string)>, perSlot: map<int, int>) returns (count: int, latest: int)
    requires perSlot.Keys == Numbers(slots)
    requires forall n <- perSlot :: perSlot[n] == |InSlots(slots, {n})| >= 1
    ensures count == ForkCount(slots)
    ensures latest == -1 || (latest in perSlot && perSlot[latest] > 1)
    ensures forall n <- perSlot :: perSlot[n] > 1 ==> n <= latest
  {
    count, latest := 0, -1;
    var todo := perSlot.Keys;
    ghost var done: set<int> := {};
    while todo != {}
      invariant todo + done == perSlot.Keys && todo !! done
      invariant count == |InSlots(slots, done)| - |done|
      invariant latest == -1 || (latest in done && perSlot[latest] > 1)
      invariant forall n <- done :: perSlot[n] > 1 ==> n <= latest
      decreases todo
    {
      ghost var w := Witness(todo);
      var n :| n in todo;
      todo := todo - {n};
      SlotsSplit(slots, done, n);
      done := done + {n};
      if perSlot[n] > 1 {
        count := count + (perSlot[n] - 1);
        if n > latest {
          latest := n;
        }
      }
    }
    assert InSlots(slots, done) == slots;
  }

  class BlockDb {
    var db: Db

    constructor ()
      ensures db == Empty
    {
      db := Empty;
    }

    // -------------------------------------------------------------- full scans

    /** `scanForkVariantStats`: the number of variants beyond one per slot, and the highest slot with more than one. */
    method ScanForkVariants() returns (count: int, latest: int)
      ensures count == ForkCount(db.slots)
      ensures (forall s <- db.slots :: s.0 > 0) ==> IsLatestFork(db.slots, latest) && (latest == -1 || latest > 0)
    {
      var perSlot := CountPerSlot();
      count, latest := SumVariants(db.slots, perSlot);
      if forall s <- db.slots :: s.0 > 0 { ForksFromCounts(db.slots, perSlot, latest); }
    }

    /** `variantsByBlock`: how many slot keys each number has. */
    method CountPerSlot() returns (perSlot: map<int, int>)
      ensures perSlot.Keys == Numbers(db.slots)
      ensures forall n <- perSlot :: perSlot[n] == |InSlots(db.slots, {n})| >= 1
    {
      perSlot := map[];
      var todo := db.slots;
      ghost var done: set<(int, string)> := {};
      while todo != {}
        invariant todo + done == db.slots && todo !! done
        invariant perSlot.Keys == Numbers(done)
        invariant forall n <- perSlot :: perSlot[n] == |InSlots(done, {n})| >= 1
        decreases todo
      {
        var s :| s in todo;
        todo := todo - {s};
        OneMore(done, s);
        done := done + {s};
        perSlot := perSlot[s.0 := (if s.0 in perSlot then perSlot[s.0] else 0) + 1];
      }
    }

    method HasForkVariantAtOrAfter(minimum: int) returns (found: bool)
      ensures found <==> minimum > 0 && ForkedFrom(db.slots, minimum)
    {
      if minimum <= 0 {
        return false;
      }
      var seen: map<int, int> := map[];
      var todo := db.slots;
      ghost var done: set<(int, string)> := {};
      while todo != {}
        invariant todo + done == db.slots && todo !! done
        invariant forall n :: n in seen <==> n in Numbers(done) && n >= minimum
        invariant forall n <- seen :: seen[n] == 1
        invariant forall s <- done, t <- done :: s.0 >= minimum && s.0 == t.0 ==> s == t
        decreases todo
      {
        var s :| s in todo;
        todo := todo - {s};
        if s.0 >= minimum {
          seen := seen[s.0 := (if s.0 in seen then seen[s.0] else 0) + 1];
          if seen[s.0] > 1 {
            assert s.0 in Numbers(done);
            ghost var t :| t in done && t.0 == s.0;
            assert t in db.slots && s in db.slots && t != s;
            assert Forked(db.slots, s.0);
            return true;
          }
        }
        assert Numbers(done + {s}) == Numbers(done) + {s.0} by { OneMore(done, s); }
        done := done + {s};
      }
      assert done == db.slots;
      return false;
    }

    method ScanHighestStored() returns (highest: int)
      requires Indexed(db)
      ensures IsHighest(db.blocks, highest) && (highest == -1 || highest > 0)
    {
      var blocks := GetStoredBlocks();
      highest := -1;
      for i := 0 to |blocks|
        invariant highest == -1 || (highest > 0 && exists j :: 0 <= j < i && blocks[j].number == highest)
        invariant forall j :: 0 <= j < i ==> blocks[j].number <= highest
      {
        if blocks[i].number > 0 && blocks[i].hash != "" {
          highest := if highest > blocks[i].number then highest else blocks[i].number;
        }
        assert blocks[i] in Rebuild.Elements(blocks);
      }
      forall h <- db.blocks ensures 0 < db.blocks[h].number <= highest {
        assert db.blocks[h] in Stored(db);
        assert db.blocks[h] in Rebuild.Elements(blocks);
      }
      if highest > 0 {
        var j :| 0 <= j < |blocks| && blocks[j].number == highest;
        assert blocks[j] in Rebuild.Elements(blocks);
      }
    }

    /** `highestStoredBlock`: the cache, or a scan that fills it. */
    method HighestStored() returns (highest: int)
      requires Indexed(db)
      modifies this
      ensures old(db).highest.Some? ==> highest == old(db).highest.value && db == old(db)
      ensures old(db).highest.None? ==>
        && IsHighest(db.blocks, highest)
        && db == if highest > 0 then old(db).(highest := Some(highest)) else old(db)
    {
      if db.highest.Some? {
        return db.highest.value;
      }
      highest := ScanHighestStored();
      if highest > 0 {
        db := db.(highest := Some(highest));
      }
    }

    /** Every stored block once, in the order the keys come: legacy copies first, then blocks by hash. */
    method GetStoredBlocks() returns (blocks: seq<Block>)
      requires Indexed(db)
      ensures Rebuild.Deduplicated(blocks)
      ensures Rebuild.Elements(blocks) == Stored(db)
    {
      blocks := [];
      var seen: set<string> := {};
      var numbers := db.legacy.Keys;
      while numbers != {}
        invariant numbers <= db.legacy.Keys
        invariant Gathered(blocks, seen)
        decreases numbers
      {
        ghost var w := Witness(numbers);
        var n :| n in numbers;
        numbers := numbers - {n};
        blocks, seen := Gather(blocks, seen, db.legacy[n]);
      }
      var hashes := db.blocks.Keys;
      while hashes != {}
        invariant hashes <= db.blocks.Keys
        invariant Gathered(blocks, seen)
        invariant forall h <- db.blocks :: h !in hashes ==> h in seen
        decreases hashes
      {
        var h :| h in hashes;
        hashes := hashes - {h};
        blocks, seen := Gather(blocks, seen, db.blocks[h]);
      }
      forall b <- Stored(db) ensures b in blocks {
        assert b.hash in seen;
        var i :| 0 <= i < |blocks| && blocks[i].hash == b.hash;
        assert blocks[i] in blocks;
      }
    }

    ghost predicate Gathered(blocks: seq<Block>, seen: set<string>)
      reads this
    {
      && Rebuild.Deduplicated(blocks)
      && (forall b <- blocks :: b in Stored(db))
      && (forall h :: h in seen <==> exists i :: 0 <= i < |blocks| && blocks[i].hash == h)
    }

    method Gather(blocks: seq<Block>, seen: set<string>, b: Block) returns (blocks': seq<Block>, seen': set<string>)
      requires Gathered(blocks, seen) && b in Stored(db) && b.number > 0
      ensures Gathered(blocks', seen') && seen' == seen + {b.hash}
    {
      blocks', seen' := blocks, seen;
      if b.number > 0 && b.hash !in seen {
        seen' := seen + {b.hash};
        blocks' := blocks + [b];
        assert blocks'[|blocks|].hash == b.hash;
        forall h | h in seen' ensures exists i :: 0 <= i < |blocks'| && blocks'[i].hash == h {
          if h in seen {
            var i :| 0 <= i < |blocks| && blocks[i].hash == h;
            assert blocks'[i].hash == h;
          }
        }
      }
    }

    // -------------------------------------------------------------- checkpoint and tip

    method AdvanceCheckpoint(env: Env, tip: Block)
      modifies this
      ensures db == Advance(env, old(db), tip)
    {
      if !EnvelopeValid(env, tip) {
        return;
      }
      var current := ReadCheckpoint(db);
      if current.Some? && tip.number - current.value.0 < CHECKPOINT_DEPTH * 2 {
        return;
      }
      var found, walked := tip, 0;
      while walked < CHECKPOINT_DEPTH && found.previousHash != ""
        invariant 0 <= walked <= CHECKPOINT_DEPTH
        invariant Descend(env, db, found, CHECKPOINT_DEPTH - walked) == Descend(env, db, tip, CHECKPOINT_DEPTH)
      {
        var parent := RawBlock(db, found.previousHash);
        if !Connects(found, parent) || !EnvelopeValid(env, parent) {
          break;
        }
        found := parent;
        walked := walked + 1;
      }
      if found.number <= 0 || found.hash == "" {
        return;
      }
      if current.Some? && found.number <= current.value.0 {
        return;
      }
      db := db.(checkpoint := Some(found.number));
      db := db.(checkpointHash := Some(found.hash));
    }

    method SetLatestBlockId(number: int)
      modifies this
      ensures db == SetLatest(old(db), number)
    {
      db := db.(latest := Some(number));
      var block := GetBlock(db, number);
      if block.hash != "" {
        db := db.(latestHash := Some(block.hash));
      }
    }

    method FinishAt(env: Env, tip: Block)
      modifies this
      ensures db == Finish(env, old(db), tip)
    {
      SetLatestBlockId(tip.number);
      db := db.(connected := Some(tip.number));
      AdvanceCheckpoint(env, tip);
    }

    /** The loop that both rewrites end with. */
    method WriteChain(chain: seq<Block>, start: nat)
      requires start <= |chain|
      modifies this
      ensures db == Write(old(db), chain, start, |chain|)
    {
      for i := start to |chain|
        invariant db == Write(old(db), chain, start, i)
      {
        var b := chain[i];
        db := db.(canonical := db.canonical[b.number := b.hash]);
        db := db.(blocks := db.blocks[b.hash := b]);
        db := db.(legacy := db.legacy[b.number := b]);
        if i + 1 < |chain| {
          db := db.(nextId := db.nextId[b.number := chain[i + 1].number]);
          db := db.(nextHash := db.nextHash[b.hash := chain[i + 1].hash]);
        }
      }
    }

    // -------------------------------------------------------------- rebuild

    method ClimbNextKeys(env: Env, start: Block, latest: int) returns (tip: Option<Block>)
      ensures tip == Climb(env, db, start, latest, 0)
    {
      var current, steps := start, 0;
      while current.number < latest && steps < FAST_LIMIT
        invariant 0 <= steps <= FAST_LIMIT
        invariant Climb(env, db, current, latest, steps) == Climb(env, db, start, latest, 0)
        decreases FAST_LIMIT - steps
      {
        if current.hash !in db.nextHash || db.nextHash[current.hash] == "" {
          return None;
        }
        var next := RawBlock(db, db.nextHash[current.hash]);
        if !Connects(next, current) || !EnvelopeValid(env, next) {
          return None;
        }
        current := next;
        steps := steps + 1;
      }
      if current.number != latest || steps >= FAST_LIMIT {
        return None;
      }
      return Some(current);
    }

    method TryFastPath(env: Env) returns (tip: Option<int>)
      requires Valid(env, db)
      modifies this
      ensures
        match FastTip(env, old(db), GetOr(old(db).highest, -1))
        case None => tip == None && db == old(db)
        case Some(t) => tip == Some(t.number) && db == Advance(env, old(db).(connected := Some(t.number)), t)
    {
      var latest := LatestId(db);
      if latest <= 0 {
        return None;
      }
      var cp := ReadCheckpoint(db);
      if cp.None? || latest < cp.value.0 {
        return None;
      }
      var highest := HighestStored();
      HighestCached(old(db), highest);
      if highest > latest {
        return None;
      }
      if !CheckpointMatches(env, db, cp.value.0, cp.value.1) {
        return None;
      }
      if GetOr(db.forkCount, 0) > 0 && (db.latestFork.None? || db.latestFork.value >= cp.value.0) {
        var forked := HasForkVariantAtOrAfter(cp.value.0);
        if forked {
          return None;
        }
      }
      var end := ClimbNextKeys(env, RawBlock(db, cp.value.1), latest);
      if end.None? {
        return None;
      }
      var canonicalTip := GetBlock(db, latest);
      if canonicalTip.number != latest || canonicalTip.hash != end.value.hash {
        return None;
      }
      db := db.(connected := Some(end.value.number));
      AdvanceCheckpoint(env, end.value);
      return Some(end.value.number);
    }

    method TrimToAccepted(env: Env, selected: seq<Block>) returns (chain: seq<Block>)
      ensures chain == AcceptedPrefix(env, selected)
    {
      chain := selected;
      while |chain| > 0
        invariant AcceptedPrefix(env, chain) == AcceptedPrefix(env, selected)
      {
        if env.chainOk(chain) {
          return;
        }
        chain := chain[..|chain| - 1];
      }
    }

    method RebuildBestChainIndex(env: Env) returns (tip: int)
      requires Valid(env, db)
      modifies this
      ensures (tip, db) == RebuildStep(env, old(db))
    {
      var first := FirstId(db);
      if first < 0 {
        return -1;
      }
      var fast := TryFastPath(env);
      if fast.Some? {
        return fast.value;
      }
      tip := RebuildSlowly(env);
    }

    /** The slow path: select, trim, rewrite. */
    method RebuildSlowly(env: Env) returns (tip: int)
      requires Indexed(db)
      modifies this
      ensures (tip, db) == SlowRebuild(env, old(db))
    {
      var blocks := GetStoredBlocks();
      if |blocks| == 0 {
        NothingStored(db, blocks);
        return -1;
      }
      var selected := SelectStored(blocks);
      var chain := TrimToAccepted(env, selected);
      if |chain| == 0 {
        return -1;
      }
      assert db.blocks != map[] by { assert blocks[0] in Rebuild.Elements(blocks); }
      db := db.(nextId := map[], nextHash := map[]);
      WriteChain(chain, 0);
      FinishAt(env, chain[|chain| - 1]);
      return chain[|chain| - 1].number;
    }

    method SelectStored(blocks: seq<Block>) returns (selected: seq<Block>)
      requires Indexed(db) && Rebuild.Deduplicated(blocks) && Rebuild.Elements(blocks) == Stored(db)
      ensures selected == Selected(db)
    {
      var first := FirstId(db);
      StoredIsWellStored(db);
      GetBlockIndexed(db, first);
      ElementsAreStored(db, blocks);
      selected := Rebuild.SelectChain(blocks, first, GetBlock(db, first));
    }

    // -------------------------------------------------------------- adoption

    /** The walk from the tip down; the visited set never stops it, because numbers strictly fall. */
    method WalkToGenesis(env: Env, tip: Block) returns (chain: Option<seq<Block>>)
      requires tip.number > 0 && tip.hash != "" && BlockByHash(db, tip.hash) == tip
      ensures chain == WalkBack(env, db, FirstId(db), tip)
      ensures chain.Some? ==> chain.value != []
    {
      var first := FirstId(db);
      var current := tip;
      var reversed: seq<Block> := [];
      var visited: set<string> := {};
      ghost var goal := WalkBack(env, db, first, tip);
      assert goal.Some? ==> goal.value + Reversed(reversed) == goal.value;
      while current.number > 0 && current.hash != ""
        invariant current.number > 0 && current.hash != "" && BlockByHash(db, current.hash) == current
        invariant forall h <- visited :: RawBlock(db, h).number > current.number
        invariant goal == match WalkBack(env, db, first, current)
                          case None => None
                          case Some(below) => Some(below + Reversed(reversed))
        decreases current.number
      {
        if current.hash in visited {
          return None;
        }
        if !EnvelopeValid(env, current) {
          return None;
        }
        ghost var before := reversed;
        reversed := reversed + [current];
        visited := visited + {current.hash};
        ReversedSnoc(before, current);
        if current.previousId <= 0 {
          if current.number != first || !env.genesisMatches(current.number, current.hash) {
            return None;
          }
          assert goal == Some([current] + Reversed(before));
          return Some(Reversed(reversed));
        }
        if current.previousHash == "" || current.previousId >= current.number {
          return None;
        }
        var parent := BlockByHash(db, current.previousHash);
        if !Connects(current, parent) {
          return None;
        }
        ghost var below := WalkBack(env, db, first, parent);
        if below.Some? {
          assert below.value + [current] + Reversed(before) == below.value + Reversed(reversed);
        }
        current := parent;
      }
    }

    method FirstDivergence(chain: seq<Block>) returns (k: nat)
      ensures k == RewriteFrom(db, chain)
    {
      k := 0;
      while k < |chain|
        invariant k <= |chain|
        invariant k + Agreement(db, chain[k..]) == Agreement(db, chain)
      {
        if !Agrees(db, chain[k]) {
          break;
        }
        assert chain[k..][1..] == chain[k + 1..];
        k := k + 1;
      }
      if k > 0 {
        k := k - 1;
      }
    }

    method AdoptStoredChainEndingAtHash(env: Env, tipHash: string) returns (adopted: Option<int>)
      modifies this
      ensures (adopted, db) == AdoptStep(env, old(db), tipHash)
    {
      if tipHash == "" || FirstId(db) <= 0 {
        return None;
      }
      var previous := PreviousTip(db);
      var tip := BlockByHash(db, tipHash);
      if tip.number <= 0 || tip.hash != tipHash {
        return None;
      }
      var walked := WalkToGenesis(env, tip);
      if walked.None? {
        return None;
      }
      var chain := walked.value;
      var newTip := chain[|chain| - 1];
      if previous.number > 0 && previous.hash != "" && previous.number >= newTip.number && previous.hash == newTip.hash {
        return Some(previous.number);
      }
      var k := FirstDivergence(chain);
      WriteChain(chain, k);
      FinishAt(env, newTip);
      return Some(newTip.number);
    }

    // -------------------------------------------------------------- the next block

    /** `getNextBlockByHash`: the two keys, then the scan, which starts from whatever the keys left. */
    method GetNextBlockByHash(b: Block) returns (next: Block)
      requires Indexed(db)
      ensures next == NextByHash(db, b)
    {
      next := NoBlock;
      if b.number <= 0 || b.hash == "" {
        return;
      }
      if b.hash in db.nextHash && db.nextHash[b.hash] != "" {
        next := BlockByHash(db, db.nextHash[b.hash]);
        if Connects(next, b) {
          return;
        }
      }
      var legacyNextId := if b.number in db.nextId then db.nextId[b.number] else -1;
      if legacyNextId > 0 {
        next := GetBlock(db, legacyNextId);
        if next.number > 0 && Connects(next, b) {
          return;
        }
      }
      next := ScanForChild(b, next);
    }

    method ScanForChild(b: Block, left: Block) returns (next: Block)
      requires Indexed(db)
      ensures next == Scan(db, b, left)
    {
      var blocks := GetStoredBlocks();
      next := left;
      for i := 0 to |blocks|
        invariant next == Fold(b, left, blocks[..i])
      {
        assert blocks[..i + 1][..i] == blocks[..i];
        var candidate := blocks[i];
        if Connects(candidate, b) && PreferVariant(candidate, next) {
          next := candidate;
        }
      }
      assert blocks[..|blocks|] == blocks;
      FoldIsScan(db, b, left, blocks);
    }

    /** `getNextBlockId`. */
    method GetNextBlockId(number: int) returns (id: int)
      ensures id == NextIdOf(db, number)
    {
      id := if number in db.nextId then db.nextId[number] else -1;
      if id <= 0 {
        var previous := GetBlock(db, number);
        if previous.hash != "" {
          if previous.hash in db.nextHash && db.nextHash[previous.hash] != "" {
            var next := BlockByHash(db, db.nextHash[previous.hash]);
            if Connects(next, previous) {
              id := next.number;
            }
          }
        }
      }
    }

    /** `getNextBlock`. */
    method GetNextBlock(b: Block) returns (next: Block)
      requires Indexed(db)
      ensures next == NextBlock(db, b)
    {
      next := GetNextBlockByHash(b);
      if next.number > 0 {
        return;
      }
      var id := GetNextBlockId(b.number);
      next := GetBlock(db, id);
      if next.number > 0 && Connects(next, b) {
        return;
      }
      next := next.(number := -1);
    }

    // -------------------------------------------------------------- adding a block

    method AddBlock(env: Env, b: Block, rulesOk: bool) returns (ok: bool)
      modifies this
      ensures (ok, db) == AddStep(env, old(db), b, rulesOk)
    {
      if b.previousId >= b.number && b.previousId != -1 {
        return false;
      }
      if b.previousId <= 0 && !env.genesisMatches(b.number, b.hash) {
        return false;
      }
      if |b.records| > env.maxRecords {
        return false;
      }
      var recordsOk := CheckRecords(env, b.records);
      if !recordsOk {
        return false;
      }
      if !env.jsonFits(b) {
        return false;
      }
      if b.hash in db.blocks {
        return true;
      }
      var valid := ValidateBlockForStorage(env, b, rulesOk);
      if !valid {
        return false;
      }
      var wins := EnterBlock(b);
      if !wins {
        return true;
      }
      LinkToParent(b);
      MoveTipTo(env, b);
      return true;
    }

    /** `CChainValidator::validateBlockForStorage`: the block's envelope, then its genesis or its parent, then what
        `rulesOk` stands for. */
    method ValidateBlockForStorage(env: Env, b: Block, rulesOk: bool) returns (ok: bool)
      ensures ok <==> StorageValid(env, db, b) && rulesOk
    {
      if !EnvelopeValid(env, b) {
        return false;
      }
      if b.previousId <= 0 {
        if !env.genesisMatches(b.number, b.hash) {
          return false;
        }
      } else {
        if b.previousHash == "" {
          return false;
        }
        var parent := BlockByHash(db, b.previousHash);
        if parent.number <= 0 {
          return false;
        }
        if parent.number != b.previousId {
          return false;
        }
        if b.previousId >= b.number {
          return false;
        }
      }
      return rulesOk;
    }

    /** The writes up to the caches; false for a variant that loses its slot. */
    method EnterBlock(b: Block) returns (wins: bool)
      modifies this
      ensures db == Enter(old(db), b)
      ensures var current := GetBlock(WithBlock(old(db), b), b.number);
              wins <==> current.number <= 0 || PreferVariant(b, current)
    {
      db := db.(blocks := db.blocks[b.hash := b]);
      db := db.(slots := db.slots + {(b.number, b.hash)});
      if b.number > 0 && (db.highest.None? || b.number > db.highest.value) {
        db := db.(highest := Some(b.number));
      }
      var current := GetBlock(db, b.number);
      assert current == GetBlock(WithBlock(old(db), b), b.number);
      wins := current.number <= 0 || PreferVariant(b, current);
      if wins {
        db := db.(canonical := db.canonical[b.number := b.hash]);
        db := db.(legacy := db.legacy[b.number := b]);
      }
      if current.number > 0 {
        CountVariant(b.number);
      }
    }

    /** One more variant in a taken slot. */
    method CountVariant(number: int)
      modifies this
      ensures db == old(db).(
        forkCount := Some(if old(db).forkCount.Some? then old(db).forkCount.value + 1 else ForkCount(old(db).slots)),
        latestFork := if number > GetOr(old(db).latestFork, -1) then Some(number) else old(db).latestFork)
    {
      var forkCount := 0;
      if db.forkCount.Some? {
        forkCount := db.forkCount.value + 1;
      } else {
        var latest;
        forkCount, latest := ScanForkVariants();
      }
      db := db.(forkCount := Some(forkCount));
      if number > GetOr(db.latestFork, -1) {
        db := db.(latestFork := Some(number));
      }
    }

    method LinkToParent(b: Block)
      modifies this
      ensures db == LinkNext(old(db), b)
    {
      if b.previousId > -1 {
        var write := b.previousId !in db.nextId || db.nextId[b.previousId] == b.number;
        if !write {
          var existing := GetBlock(db, db.nextId[b.previousId]);
          write := existing.number <= 0;
        }
        if write {
          db := db.(nextId := db.nextId[b.previousId := b.number]);
        }
        var p := b.previousHash;
        if p != "" {
          var writeHash := p !in db.nextHash || db.nextHash[p] == "" || db.nextHash[p] == b.hash;
          if !writeHash {
            writeHash := !Connects(BlockByHash(db, db.nextHash[p]), BlockByHash(db, p));
          }
          if writeHash {
            db := db.(nextHash := db.nextHash[p := b.hash]);
          }
        }
      }
    }

    method MoveTipTo(env: Env, b: Block)
      modifies this
      ensures db == MoveTip(env, old(db), b)
    {
      var latest := LatestId(db);
      if b.previousId <= 0 && latest < 0 {
        SetLatestBlockId(b.number);
      } else if b.previousId == latest {
        var tip := GetBlock(db, latest);
        if tip.number == latest && tip.hash != "" && tip.hash == b.previousHash {
          SetLatestBlockId(b.number);
          AdvanceCheckpoint(env, b);
        }
      }
    }

    /** `getForkVariantCount`. */
    method GetForkVariantCount(ghost env: Env) returns (count: int)
      requires Valid(env, db)
      modifies this
      ensures db == CountForksStep(old(db)) && count == ForkCount(db.slots)
    {
      var latest;
      count, latest := ScanForkVariants();
      ForkCacheExact(env, db, latest);
      db := db.(forkCount := Some(count));
      if latest > 0 {
        db := db.(latestFork := Some(latest));
      }
    }

    method SetFirstBlockId(number: int)
      modifies this
      ensures db == old(db).(first := Some(number))
    {
      db := db.(first := Some(number));
    }
  }

  // ---------------------------------------------------------------- lemmas for the loops

  ghost function InSlots(slots: set<(int, string)>, numbers: set<int>): set<(int, string)> {
    set s | s in slots && s.0 in numbers
  }

  lemma SlotsSplit(slots: set<(int, string)>, done: set<int>, n: int)
    requires n !in done
    ensures |InSlots(slots, done + {n})| == |InSlots(slots, done)| + |InSlots(slots, {n})|
  {
    assert InSlots(slots, done + {n}) == InSlots(slots, done) + InSlots(slots, {n});
  }

  lemma OneMore(done: set<(int, string)>, s: (int, string))
    requires s !in done
    ensures Numbers(done + {s}) == Numbers(done) + {s.0}
    ensures forall n :: |InSlots(done + {s}, {n})| == |InSlots(done, {n})| + if n == s.0 then 1 else 0
    ensures s.0 !in Numbers(done) ==> |InSlots(done, {s.0})| == 0
  {
    var more := done + {s};
    forall n | n in Numbers(done) + {s.0} ensures n in Numbers(more) {
      if n == s.0 { assert s in more; } else { var t :| t in done && t.0 == n; assert t in more; }
    }
    forall n ensures |InSlots(more, {n})| == |InSlots(done, {n})| + if n == s.0 then 1 else 0 {
      if n == s.0 {
        assert InSlots(more, {n}) == InSlots(done, {n}) + {s};
      } else {
        assert InSlots(more, {n}) == InSlots(done, {n});
      }
    }
    if s.0 !in Numbers(done) { assert InSlots(done, {s.0}) == {}; }
  }

  lemma ForkedBySize(slots: set<(int, string)>, n: int)
    ensures Forked(slots, n) <==> |InSlots(slots, {n})| > 1
  {
    var these := InSlots(slots, {n});
    if Forked(slots, n) {
      var s, t :| s in slots && t in slots && s.0 == n && t.0 == n && s != t;
      SubsetSize({s, t}, these);
    }
    if |these| > 1 {
      var s :| s in these;
      assert |these - {s}| == |these| - 1;
      var t :| t in these - {s};
      assert s in slots && t in slots;
    }
  }

  lemma ForksFromCounts(slots: set<(int, string)>, perSlot: map<int, int>, latest: int)
    requires perSlot.Keys == Numbers(slots)
    requires forall n <- perSlot :: perSlot[n] == |InSlots(slots, {n})| >= 1
    requires latest == -1 || (latest in perSlot && perSlot[latest] > 1)
    requires forall n <- perSlot :: perSlot[n] > 1 ==> n <= latest
    requires forall s <- slots :: s.0 > 0
    ensures IsLatestFork(slots, latest) && (latest == -1 || latest > 0)
  {
    forall n ensures Forked(slots, n) <==> n in perSlot && perSlot[n] > 1 {
      ForkedBySize(slots, n);
      if n !in perSlot { assert InSlots(slots, {n}) == {}; }
    }
  }

  lemma LatestForkUnique(slots: set<(int, string)>, a: int, b: int)
    requires IsLatestFork(slots, a) && IsLatestFork(slots, b)
    requires (a == -1 || a > 0) && (b == -1 || b > 0)
    ensures a == b
  {
  }

  lemma FoldIsScan(db: Db, b: Block, left: Block, blocks: seq<Block>)
    requires Indexed(db) && Rebuild.Elements(blocks) == Stored(db)
    ensures Fold(b, left, blocks) == Scan(db, b, left)
  {
    StoredIsWellStored(db);
    assert forall c :: c in blocks <==> c in Rebuild.Elements(blocks);
    FoldPrefers(b, left, blocks);
    var rivals := Rivals(db, b, left);
    assert rivals == RivalsIn(blocks, b, left);
    if rivals != {} { PreferredUnique(rivals, Fold(b, left, blocks), Preferred(rivals)); }
  }

  /** In a valid store a scan finds the latest fork slot that is cached. */
  lemma ForkCacheExact(env: Env, db: Db, latest: int)
    requires Valid(env, db)
    requires (forall s <- db.slots :: s.0 > 0) ==> IsLatestFork(db.slots, latest) && (latest == -1 || latest > 0)
    ensures if latest > 0 then db.latestFork == Some(latest) else db.latestFork.None?
  {
    LatestForkUnique(db.slots, latest, GetOr(db.latestFork, -1));
  }

  /** A valid store without the cache is empty, so a scan has nothing to write. */
  lemma HighestCached(db: Db, highest: int)
    requires CachesExact(db)
    requires if db.highest.Some? then highest == db.highest.value else IsHighest(db.blocks, highest)
    ensures highest > 0 ==> highest == GetOr(db.highest, -1)
    ensures highest <= 0 ==> db.highest.None?
  {
  }

  lemma NothingStored(db: Db, blocks: seq<Block>)
    requires |blocks| == 0 && Rebuild.Elements(blocks) == Stored(db)
    ensures db.blocks == map[]
  {
    assert forall h :: h in db.blocks ==> db.blocks[h] in Stored(db);
  }

  lemma ElementsAreStored(db: Db, blocks: seq<Block>)
    requires Indexed(db) && Rebuild.Elements(blocks) == Stored(db)
    ensures Rebuild.Store(blocks) == Stored(db)
  {
    assert forall b :: b in blocks <==> b in Rebuild.Elements(blocks);
  }
}

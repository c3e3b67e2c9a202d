/** The key-value store behind `CBlockDB` (src/blockdb.cpp) as a value, and what each operation makes of it.
    Every field stands for one family of keys. */
module ChainStore {
  import opened Options
  import opened Blocks
  import opened BestChain

  datatype Db = Db(
    blocks: map<string, Block>,        // block:<hash>
    slots: set<(int, string)>,         // slot:<number>:<hash>
    canonical: map<int, string>,       // canonical:<number>
    legacy: map<int, Block>,           // b_<number>
    nextId: map<int, int>,             // next_block_<number>
    nextHash: map<string, string>,     // next:<hash>
    first: Option<int>,                // chain:first_block
    latest: Option<int>,               // chain:latest_block
    latestHash: Option<string>,        // chain:latest_hash
    connected: Option<int>,            // chain:connected_latest
    forkCount: Option<int>,            // fork_variant_count
    latestFork: Option<int>,           // fork_variant_latest_block
    highest: Option<int>,              // chain:stored_highest_block
    checkpoint: Option<int>,           // chain:validated_checkpoint_block
    checkpointHash: Option<string>)    // chain:validated_checkpoint_hash

  const Empty := Db(map[], {}, map[], map[], map[], map[], None, None, None, None, None, None, None, None, None)

  /** The code this model does not look into: seals (hash, merkle root and signature), the configured genesis,
      the chain validator and the size limits. */
  datatype Env = Env(
    sealOk: Block -> bool,
    genesisMatches: (int, string) -> bool,
    chainOk: seq<Block> -> bool,
    recordSizeOk: Record -> bool,
    jsonFits: Block -> bool,
    maxRecords: nat)

  const CHECKPOINT_DEPTH := 2000
  const FAST_LIMIT := 20000

  predicate EnvelopeValid(env: Env, b: Block) {
    && b.number > 0 && b.hash != "" && b.creator != ""
    && |b.records| <= env.maxRecords
    && env.sealOk(b)
  }

  // ---------------------------------------------------------------- reading

  function GetOr<T>(o: Option<T>, default: T): T {
    match o case None => default case Some(v) => v
  }

  function RawBlock(db: Db, hash: string): Block {
    if hash in db.blocks then db.blocks[hash] else NoBlock
  }

  function BlockByHash(db: Db, hash: string): Block {
    if hash == "" then NoBlock else RawBlock(db, hash)
  }

  /** `getBlock`: through the canonical hash, else the legacy copy. */
  function GetBlock(db: Db, number: int): Block {
    var canonical := if number in db.canonical then db.canonical[number] else "";
    var block := BlockByHash(db, canonical);
    if block.number > 0 then block
    else if number in db.legacy then db.legacy[number]
    else block
  }

  function CanonicalHash(db: Db, number: int): string {
    if number in db.canonical && db.canonical[number] != "" then db.canonical[number]
    else if number in db.legacy then db.legacy[number].hash
    else ""
  }

  function FirstId(db: Db): int { GetOr(db.first, -1) }

  function LatestId(db: Db): int { GetOr(db.latest, -1) }

  function PreviousTip(db: Db): Block {
    if LatestId(db) > 0 then GetBlock(db, LatestId(db)) else NoBlock
  }

  ghost function Stored(db: Db): set<Block> {
    set h | h in db.blocks :: db.blocks[h]
  }

  // ---------------------------------------------------------------- full scans

  ghost function Numbers(slots: set<(int, string)>): set<int> {
    set s | s in slots :: s.0
  }

  /** The number of stored variants beyond the first of each slot. */
  ghost function ForkCount(slots: set<(int, string)>): int {
    |slots| - |Numbers(slots)|
  }

  ghost predicate Forked(slots: set<(int, string)>, number: int) {
    exists s <- slots, t <- slots :: s.0 == number && t.0 == number && s != t
  }

  ghost predicate IsLatestFork(slots: set<(int, string)>, latest: int) {
    && (latest > 0 ==> Forked(slots, latest))
    && (forall n :: Forked(slots, n) ==> 0 < n <= latest)
  }

  ghost predicate ForkedFrom(slots: set<(int, string)>, minimum: int) {
    exists n :: n >= minimum && Forked(slots, n)
  }

  ghost predicate IsHighest(blocks: map<string, Block>, highest: int) {
    && (highest > 0 ==> exists h <- blocks :: blocks[h].number == highest)
    && (forall h <- blocks :: 0 < blocks[h].number <= highest)
  }

  // ---------------------------------------------------------------- invariant

  ghost predicate BlocksOk(blocks: map<string, Block>) {
    forall h <- blocks :: h != "" && blocks[h].hash == h && blocks[h].number > 0
  }

  ghost predicate CanonicalOk(blocks: map<string, Block>, canonical: map<int, string>) {
    && (forall n <- canonical :: canonical[n] in blocks && blocks[canonical[n]].number == n)
    && (forall h <- blocks :: blocks[h].number in canonical)
  }

  ghost predicate LegacyOk(blocks: map<string, Block>, canonical: map<int, string>, legacy: map<int, Block>) {
    forall n <- legacy ::
      n in canonical && legacy[n].hash in blocks && blocks[legacy[n].hash] == legacy[n] && legacy[n].number == n
  }

  ghost function SlotsOf(blocks: map<string, Block>): set<(int, string)> {
    set h | h in blocks :: (blocks[h].number, h)
  }

  ghost predicate Indexed(db: Db) {
    && BlocksOk(db.blocks)
    && CanonicalOk(db.blocks, db.canonical)
    && LegacyOk(db.blocks, db.canonical, db.legacy)
    && db.slots == SlotsOf(db.blocks)
  }

  ghost predicate HighestExact(blocks: map<string, Block>, highest: Option<int>) {
    IsHighest(blocks, GetOr(highest, -1)) && (highest.Some? ==> highest.value > 0)
  }

  ghost predicate ForksExact(slots: set<(int, string)>, latestFork: Option<int>, forkCount: Option<int>) {
    && IsLatestFork(slots, GetOr(latestFork, -1)) && (latestFork.Some? ==> latestFork.value > 0)
    && ForkCount(slots) == GetOr(forkCount, 0)
  }

  /** The incremental caches say what the full scans would find. */
  ghost predicate CachesExact(db: Db) {
    HighestExact(db.blocks, db.highest) && ForksExact(db.slots, db.latestFork, db.forkCount)
  }

  ghost predicate SoundAt(env: Env, blocks: map<string, Block>, checkpoint: Option<int>, hash: Option<string>) {
    && (checkpoint.Some? <==> hash.Some?)
    && (checkpoint.Some? ==>
          hash.value in blocks && blocks[hash.value].number == checkpoint.value && EnvelopeValid(env, blocks[hash.value]))
  }

  ghost predicate CheckpointSound(env: Env, db: Db) {
    SoundAt(env, db.blocks, db.checkpoint, db.checkpointHash)
  }

  ghost predicate Valid(env: Env, db: Db) {
    Indexed(db) && CachesExact(db) && CheckpointSound(env, db)
  }

  lemma StoredIsWellStored(db: Db)
    requires Indexed(db)
    ensures WellStored(Stored(db))
  {
  }

  /** In an indexed store `getBlock` finds a block exactly at the slots that hold one, with that number. */
  lemma GetBlockIndexed(db: Db, number: int)
    requires Indexed(db)
    ensures number in db.canonical ==> GetBlock(db, number) == db.blocks[db.canonical[number]]
    ensures number in db.canonical ==> GetBlock(db, number) in Stored(db) && GetBlock(db, number).number == number
    ensures number !in db.canonical ==> GetBlock(db, number) == NoBlock
  {
  }

  // ---------------------------------------------------------------- checkpoint

  function ReadCheckpoint(db: Db): Option<(int, string)> {
    if db.checkpoint.Some? && db.checkpointHash.Some? && db.checkpointHash.value != "" && db.checkpoint.value > 0
    then Some((db.checkpoint.value, db.checkpointHash.value))
    else None
  }

  /** Up to `fuel` parent links down, as long as they connect and the parents' envelopes hold. */
  function Descend(env: Env, db: Db, b: Block, fuel: nat): Block
    decreases fuel
  {
    if fuel == 0 || b.previousHash == "" then b
    else
      var parent := RawBlock(db, b.previousHash);
      if !Connects(b, parent) || !EnvelopeValid(env, parent) then b
      else Descend(env, db, parent, fuel - 1)
  }

  /** `maybeAdvanceValidatedCheckpoint`. */
  function Advance(env: Env, db: Db, tip: Block): Db {
    if !EnvelopeValid(env, tip) then db
    else
      var current := ReadCheckpoint(db);
      if current.Some? && tip.number - current.value.0 < CHECKPOINT_DEPTH * 2 then db
      else
        var found := Descend(env, db, tip, CHECKPOINT_DEPTH);
        if found.number <= 0 || found.hash == "" then db
        else if current.Some? && found.number <= current.value.0 then db
        else db.(checkpoint := Some(found.number), checkpointHash := Some(found.hash))
  }

  /** `checkpointMatchesCanonical`. */
  predicate CheckpointMatches(env: Env, db: Db, number: int, hash: string) {
    && number > 0 && hash != ""
    && CanonicalHash(db, number) == hash
    && RawBlock(db, hash).number == number
    && RawBlock(db, hash).hash == hash
    && EnvelopeValid(env, RawBlock(db, hash))
  }

  // ---------------------------------------------------------------- rewriting the indexes

  function SetLatest(db: Db, number: int): Db {
    var d := db.(latest := Some(number));
    if GetBlock(d, number).hash != "" then d.(latestHash := Some(GetBlock(d, number).hash)) else d
  }

  function PutHashes(m: map<int, string>, chain: seq<Block>, lo: nat, hi: nat): map<int, string>
    requires lo <= hi <= |chain|
    decreases hi
  {
    if lo == hi then m else PutHashes(m, chain, lo, hi - 1)[chain[hi - 1].number := chain[hi - 1].hash]
  }

  function PutBlocks(m: map<string, Block>, chain: seq<Block>, lo: nat, hi: nat): map<string, Block>
    requires lo <= hi <= |chain|
    decreases hi
  {
    if lo == hi then m else PutBlocks(m, chain, lo, hi - 1)[chain[hi - 1].hash := chain[hi - 1]]
  }

  function PutLegacy(m: map<int, Block>, chain: seq<Block>, lo: nat, hi: nat): map<int, Block>
    requires lo <= hi <= |chain|
    decreases hi
  {
    if lo == hi then m else PutLegacy(m, chain, lo, hi - 1)[chain[hi - 1].number := chain[hi - 1]]
  }

  function PutNextIds(m: map<int, int>, chain: seq<Block>, lo: nat, hi: nat): map<int, int>
    requires lo <= hi <= |chain|
    decreases hi
  {
    if lo == hi then m
    else
      var n := PutNextIds(m, chain, lo, hi - 1);
      if hi < |chain| then n[chain[hi - 1].number := chain[hi].number] else n
  }

  function PutNextHashes(m: map<string, string>, chain: seq<Block>, lo: nat, hi: nat): map<string, string>
    requires lo <= hi <= |chain|
    decreases hi
  {
    if lo == hi then m
    else
      var n := PutNextHashes(m, chain, lo, hi - 1);
      if hi < |chain| then n[chain[hi - 1].hash := chain[hi].hash] else n
  }

  /** Blocks `lo` to `hi` (exclusive) of the chain written as canonical, each with its next-block keys. */
  function Write(db: Db, chain: seq<Block>, lo: nat, hi: nat): Db
    requires lo <= hi <= |chain|
  {
    db.(canonical := PutHashes(db.canonical, chain, lo, hi),
        blocks := PutBlocks(db.blocks, chain, lo, hi),
        legacy := PutLegacy(db.legacy, chain, lo, hi),
        nextId := PutNextIds(db.nextId, chain, lo, hi),
        nextHash := PutNextHashes(db.nextHash, chain, lo, hi))
  }

  /** The end of both rewrites: latest, connected tip, checkpoint. */
  function Finish(env: Env, db: Db, tip: Block): Db {
    Advance(env, SetLatest(db, tip.number).(connected := Some(tip.number)), tip)
  }

  // ---------------------------------------------------------------- rebuild

  /** Popping from the end until the validator accepts. */
  function AcceptedPrefix(env: Env, chain: seq<Block>): seq<Block> {
    if chain == [] || env.chainOk(chain) then chain else AcceptedPrefix(env, chain[..|chain| - 1])
  }

  function Commit(env: Env, db: Db, chain: seq<Block>): Db
    requires chain != []
  {
    Finish(env, Write(db.(nextId := map[], nextHash := map[]), chain, 0, |chain|), Last(chain))
  }

  ghost function Selected(db: Db): seq<Block>
    requires Indexed(db)
  {
    StoredIsWellStored(db);
    var fallback := GetBlock(db, FirstId(db));
    GetBlockIndexed(db, FirstId(db));
    Cut(FullChain(Stored(db), GenesisCandidates(Stored(db), FirstId(db), fallback)))
  }

  /** The slow path of `rebuildBestChainIndex`. */
  ghost function SlowRebuild(env: Env, db: Db): (int, Db)
    requires Indexed(db)
  {
    var chain := AcceptedPrefix(env, Selected(db));
    if db.blocks == map[] || chain == [] then (-1, db)
    else (Last(chain).number, Commit(env, db, chain))
  }

  /** The fast path's climb along the next-hash keys. */
  function Climb(env: Env, db: Db, current: Block, latest: int, steps: nat): Option<Block>
    requires steps <= FAST_LIMIT
    decreases FAST_LIMIT - steps
  {
    if current.number < latest && steps < FAST_LIMIT then
      if current.hash !in db.nextHash || db.nextHash[current.hash] == "" then None
      else
        var next := RawBlock(db, db.nextHash[current.hash]);
        if !Connects(next, current) || !EnvelopeValid(env, next) then None
        else Climb(env, db, next, latest, steps + 1)
    else if current.number != latest || steps >= FAST_LIMIT then None
    else Some(current)
  }

  /** Everything `tryValidatedCheckpointFastPath` tests, on a store whose highest-block cache is present:
      the block it ends on. */
  ghost function FastTip(env: Env, db: Db, highest: int): Option<Block> {
    var latest := LatestId(db);
    if latest <= 0 then None
    else
      var cp := ReadCheckpoint(db);
      if cp.None? || latest < cp.value.0 || highest > latest then None
      else if !CheckpointMatches(env, db, cp.value.0, cp.value.1) then None
      else if && GetOr(db.forkCount, 0) > 0
              && (db.latestFork.None? || db.latestFork.value >= cp.value.0)
              && ForkedFrom(db.slots, cp.value.0) then None
      else
        var tip := Climb(env, db, RawBlock(db, cp.value.1), latest, 0);
        if tip.None? || GetBlock(db, latest).number != latest || GetBlock(db, latest).hash != tip.value.hash then None
        else tip
  }

  ghost function RebuildStep(env: Env, db: Db): (int, Db)
    requires Valid(env, db)
  {
    if FirstId(db) < 0 then (-1, db)
    else
      match FastTip(env, db, GetOr(db.highest, -1))
      case Some(tip) => (tip.number, Advance(env, db.(connected := Some(tip.number)), tip))
      case None => SlowRebuild(env, db)
  }

  // ---------------------------------------------------------------- adoption

  /** The walk along parent hashes; the chain comes out first block first. */
  function WalkBack(env: Env, db: Db, first: int, b: Block): Option<seq<Block>>
    requires b.number > 0 && b.hash != ""
    decreases b.number
  {
    if !EnvelopeValid(env, b) then None
    else if b.previousId <= 0 then
      if b.number == first && env.genesisMatches(b.number, b.hash) then Some([b]) else None
    else if b.previousHash == "" || b.previousId >= b.number then None
    else
      var parent := BlockByHash(db, b.previousHash);
      if !Connects(b, parent) then None
      else match WalkBack(env, db, first, parent)
        case None => None
        case Some(below) => Some(below + [b])
  }

  predicate Agrees(db: Db, b: Block) {
    GetBlock(db, b.number).number == b.number && GetBlock(db, b.number).hash == b.hash
  }

  /** How many blocks of the chain, from its first, the canonical index already agrees with. */
  function Agreement(db: Db, chain: seq<Block>): (k: nat)
    ensures k <= |chain|
  {
    if chain == [] || !Agrees(db, chain[0]) then 0 else 1 + Agreement(db, chain[1..])
  }

  function RewriteFrom(db: Db, chain: seq<Block>): (k: nat)
    ensures k <= |chain|
  {
    var k := Agreement(db, chain);
    if k > 0 then k - 1 else 0
  }

  predicate AlreadyTip(db: Db, tip: Block) {
    var previous := PreviousTip(db);
    previous.number > 0 && previous.hash != "" && previous.number >= tip.number && previous.hash == tip.hash
  }

  function AdoptableChain(env: Env, db: Db, tipHash: string): Option<seq<Block>> {
    if tipHash == "" || FirstId(db) <= 0 then None
    else
      var tip := BlockByHash(db, tipHash);
      if tip.number <= 0 || tip.hash != tipHash then None else WalkBack(env, db, FirstId(db), tip)
  }

  /** `adoptStoredChainEndingAtHash`: the adopted tip, if any, and the new store. */
  function AdoptStep(env: Env, db: Db, tipHash: string): (Option<int>, Db) {
    match AdoptableChain(env, db, tipHash)
    case None => (None, db)
    case Some(chain) =>
      if chain == [] then (None, db)
      else if AlreadyTip(db, Last(chain)) then (Some(PreviousTip(db).number), db)
      else (Some(Last(chain).number), Finish(env, Write(db, chain, RewriteFrom(db, chain), |chain|), Last(chain)))
  }

  // ---------------------------------------------------------------- adding a block

  predicate RecordsOk(env: Env, records: seq<Record>) {
    && (forall r <- records :: env.recordSizeOk(r))
    && (forall i, j :: 0 <= i < j < |records| && records[i].hash != "" ==> records[i].hash != records[j].hash)
  }

  /** The rejections of `AddBlock` before it looks at the store. */
  predicate Admissible(env: Env, b: Block) {
    && (b.previousId < b.number || b.previousId == -1)
    && (b.previousId <= 0 ==> env.genesisMatches(b.number, b.hash))
    && |b.records| <= env.maxRecords
    && RecordsOk(env, b.records)
    && env.jsonFits(b)
  }

  function WithBlock(db: Db, b: Block): Db {
    db.(blocks := db.blocks[b.hash := b])
  }

  /** The block, its slot key, the canonical index if it wins its slot, and the caches. */
  ghost function Enter(db: Db, b: Block): Db {
    var current := GetBlock(WithBlock(db, b), b.number);
    var taken := current.number > 0;
    var wins := !taken || PreferVariant(b, current);
    var slots := db.slots + {(b.number, b.hash)};
    db.(blocks := db.blocks[b.hash := b],
        slots := slots,
        highest := if b.number > 0 && (db.highest.None? || b.number > db.highest.value) then Some(b.number) else db.highest,
        canonical := if wins then db.canonical[b.number := b.hash] else db.canonical,
        legacy := if wins then db.legacy[b.number := b] else db.legacy,
        forkCount :=
          if !taken then db.forkCount
          else if db.forkCount.Some? then Some(db.forkCount.value + 1) else Some(ForkCount(slots)),
        latestFork := if taken && b.number > GetOr(db.latestFork, -1) then Some(b.number) else db.latestFork)
  }

  function LinkId(db: Db, b: Block): Db {
    if b.previousId !in db.nextId || db.nextId[b.previousId] == b.number
       || GetBlock(db, db.nextId[b.previousId]).number <= 0
    then db.(nextId := db.nextId[b.previousId := b.number])
    else db
  }

  function LinkHash(db: Db, b: Block): Db {
    var p := b.previousHash;
    if p == "" then db
    else if p !in db.nextHash || db.nextHash[p] == "" || db.nextHash[p] == b.hash
            || !Connects(BlockByHash(db, db.nextHash[p]), BlockByHash(db, p))
    then db.(nextHash := db.nextHash[p := b.hash])
    else db
  }

  /** The next keys of the parent, unless they already lead to a block that is there and connects. */
  function LinkNext(db: Db, b: Block): Db {
    if b.previousId <= -1 then db else LinkHash(LinkId(db, b), b)
  }

  function MoveTip(env: Env, db: Db, b: Block): Db {
    var latest := LatestId(db);
    if b.previousId <= 0 && latest < 0 then SetLatest(db, b.number)
    else if b.previousId == latest then
      var tip := GetBlock(db, latest);
      if tip.number == latest && tip.hash != "" && tip.hash == b.previousHash
      then Advance(env, SetLatest(db, b.number), b)
      else db
    else db
  }

  /** A block that passed every test enters the store; a losing variant goes no further. */
  ghost function StoreBlock(env: Env, db: Db, b: Block): Db {
    var current := GetBlock(WithBlock(db, b), b.number);
    if current.number > 0 && !PreferVariant(b, current) then Enter(db, b)
    else MoveTip(env, LinkNext(Enter(db, b), b), b)
  }

  /** The tests of `validateBlockForStorage` on the block itself and on its parent. */
  predicate StorageValid(env: Env, db: Db, b: Block) {
    && EnvelopeValid(env, b)
    && if b.previousId <= 0 then env.genesisMatches(b.number, b.hash)
       else
         && b.previousHash != ""
         && BlockByHash(db, b.previousHash).number > 0
         && BlockByHash(db, b.previousHash).number == b.previousId
         && b.previousId < b.number
  }

  /** When the validator also applies the rules of the ledger state and of the selected creator: to a genesis, and to a
      block at a free slot on top of the canonical latest block. */
  predicate RulesEnforced(db: Db, b: Block) {
    b.previousId <= 0 ||
    (var parent, same := BlockByHash(db, b.previousHash), GetBlock(db, b.number);
     && GetBlock(db, parent.number).number == parent.number && GetBlock(db, parent.number).hash == parent.hash
     && !(same.number == b.number && same.hash != "" && same.hash != b.hash)
     && b.previousId == LatestId(db))
  }

  /** Whether `AddBlock` stores the block; `rulesOk` is the validator's answer on the records and the creator. */
  predicate Enters(env: Env, db: Db, b: Block, rulesOk: bool) {
    Admissible(env, b) && b.hash !in db.blocks && StorageValid(env, db, b) && rulesOk
  }

  /** `AddBlock`. */
  ghost function AddStep(env: Env, db: Db, b: Block, rulesOk: bool): (bool, Db) {
    if !Admissible(env, b) then (false, db)
    else if b.hash in db.blocks then (true, db)
    else if !StorageValid(env, db, b) || !rulesOk then (false, db)
    else (true, StoreBlock(env, db, b))
  }

  /** `getForkVariantCount` refreshes the count by a full scan; the latest fork slot it also rewrites is already
      exact in a valid store. */
  ghost function CountForksStep(db: Db): Db {
    db.(forkCount := Some(ForkCount(db.slots)))
  }
}

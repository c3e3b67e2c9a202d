/** `getNextBlock` and what it falls back on (src/blockdb.cpp): the next-hash key, the next-number key, and a scan of all
    stored blocks; and that along a committed chain it leads from each block to the next. */
module Successors {
  import opened Options
  import opened Blocks
  import opened BestChain
  import opened ChainStore
  import opened StoreLaws

  // ---------------------------------------------------------------- the scan

  ghost predicate IsPreferred(c: Block, kids: set<Block>) {
    c in kids && forall d <- kids :: d == c || PreferVariant(c, d)
  }

  lemma PreferredUnique(kids: set<Block>, c: Block, d: Block)
    requires WellStored(kids) && IsPreferred(c, kids) && IsPreferred(d, kids)
    ensures c == d
  {
    if c != d { PreferVariantTotal(c, d); }
  }

  ghost function Preferred(kids: set<Block>): (c: Block)
    requires WellStored(kids) && kids != {}
    ensures IsPreferred(c, kids)
  {
    Favourite(kids, map b | b in kids :: Plan(1, 0, None))
  }

  /** The stored children that beat what the two keys left behind. */
  ghost function Rivals(db: Db, b: Block, left: Block): set<Block> {
    set c | c in Stored(db) && Connects(c, b) && PreferVariant(c, left)
  }

  ghost function Scan(db: Db, b: Block, left: Block): (r: Block)
    requires Indexed(db)
    ensures r == left || r in Rivals(db, b, left)
  {
    StoredIsWellStored(db);
    if Rivals(db, b, left) == {} then left else Preferred(Rivals(db, b, left))
  }

  /** What the scan returns outranks every other stored child. */
  lemma ScanOutranks(db: Db, b: Block, left: Block, c: Block)
    requires Indexed(db) && (left.number <= 0 || left in Stored(db)) && c in Stored(db) && Connects(c, b)
    ensures c == Scan(db, b, left) || Outranks(Scan(db, b, left), c)
  {
    StoredIsWellStored(db);
    var r := Scan(db, b, left);
    if c in Rivals(db, b, left) {
      assert r == c || PreferVariant(r, c);
      PreferIsRank(r, c);
    } else if c != left {
      ScanBeatsOthers(db, b, left, c);
    } else if r != left {
      PreferIsRank(r, left);
    }
  }

  lemma ScanBeatsOthers(db: Db, b: Block, left: Block, c: Block)
    requires Indexed(db) && left in Stored(db) && c in Stored(db) && c != left && !PreferVariant(c, left)
    ensures Outranks(Scan(db, b, left), c)
  {
    var r := Scan(db, b, left);
    PreferVariantTotal(left, c);
    if r != left { PreferVariantTransitive(r, left, c); }
    PreferIsRank(r, c);
  }

  /** The loop of the scan. */
  function Fold(b: Block, left: Block, blocks: seq<Block>): Block {
    if blocks == [] then left
    else
      var held, c := Fold(b, left, blocks[..|blocks| - 1]), blocks[|blocks| - 1];
      if Connects(c, b) && PreferVariant(c, held) then c else held
  }

  ghost function RivalsIn(blocks: seq<Block>, b: Block, left: Block): set<Block> {
    set c | c in blocks && Connects(c, b) && PreferVariant(c, left)
  }

  /** Whatever the order of the list, the loop ends on the preferred rival. */
  lemma {:induction false} FoldPrefers(b: Block, left: Block, blocks: seq<Block>)
    requires forall c <- blocks :: c.number > 0
    requires forall c <- blocks, d <- blocks :: c.hash == d.hash ==> c == d
    ensures
      var rivals, r := RivalsIn(blocks, b, left), Fold(b, left, blocks);
      if rivals == {} then r == left else IsPreferred(r, rivals)
  {
    if blocks != [] {
      var n := |blocks| - 1;
      FoldPrefers(b, left, blocks[..n]);
      assert blocks == blocks[..n] + [blocks[n]];
      var before, held, c := RivalsIn(blocks[..n], b, left), Fold(b, left, blocks[..n]), blocks[n];
      if Connects(c, b) {
        assert before != {} ==> held in blocks;
        OneMoreRival(before, held, left, c);
        if PreferVariant(c, left) {
          assert RivalsIn(blocks, b, left) == before + {c};
        } else {
          assert RivalsIn(blocks, b, left) == before;
        }
      } else {
        assert RivalsIn(blocks, b, left) == before;
      }
    }
  }

  lemma OneMoreRival(rivals: set<Block>, held: Block, left: Block, c: Block)
    requires c.number > 0 && forall d <- rivals :: d.number > 0 && PreferVariant(d, left)
    requires if rivals == {} then held == left else IsPreferred(held, rivals) && (held.hash == c.hash ==> held == c)
    ensures PreferVariant(c, left) ==> IsPreferred(if PreferVariant(c, held) then c else held, rivals + {c})
    ensures !PreferVariant(c, left) ==> !PreferVariant(c, held)
  {
    if rivals != {} {
      if PreferVariant(c, held) {
        if left.number > 0 { PreferVariantTransitive(c, held, left); }
        forall d <- rivals | d != held ensures PreferVariant(c, d) { PreferVariantTransitive(c, held, d); }
      } else if c != held {
        PreferVariantTotal(c, held);
      }
    }
  }

  // ---------------------------------------------------------------- the lookups

  function ByHashKey(db: Db, b: Block): Block {
    if b.hash in db.nextHash then BlockByHash(db, db.nextHash[b.hash]) else NoBlock
  }

  function IdKey(db: Db, number: int): int {
    if number in db.nextId then db.nextId[number] else -1
  }

  /** What `getNextBlockByHash` holds when it comes to the scan. */
  function Leftover(db: Db, b: Block): Block {
    if IdKey(db, b.number) > 0 then GetBlock(db, IdKey(db, b.number)) else ByHashKey(db, b)
  }

  /** `getNextBlockByHash`. */
  ghost function NextByHash(db: Db, b: Block): Block
    requires Indexed(db)
  {
    if b.number <= 0 || b.hash == "" then NoBlock
    else if Connects(ByHashKey(db, b), b) then ByHashKey(db, b)
    else if IdKey(db, b.number) > 0 && Connects(Leftover(db, b), b) then Leftover(db, b)
    else Scan(db, b, Leftover(db, b))
  }

  /** `getNextBlockId`. */
  function NextIdOf(db: Db, number: int): int {
    var id := IdKey(db, number);
    var previous := GetBlock(db, number);
    if id <= 0 && previous.hash != "" && Connects(ByHashKey(db, previous), previous)
    then ByHashKey(db, previous).number
    else id
  }

  /** `getNextBlock`. */
  ghost function NextBlock(db: Db, b: Block): Block
    requires Indexed(db)
  {
    var next := NextByHash(db, b);
    if next.number > 0 then next
    else
      var other := GetBlock(db, NextIdOf(db, b.number));
      if other.number > 0 && Connects(other, b) then other else other.(number := -1)
  }

  // ---------------------------------------------------------------- along a committed chain

  /** The chain is stored and connected, lookups answer it, and the next keys are exactly its links. */
  ghost predicate Committed(db: Db, chain: seq<Block>) {
    && IsPath(Stored(db), chain)
    && Answers(db, chain) && LinksExactly(db.nextHash, db.nextId, chain) && TipIs(db, Last(chain))
  }

  lemma NextAlongChain(db: Db, chain: seq<Block>, i: nat)
    requires Indexed(db) && Committed(db, chain) && i + 1 < |chain|
    ensures NextBlock(db, chain[i]) == chain[i + 1]
  {
    assert chain[i] in chain && chain[i + 1] in chain;
    assert Connects(chain[i + 1], chain[i]);
    assert db.nextHash[chain[i].hash] == chain[i + 1].hash;
  }

  /** A slow rebuild leaves its chain committed. */
  lemma RebuildCommits(env: Env, db: Db)
    requires Valid(env, db) && AcceptedPrefix(env, Selected(db)) != []
    ensures Valid(env, SlowRebuild(env, db).1)
    ensures Committed(SlowRebuild(env, db).1, AcceptedPrefix(env, Selected(db)))
  {
    SlowRebuildLaw(env, db);
  }
}

/** When `getNextBlock` leaves the branch it was asked about (src/blockdb.cpp), over whole runs, and what that means for
    the walk that replays the chain. */
module Branches {
  import opened Options
  import opened Blocks
  import opened BestChain
  import opened ChainStore
  import opened Successors
  import opened Runs
  import opened NextKeys
  import opened Roots
  import opened ChainWalk

  predicate IsChildOf(c: Block, b: Block) {
    c.previousHash == b.hash && c.previousId > 0
  }

  /** Among stored blocks the parent hash alone decides what connects. */
  lemma ChildConnects(env: Env, db: Db, c: Block, b: Block)
    requires Indexed(db) && Rooted(env, db.blocks) && c in Stored(db) && b in Stored(db)
    ensures Connects(c, b) <==> IsChildOf(c, b)
  {
    assert Grounded(env, db.blocks, c);
  }

  /** The next-hash key names no child, the block the keys lead to is no child either, and every stored child loses to
      it. */
  ghost predicate Strays(db: Db, b: Block) {
    var left := Leftover(db, b);
    && (b.hash !in db.nextHash || ByHashKey(db, b).previousId <= 0)
    && left.number > 0 && !IsChildOf(left, b)
    && forall c <- Stored(db) :: IsChildOf(c, b) ==> !PreferVariant(c, left)
  }

  lemma HashKeyConnects(env: Env, db: Db, b: Block)
    requires Indexed(db) && Rooted(env, db.blocks) && KeysLead(db) && b in Stored(db)
    ensures Connects(ByHashKey(db, b), b) <==> b.hash in db.nextHash && ByHashKey(db, b).previousId > 0
    ensures ByHashKey(db, b).number > 0 ==> ByHashKey(db, b) in Stored(db)
  {
    if b.hash in db.nextHash { ChildConnects(env, db, ByHashKey(db, b), b); }
  }

  lemma LeftoverConnects(env: Env, db: Db, b: Block)
    requires Indexed(db) && Rooted(env, db.blocks) && KeysLead(db) && b in Stored(db)
    ensures Leftover(db, b).number > 0 ==> Leftover(db, b) in Stored(db)
    ensures Leftover(db, b).number > 0 ==> (Connects(Leftover(db, b), b) <==> IsChildOf(Leftover(db, b), b))
  {
    HashKeyConnects(env, db, b);
    GetBlockIndexed(db, IdKey(db, b.number));
    if Leftover(db, b).number > 0 { ChildConnects(env, db, Leftover(db, b), b); }
  }

  lemma NoRivals(env: Env, db: Db, b: Block, left: Block)
    requires Indexed(db) && Rooted(env, db.blocks) && b in Stored(db)
    ensures Rivals(db, b, left) == {} <==> forall c <- Stored(db) :: IsChildOf(c, b) ==> !PreferVariant(c, left)
  {
    forall c <- Stored(db) ensures Connects(c, b) <==> IsChildOf(c, b) { ChildConnects(env, db, c, b); }
    if Rivals(db, b, left) == {} {
      forall c <- Stored(db) | IsChildOf(c, b) ensures !PreferVariant(c, left) {
        assert c !in Rivals(db, b, left);
      }
    }
  }

  /** `getNextBlock` answers with a block that does not connect exactly when the block strays. */
  lemma NextStraysIff(env: Env, db: Db, b: Block)
    requires Indexed(db) && Rooted(env, db.blocks) && KeysLead(db) && b in Stored(db)
    ensures NextBlock(db, b).number > 0 && !Connects(NextBlock(db, b), b) <==> Strays(db, b)
  {
    HashKeyConnects(env, db, b);
    LeftoverConnects(env, db, b);
    NoRivals(env, db, b, Leftover(db, b));
    assert b.number > 0 && b.hash != "";
  }

  /** The child that the next-hash key names comes first, then the canonical block that the next-number key names if it is a
      child, and else no stored child outranks the answer. */
  lemma NextInOrder(env: Env, db: Db, b: Block, c: Block)
    requires Indexed(db) && Rooted(env, db.blocks) && KeysLead(db) && b in Stored(db)
    requires c in Stored(db) && IsChildOf(c, b)
    ensures b.hash in db.nextHash && db.nextHash[b.hash] == c.hash ==> NextBlock(db, b) == c
    ensures b.hash !in db.nextHash && b.number in db.nextId && GetBlock(db, db.nextId[b.number]) == c ==> NextBlock(db, b) == c
    ensures b.hash !in db.nextHash && b.number !in db.nextId ==> c == NextBlock(db, b) || Outranks(NextBlock(db, b), c)
  {
    ChildConnects(env, db, c, b);
    assert b.number > 0 && b.hash != "" && c.hash in db.blocks && db.blocks[c.hash] == c && c.number > 0;
    if b.hash !in db.nextHash && b.number !in db.nextId {
      ScanOutranks(db, b, NoBlock, c);
      assert c in Rivals(db, b, NoBlock);
    }
  }

  /** What `getNextBlock` answers is a stored block, or none. */
  lemma NextIsStored(env: Env, db: Db, b: Block)
    requires Indexed(db) && Rooted(env, db.blocks) && KeysLead(db) && b in Stored(db) && NextBlock(db, b).number > 0
    ensures NextBlock(db, b) in Stored(db)
  {
    HashKeyConnects(env, db, b);
    LeftoverConnects(env, db, b);
    GetBlockIndexed(db, NextIdOf(db, b.number));
  }

  /** The same over any run. */
  lemma NextAfterAnyRun(env: Env, events: seq<Event>, b: Block)
    requires b in Stored(Run(env, events))
    ensures
      var db := Run(env, events);
      NextBlock(db, b).number > 0 && !Connects(NextBlock(db, b), b) <==> Strays(db, b)
  {
    RootedAfterAnyRun(env, events);
    KeysLeadAfterAnyRun(env, events);
    NextStraysIff(env, Run(env, events), b);
  }

  /** `getNextBlockId` gives the next-number key; without one, the number of the connecting block that the next-hash key
      of the canonical block names. It is the number of a stored block with this predecessor, whenever it is positive. */
  lemma NextIdMeans(env: Env, db: Db, number: int)
    requires Indexed(db) && Rooted(env, db.blocks) && KeysLead(db) && number > 0
    ensures number in db.nextId ==> NextIdOf(db, number) == db.nextId[number]
    ensures NextIdOf(db, number) > 0 ==> IsChild(db.blocks, number, NextIdOf(db, number))
    ensures number !in db.nextId ==>
      (NextIdOf(db, number) > 0 <==> number in db.canonical && Connects(ByHashKey(db, GetBlock(db, number)), GetBlock(db, number)))
  {
    GetBlockIndexed(db, number);
    if number in db.nextId {
      assert IsChild(db.blocks, number, db.nextId[number]);
    } else if number in db.canonical {
      var b := GetBlock(db, number);
      HashKeyConnects(env, db, b);
      var c := ByHashKey(db, b);
      if Connects(c, b) {
        assert c.hash in db.blocks && db.blocks[c.hash] == c;
      }
    }
  }

  lemma NextIdAfterAnyRun(env: Env, events: seq<Event>, number: int)
    requires number > 0
    ensures
      var db := Run(env, events);
      && (number in db.nextId ==> NextIdOf(db, number) == db.nextId[number])
      && (NextIdOf(db, number) > 0 ==> IsChild(db.blocks, number, NextIdOf(db, number)))
      && (number !in db.nextId ==>
            (NextIdOf(db, number) > 0 <==>
              number in db.canonical && Connects(ByHashKey(db, GetBlock(db, number)), GetBlock(db, number))))
  {
    RootedAfterAnyRun(env, events);
    KeysLeadAfterAnyRun(env, events);
    NextIdMeans(env, Run(env, events), number);
  }

  // ---------------------------------------------------------------- the walk

  /** A walk along a successor function. */
  ghost predicate Follows(next: Block -> Block, walk: seq<Block>) {
    forall i {:trigger next(walk[i])} :: 0 <= i < |walk| - 1 ==> walk[i + 1] == next(walk[i]) && walk[i + 1].number > 0
  }

  /** The function stays in the store, and leads to a child from all blocks but these. */
  ghost predicate LeavesAt(store: set<Block>, next: Block -> Block, strays: set<Block>) {
    forall b {:trigger next(b)} :: b in store && next(b).number > 0 ==>
      next(b) in store && (Connects(next(b), b) <==> b !in strays)
  }

  lemma {:induction false} WalkIsStored(store: set<Block>, next: Block -> Block, strays: set<Block>, walk: seq<Block>, i: nat)
    requires LeavesAt(store, next, strays) && Follows(next, walk) && i < |walk| && walk[0] in store
    ensures walk[i] in store
  {
    if i > 0 {
      WalkIsStored(store, next, strays, walk, i - 1);
      assert walk[i] == next(walk[i - 1]);
    }
  }

  lemma PathIff(store: set<Block>, next: Block -> Block, strays: set<Block>, walk: seq<Block>)
    requires LeavesAt(store, next, strays) && Follows(next, walk) && walk != [] && walk[0] in store
    ensures IsPath(store, walk) <==> forall i :: 0 <= i < |walk| - 1 ==> walk[i] !in strays
  {
    forall i | 0 <= i < |walk| ensures walk[i] in store { WalkIsStored(store, next, strays, walk, i); }
    forall i | 0 <= i < |walk| - 1 ensures Connects(walk[i + 1], walk[i]) <==> walk[i] !in strays {
      assert walk[i + 1] == next(walk[i]);
    }
    if IsPath(store, walk) {
      forall i | 0 <= i < |walk| - 1 ensures walk[i] !in strays { assert Connects(walk[i + 1], walk[i]); }
    }
  }

  ghost function Straying(db: Db): set<Block> {
    set b | b in Stored(db) && Strays(db, b)
  }

  lemma NextLeaves(env: Env, db: Db)
    requires Indexed(db) && Rooted(env, db.blocks) && KeysLead(db)
    ensures LeavesAt(Stored(db), Next(db), Straying(db))
  {
    forall b | b in Stored(db) && Next(db)(b).number > 0
      ensures Next(db)(b) in Stored(db) && (Connects(Next(db)(b), b) <==> b !in Straying(db))
    {
      LeavesOnlyStraying(env, db, b);
    }
  }

  lemma LeavesOnlyStraying(env: Env, db: Db, b: Block)
    requires Indexed(db) && Rooted(env, db.blocks) && KeysLead(db) && b in Stored(db) && Next(db)(b).number > 0
    ensures Next(db)(b) in Stored(db) && (Connects(Next(db)(b), b) <==> b !in Straying(db))
  {
    assert Next(db)(b) == NextBlock(db, b);
    NextStraysIff(env, db, b);
    NextIsStored(env, db, b);
  }

  /** The walk that replays the chain is one hash-linked path exactly when no block on it, but the last, strays. */
  lemma WalkIsPathIff(env: Env, db: Db, limit: Option<int>)
    requires Indexed(db) && Rooted(env, db.blocks) && KeysLead(db) && Walk(db, limit) != []
    ensures
      var walk := Walk(db, limit);
      IsPath(Stored(db), walk) <==> forall i :: 0 <= i < |walk| - 1 ==> walk[i] !in Straying(db)
  {
    NextLeaves(env, db);
    WalkSteps(db, limit);
    PathIff(Stored(db), Next(db), Straying(db), Walk(db, limit));
  }

  lemma WalkSteps(db: Db, limit: Option<int>)
    requires Indexed(db) && Walk(db, limit) != []
    ensures Walk(db, limit)[0] in Stored(db) && Follows(Next(db), Walk(db, limit))
  {
    VisitedFollows(Next(db), limit, LatestId(db), GetBlock(db, FirstId(db)), 0);
    GetBlockIndexed(db, FirstId(db));
  }

  lemma WalkAfterAnyRun(env: Env, events: seq<Event>, limit: Option<int>)
    requires Walk(Run(env, events), limit) != []
    ensures
      var db := Run(env, events);
      var walk := Walk(db, limit);
      IsPath(Stored(db), walk) <==> forall i :: 0 <= i < |walk| - 1 ==> walk[i] !in Straying(db)
  {
    RootedAfterAnyRun(env, events);
    KeysLeadAfterAnyRun(env, events);
    WalkIsPathIff(env, Run(env, events), limit);
  }
}

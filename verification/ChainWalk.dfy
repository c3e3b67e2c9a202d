/** The walk with which src/carryforward.cpp and src/cli.cpp replay the chain: from the first block along `getNextBlock`
    to the latest one, at most 100000 blocks. */
module ChainWalk {
  import opened Options
  import opened Blocks
  import opened BestChain
  import opened ChainStore
  import opened StoreLaws
  import opened Successors
  import opened BlockDatabase
  import LatestKeys

  const MAX_WALK := 100000

  predicate Beyond(limit: Option<int>, number: int) {
    limit.Some? && number > limit.value
  }

  /** The blocks visited from b on, along a successor function: up to the limit, the latest block, a repeated number or
      the guard. */
  function Visited(next: Block -> Block, limit: Option<int>, latest: int, b: Block, guard: nat): seq<Block>
    requires guard <= MAX_WALK
    decreases MAX_WALK - guard, b
  {
    if b.number <= 0 || guard == MAX_WALK || Beyond(limit, b.number) then []
    else if b.number == latest || next(b).number <= 0 || next(b).number == b.number then [b]
    else [b] + Visited(next, limit, latest, next(b), guard + 1)
  }

  /** The successor function is `getNextBlock` on the store. */
  ghost predicate Succeeds(db: Db, next: Block -> Block)
    requires Indexed(db)
  {
    forall b {:trigger NextBlock(db, b)} :: next(b) == NextBlock(db, b)
  }

  ghost function Next(db: Db): (next: Block -> Block)
    requires Indexed(db)
    ensures Succeeds(db, next)
  {
    b => NextBlock(db, b)
  }

  ghost function Walk(db: Db, limit: Option<int>): seq<Block>
    requires Indexed(db)
  {
    if FirstId(db) < 0 || LatestId(db) < 0 then []
    else Visited(Next(db), limit, LatestId(db), GetBlock(db, FirstId(db)), 0)
  }

  /** The blocks still to visit, after those done. */
  ghost predicate Remaining(next: Block -> Block, limit: Option<int>, latest: int, all: seq<Block>, done: seq<Block>,
                            b: Block, guard: nat) {
    guard <= MAX_WALK && all == done + Visited(next, limit, latest, b, guard)
  }

  /** The end of a turn: the next block, or the reason to stop. */
  method NextOnWalk(store: BlockDb, ghost next: Block -> Block, ghost limit: Option<int>, latest: int, b: Block, guard: nat,
                    ghost all: seq<Block>, ghost done: seq<Block>)
    returns (more: bool, b': Block)
    requires Indexed(store.db) && Succeeds(store.db, next)
    requires Remaining(next, limit, latest, all, done, b, guard)
    requires guard < MAX_WALK && b.number > 0 && !Beyond(limit, b.number)
    ensures more ==> Remaining(next, limit, latest, all, done + [b], b', guard + 1)
    ensures !more ==> all == done + [b]
  {
    VisitedStep(next, limit, latest, b, guard, done);
    if b.number == latest {
      return false, NoBlock;
    }
    b' := store.GetNextBlock(b);
    more := !(b'.number <= 0 || b'.number == b.number);
  }

  lemma VisitedStep(next: Block -> Block, limit: Option<int>, latest: int, b: Block, guard: nat, done: seq<Block>)
    requires guard < MAX_WALK && b.number > 0 && !Beyond(limit, b.number)
    ensures
      var all := done + Visited(next, limit, latest, b, guard);
      if b.number == latest || next(b).number <= 0 || next(b).number == b.number then all == done + [b]
      else all == done + [b] + Visited(next, limit, latest, next(b), guard + 1)
  {
  }

  /** When the loop condition fails nothing is left. */
  lemma NoneRemain(next: Block -> Block, limit: Option<int>, latest: int, all: seq<Block>, done: seq<Block>, b: Block,
                   guard: nat)
    requires Remaining(next, limit, latest, all, done, b, guard)
    requires b.number <= 0 || guard == MAX_WALK || Beyond(limit, b.number)
    ensures all == done
  {
  }

  /** The walk starts at b and goes from each block to its successor. */
  lemma {:induction false} VisitedFollows(next: Block -> Block, limit: Option<int>, latest: int, b: Block, guard: nat)
    requires guard <= MAX_WALK
    ensures
      var walk := Visited(next, limit, latest, b, guard);
      && (walk != [] ==> walk[0] == b)
      && (forall i :: 0 <= i < |walk| ==> walk[i].number > 0)
      && (forall i :: 0 <= i < |walk| - 1 ==> walk[i + 1] == next(walk[i]))
    decreases MAX_WALK - guard
  {
    if guard < MAX_WALK { VisitedFollows(next, limit, latest, next(b), guard + 1); }
  }

  /** Why the walk ends where it ends: at the latest block, or where there is no next block, a repeated number, one beyond
      the limit, or after 100000 blocks. */
  lemma {:induction false} VisitedEnds(next: Block -> Block, limit: Option<int>, latest: int, b: Block, guard: nat)
    requires guard <= MAX_WALK
    ensures
      var walk := Visited(next, limit, latest, b, guard);
      && (walk == [] <==> b.number <= 0 || guard == 100000 || (limit.Some? && b.number > limit.value))
      && guard + |walk| <= 100000
      && (forall i :: 0 <= i < |walk| - 1 ==> walk[i].number != latest)
      && (walk != [] ==>
            var last := walk[|walk| - 1];
            || last.number == latest || next(last).number <= 0 || next(last).number == last.number
            || (limit.Some? && next(last).number > limit.value) || guard + |walk| == 100000)
    decreases MAX_WALK - guard
  {
    if guard < MAX_WALK { VisitedEnds(next, limit, latest, next(b), guard + 1); }
  }

  // ---------------------------------------------------------------- along a committed chain

  function UpTo(chain: seq<Block>, limit: Option<int>): seq<Block> {
    if chain == [] || Beyond(limit, chain[0].number) then [] else [chain[0]] + UpTo(chain[1..], limit)
  }

  /** Of a chain with rising numbers these are exactly the blocks up to the limit. */
  lemma {:induction false} UpToExact(chain: seq<Block>, limit: int)
    requires forall i, j :: 0 <= i < j < |chain| ==> chain[i].number < chain[j].number
    ensures UpTo(chain, Some(limit)) <= chain
    ensures forall b :: b in UpTo(chain, Some(limit)) <==> b in chain && b.number <= limit
  {
    if chain != [] {
      assert chain == [chain[0]] + chain[1..];
      UpToExact(chain[1..], limit);
      if chain[0].number > limit {
        forall b | b in chain ensures b.number > limit {
          var i :| 0 <= i < |chain| && chain[i] == b;
        }
      }
    }
  }

  /** The function leads from each block of the chain, whose numbers rise, to the next. */
  ghost predicate LeadsAlong(next: Block -> Block, chain: seq<Block>) {
    && (forall i :: 0 <= i < |chain| ==> chain[i].number > 0)
    && (forall i :: 0 <= i < |chain| - 1 ==> next(chain[i]) == chain[i + 1] && chain[i].number < chain[i + 1].number
                                             && chain[i].number < chain[|chain| - 1].number)
  }

  lemma {:induction false} VisitsChain(next: Block -> Block, chain: seq<Block>, limit: Option<int>, i: nat)
    requires LeadsAlong(next, chain) && i < |chain| <= MAX_WALK
    ensures Visited(next, limit, Last(chain).number, chain[i], i) == UpTo(chain[i..], limit)
    decreases |chain| - i
  {
    if i + 1 < |chain| {
      VisitsChain(next, chain, limit, i + 1);
      assert chain[i..][1..] == chain[i + 1..];
    } else {
      assert chain[i..] == [chain[i]];
    }
  }

  lemma CommittedLeads(db: Db, chain: seq<Block>)
    requires Indexed(db) && Committed(db, chain)
    ensures LeadsAlong(Next(db), chain)
  {
    PathIsRising(db, chain);
    forall i | 0 <= i < |chain| ensures chain[i].number > 0 { assert chain[i] in chain; }
    forall i | 0 <= i < |chain| - 1 ensures Next(db)(chain[i]) == chain[i + 1] { NextAlongChain(db, chain, i); }
  }

  /** On a committed chain from the first block the walk visits exactly the chain, up to the limit. */
  lemma WalkIsChain(db: Db, chain: seq<Block>, limit: Option<int>)
    requires Indexed(db) && Committed(db, chain) && |chain| <= MAX_WALK && chain[0].number == FirstId(db)
    ensures Walk(db, limit) == UpTo(chain, limit)
  {
    CommittedLeads(db, chain);
    VisitsChain(Next(db), chain, limit, 0);
    assert chain[0..] == chain;
  }

  /** So after a slow rebuild the replays see the committed chain and nothing else. */
  lemma WalkAfterRebuild(env: Env, db: Db, limit: Option<int>)
    requires Valid(env, db) && AcceptedPrefix(env, Selected(db)) != []
    ensures Valid(env, SlowRebuild(env, db).1)
    ensures Walk(SlowRebuild(env, db).1, limit) == UpTo(AcceptedPrefix(env, Selected(db)), limit)
  {
    RebuildCommits(env, db);
    LatestKeys.SlowEffect(env, db);
    StartsAtFirst(env, db);
    WalkIsChain(SlowRebuild(env, db).1, AcceptedPrefix(env, Selected(db)), limit);
  }

  lemma StartsAtFirst(env: Env, db: Db)
    requires Indexed(db) && AcceptedPrefix(env, Selected(db)) != []
    ensures
      var chain := AcceptedPrefix(env, Selected(db));
      chain[0].number == FirstId(db) && |chain| <= MAX_CHAIN_DEPTH
  {
    AcceptedPrefixIsLongest(env, Selected(db));
    SelectedIsPath(db);
    GetBlockIndexed(db, FirstId(db));
    var found := set b | b in Stored(db) && b.number == FirstId(db) && b.previousId <= 0;
    assert Selected(db)[0] in Candidates(db);
  }

  // ---------------------------------------------------------------- records

  /** A record with what its block says about it. */
  datatype Entry = Entry(blockNumber: int, creator: string, record: Record)

  function BlockEntries(b: Block, n: nat): seq<Entry>
    requires n <= |b.records|
  {
    if n == 0 then [] else BlockEntries(b, n - 1) + [Entry(b.number, b.creator, b.records[n - 1])]
  }

  function Entries(blocks: seq<Block>): seq<Entry> {
    if blocks == [] then []
    else Entries(blocks[..|blocks| - 1]) + BlockEntries(blocks[|blocks| - 1], |blocks[|blocks| - 1].records|)
  }

  /** The entries before each record of a block, and after the last. */
  ghost function Stages(b: Block, es: seq<Entry>): (stages: seq<seq<Entry>>)
    ensures |stages| == |b.records| + 1
    ensures stages[0] == es && stages[|b.records|] == es + BlockEntries(b, |b.records|)
    ensures forall i :: 0 <= i < |b.records| ==> stages[i + 1] == stages[i] + [Entry(b.number, b.creator, b.records[i])]
  {
    seq(|b.records| + 1, i requires 0 <= i <= |b.records| => es + BlockEntries(b, i))
  }

  lemma EntriesGrow(done: seq<Block>, b: Block)
    ensures Entries(done + [b]) == Entries(done) + BlockEntries(b, |b.records|)
  {
    assert (done + [b])[..|done|] == done;
  }
}

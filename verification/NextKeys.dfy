/** The next-block keys over whole runs: a next-hash key always leads to a stored child of the block it belongs to, and
    a next-number key to the number of a stored block that names it as its predecessor. */
module NextKeys {
  import opened Options
  import opened Blocks
  import opened BestChain
  import opened ChainStore
  import opened StoreLaws
  import opened Runs

  ghost predicate HashesLead(blocks: map<string, Block>, nextHash: map<string, string>) {
    forall h <- nextHash :: nextHash[h] in blocks && blocks[nextHash[h]].previousHash == h
  }

  ghost predicate IsChild(blocks: map<string, Block>, parent: int, child: int) {
    exists h <- blocks :: blocks[h].number == child && blocks[h].previousId == parent
  }

  ghost predicate IdsLead(blocks: map<string, Block>, nextId: map<int, int>) {
    forall n <- nextId :: IsChild(blocks, n, nextId[n])
  }

  ghost predicate KeysLead(db: Db) {
    HashesLead(db.blocks, db.nextHash) && IdsLead(db.blocks, db.nextId)
  }

  lemma {:induction false} PutKeysLead(blocks: map<string, Block>, m: map<string, string>, l: map<int, int>,
                                       chain: seq<Block>, lo: nat, hi: nat)
    requires HashesLead(blocks, m) && IdsLead(blocks, l) && lo <= hi <= |chain| && AllStored(blocks, chain)
    requires forall i :: 0 <= i < |chain| - 1 ==> Connects(chain[i + 1], chain[i])
    ensures HashesLead(blocks, PutNextHashes(m, chain, lo, hi)) && IdsLead(blocks, PutNextIds(l, chain, lo, hi))
    decreases hi
  {
    if lo < hi {
      PutKeysLead(blocks, m, l, chain, lo, hi - 1);
      if hi < |chain| {
        assert chain[hi] in chain && Connects(chain[hi - 1 + 1], chain[hi - 1]);
        OneLinkLeads(blocks, PutNextHashes(m, chain, lo, hi - 1), PutNextIds(l, chain, lo, hi - 1), chain[hi]);
      }
    }
  }

  lemma OneLinkLeads(blocks: map<string, Block>, m: map<string, string>, l: map<int, int>, child: Block)
    requires HashesLead(blocks, m) && IdsLead(blocks, l) && child.hash in blocks && blocks[child.hash] == child
    ensures HashesLead(blocks, m[child.previousHash := child.hash])
    ensures IdsLead(blocks, l[child.previousId := child.number])
  {
  }

  /** Moving the tip and the checkpoint touches no next key. */
  lemma AdvanceKeepsKeys(env: Env, db: Db, tip: Block)
    ensures
      var d := Advance(env, db, tip);
      d.blocks == db.blocks && d.nextHash == db.nextHash && d.nextId == db.nextId
  {
  }

  lemma MoveTipKeepsKeys(env: Env, db: Db, b: Block)
    ensures
      var d := MoveTip(env, db, b);
      d.blocks == db.blocks && d.nextHash == db.nextHash && d.nextId == db.nextId
  {
    MoveTipCases(env, db, b);
    AdvanceKeepsKeys(env, SetLatest(db, b.number), b);
  }

  lemma FinishKeepsKeys(env: Env, db: Db, tip: Block)
    ensures
      var d := Finish(env, db, tip);
      d.blocks == db.blocks && d.nextHash == db.nextHash && d.nextId == db.nextId
  {
    AdvanceKeepsKeys(env, SetLatest(db, tip.number).(connected := Some(tip.number)), tip);
  }

  lemma MoreBlocksLead(blocks: map<string, Block>, nextHash: map<string, string>, nextId: map<int, int>, b: Block)
    requires HashesLead(blocks, nextHash) && IdsLead(blocks, nextId) && b.hash !in blocks
    ensures HashesLead(blocks[b.hash := b], nextHash) && IdsLead(blocks[b.hash := b], nextId)
  {
    var more := blocks[b.hash := b];
    forall n | n in nextId ensures IsChild(more, n, nextId[n]) {
      var h :| h in blocks && blocks[h].number == nextId[n] && blocks[h].previousId == n;
      assert h in more && more[h] == blocks[h];
    }
  }

  /** The two keys of the parent are left alone or name the new block. */
  lemma LinkNextCases(db: Db, b: Block)
    ensures
      var d := LinkNext(db, b);
      && d.blocks == db.blocks
      && (d.nextId == db.nextId || d.nextId == db.nextId[b.previousId := b.number])
      && (d.nextHash == db.nextHash || d.nextHash == db.nextHash[b.previousHash := b.hash])
  {
    LinkIdCases(db, b);
    LinkHashCases(LinkId(db, b), b);
  }

  lemma LinkIdCases(db: Db, b: Block)
    ensures LinkId(db, b) == db || LinkId(db, b) == db.(nextId := db.nextId[b.previousId := b.number])
  {
  }

  lemma LinkHashCases(db: Db, b: Block)
    ensures LinkHash(db, b) == db || LinkHash(db, b) == db.(nextHash := db.nextHash[b.previousHash := b.hash])
  {
  }

  lemma LinkNextLeads(db: Db, b: Block)
    requires KeysLead(db) && b.hash in db.blocks && db.blocks[b.hash] == b
    ensures KeysLead(LinkNext(db, b))
  {
    LinkNextCases(db, b);
    OneLinkLeads(db.blocks, db.nextHash, db.nextId, b);
  }

  /** The next-number key of the predecessor is kept exactly when it leads to a stored slot; else it names the new block. */
  lemma NumberKeyIff(db: Db, b: Block)
    requires Indexed(db) && b.hash in db.blocks && db.blocks[b.hash] == b && b.previousId > -1
    ensures LinkNext(db, b).nextId ==
      if b.previousId in db.nextId && db.nextId[b.previousId] in db.canonical then db.nextId
      else db.nextId[b.previousId := b.number]
  {
    LinkHashKeepsIds(LinkId(db, b), b);
    if b.previousId in db.nextId { GetBlockIndexed(db, db.nextId[b.previousId]); }
  }

  lemma LinkHashKeepsIds(db: Db, b: Block)
    ensures LinkHash(db, b).nextId == db.nextId
  {
  }

  /** The next-hash key of the parent is kept exactly when it leads to a stored block that connects to it. */
  lemma HashKeyIff(db: Db, b: Block)
    requires Indexed(db) && b.hash in db.blocks && db.blocks[b.hash] == b && b.previousId > -1 && b.previousHash != ""
    ensures
      var p := b.previousHash;
      LinkNext(db, b).nextHash ==
        if p in db.nextHash && p in db.blocks && db.nextHash[p] in db.blocks && Connects(db.blocks[db.nextHash[p]], db.blocks[p])
        then db.nextHash else db.nextHash[p := b.hash]
  {
    LinkIdCases(db, b);
    HashLinked(LinkId(db, b), b);
  }

  lemma HashLinked(db: Db, b: Block)
    requires BlocksOk(db.blocks) && b.hash in db.blocks && db.blocks[b.hash] == b && b.previousHash != ""
    ensures
      var p := b.previousHash;
      LinkHash(db, b).nextHash ==
        if p in db.nextHash && p in db.blocks && db.nextHash[p] in db.blocks && Connects(db.blocks[db.nextHash[p]], db.blocks[p])
        then db.nextHash else db.nextHash[p := b.hash]
  {
    var p := b.previousHash;
    if p in db.nextHash && db.nextHash[p] == b.hash { assert db.nextHash[p := b.hash] == db.nextHash; }
  }

  /** After a block is linked, the next-hash key of its parent leads to a stored block that connects to the parent:
      a stale key is repaired, a good one is kept. */
  lemma ParentLinked(db: Db, b: Block, parent: Block)
    requires Indexed(db) && KeysLead(db) && b.hash in db.blocks && db.blocks[b.hash] == b
    requires parent.hash in db.blocks && db.blocks[parent.hash] == parent && Connects(b, parent)
    ensures
      var d := LinkNext(db, b);
      && parent.hash in d.nextHash && d.nextHash[parent.hash] in d.blocks
      && Connects(d.blocks[d.nextHash[parent.hash]], parent)
  {
  }

  lemma KeysAre(env: Env, db: Db, b: Block)
    requires Valid(env, db) && b.number > 0 && b.hash != "" && b.hash !in db.blocks && Wins(db, b)
    ensures
      var d, l := StoreBlock(env, db, b), LinkNext(Enter(db, b), b);
      d.nextId == l.nextId && d.nextHash == l.nextHash
  {
    StoreBlockSplits(env, db, b);
    MoveTipKeepsKeys(env, LinkNext(Enter(db, b), b), b);
  }

  /** A block that wins its slot is linked to its parent as above, and any other block changes no next key. */
  lemma AddLinks(env: Env, db: Db, b: Block)
    requires Valid(env, db) && KeysLead(db) && b.number > 0 && b.hash != "" && b.hash !in db.blocks
    ensures
      var d, n, p, blocks := StoreBlock(env, db, b), b.previousId, b.previousHash, db.blocks[b.hash := b];
      && d.nextId == (if !Wins(db, b) || n <= -1 || (n in db.nextId && db.nextId[n] in db.canonical) then db.nextId
                      else db.nextId[n := b.number])
      && d.nextHash == (if !Wins(db, b) || n <= -1 || p == ""
                           || (p in db.nextHash && p in blocks && Connects(blocks[db.nextHash[p]], blocks[p]))
                        then db.nextHash else db.nextHash[p := b.hash])
  {
    StoreBlockSplits(env, db, b);
    EnterLaw(env, db, b);
    InsertSameSlot(db, b);
    if Wins(db, b) {
      KeysAre(env, db, b);
      var e := Enter(db, b);
      if b.previousId > -1 {
        IdAfterEnter(e, db, b);
        HashAfterEnter(e, db, b);
      }
    }
  }

  lemma IdAfterEnter(e: Db, db: Db, b: Block)
    requires Indexed(e) && KeysLead(db) && Indexed(db) && b.previousId > -1
    requires e.blocks == db.blocks[b.hash := b] && e.canonical == db.canonical[b.number := b.hash] && e.nextId == db.nextId
    ensures LinkNext(e, b).nextId ==
      if b.previousId in db.nextId && db.nextId[b.previousId] in db.canonical then db.nextId
      else db.nextId[b.previousId := b.number]
  {
    NumberKeyIff(e, b);
    if b.previousId in db.nextId {
      assert IsChild(db.blocks, b.previousId, db.nextId[b.previousId]);
      assert db.nextId[b.previousId] in db.canonical;
    }
  }

  lemma HashAfterEnter(e: Db, db: Db, b: Block)
    requires Indexed(e) && KeysLead(db) && Indexed(db) && b.previousId > -1 && b.hash !in db.blocks
    requires e.blocks == db.blocks[b.hash := b] && e.nextHash == db.nextHash
    ensures
      var p, blocks := b.previousHash, db.blocks[b.hash := b];
      LinkNext(e, b).nextHash ==
        if p == "" || (p in db.nextHash && p in blocks && Connects(blocks[db.nextHash[p]], blocks[p]))
        then db.nextHash else db.nextHash[p := b.hash]
  {
    var p := b.previousHash;
    if p != "" {
      HashKeyIff(e, b);
    } else {
      LinkIdCases(e, b);
    }
  }

  lemma AddLeads(env: Env, db: Db, b: Block)
    requires Valid(env, db) && KeysLead(db) && b.number > 0 && b.hash != "" && b.hash !in db.blocks
    ensures KeysLead(StoreBlock(env, db, b))
  {
    StoreBlockSplits(env, db, b);
    var e := Enter(db, b);
    MoreBlocksLead(db.blocks, db.nextHash, db.nextId, b);
    LinkNextLeads(e, b);
    MoveTipKeepsKeys(env, LinkNext(e, b), b);
  }

  lemma CommitLeads(env: Env, db: Db, chain: seq<Block>)
    requires Indexed(db) && IsPath(Stored(db), chain)
    ensures KeysLead(Commit(env, db, chain))
  {
    PathIsRising(db, chain);
    var cleared := db.(nextId := map[], nextHash := map[]);
    PutBlocksSame(db.blocks, chain, 0, |chain|);
    PutKeysLead(db.blocks, map[], map[], chain, 0, |chain|);
    FinishKeepsKeys(env, Write(cleared, chain, 0, |chain|), Last(chain));
  }

  lemma RebuildLeads(env: Env, db: Db)
    requires Valid(env, db) && KeysLead(db)
    ensures KeysLead(RebuildStep(env, db).1)
  {
    if FirstId(db) >= 0 {
      match FastTip(env, db, GetOr(db.highest, -1))
      case Some(tip) =>
        AdvanceKeepsKeys(env, db.(connected := Some(tip.number)), tip);
      case None =>
        SlowRebuildLaw(env, db);
        var chain := AcceptedPrefix(env, Selected(db));
        if chain != [] {
          SlowRebuildCommits(env, db, chain);
          CommitLeads(env, db, chain);
        }
    }
  }

  lemma AdoptionLeads(env: Env, db: Db, tipHash: string)
    requires Valid(env, db) && KeysLead(db)
    ensures KeysLead(AdoptStep(env, db, tipHash).1)
  {
    AdoptionLaw(env, db, tipHash);
    if AdoptStep(env, db, tipHash).0.Some? {
      var chain := AdoptableChain(env, db, tipHash).value;
      var k := RewriteFrom(db, chain);
      PathIsRising(db, chain);
      PutBlocksSame(db.blocks, chain, k, |chain|);
      PutKeysLead(db.blocks, db.nextHash, db.nextId, chain, k, |chain|);
      FinishKeepsKeys(env, Write(db, chain, k, |chain|), Last(chain));
    }
  }

  lemma StepLeads(env: Env, db: Db, e: Event)
    requires Valid(env, db) && KeysLead(db)
    ensures KeysLead(Step(env, db, e))
  {
    match e
    case SetFirst(_) =>
    case SetLatestId(_) =>
    case Add(b, rulesOk) => if Enters(env, db, b, rulesOk) { AddLeads(env, db, b); }
    case Rebuild => RebuildLeads(env, db);
    case Adopt(tipHash) => AdoptionLeads(env, db, tipHash);
    case CountForks =>
  }

  /** After any run every next key leads to a stored child. */
  lemma {:induction false} KeysLeadAfterAnyRun(env: Env, events: seq<Event>)
    ensures KeysLead(Run(env, events))
  {
    if events != [] {
      var n := |events| - 1;
      KeysLeadAfterAnyRun(env, events[..n]);
      StepLeads(env, Run(env, events[..n]), events[n]);
    }
  }
}

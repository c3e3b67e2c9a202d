/** What `rebuildBestChainIndex` selects, defined on the SET of stored blocks: for every block the best
    continuation, and from the genesis candidates the chain that is read off. */
module BestChain {
  import opened Options
  import opened Text
  import opened Blocks

  const MAX_CHAIN_DEPTH := 20000

  /** One hash names one block, and every block is a real one. */
  ghost predicate WellStored(store: set<Block>) {
    && (forall b <- store :: b.number > 0 && b.hash != "")
    && (forall b <- store, c <- store :: b.hash == c.hash ==> b == c)
  }

  ghost function Children(store: set<Block>, b: Block): set<Block> {
    set c | c in store && Connects(c, b)
  }

  ghost function Above(store: set<Block>, b: Block): set<Block> {
    set c | c in store && c.number > b.number
  }

  lemma FewerAbove(store: set<Block>, b: Block, c: Block)
    requires c in Children(store, b)
    ensures |Above(store, c)| < |Above(store, b)|
  {
    assert Above(store, c) <= Above(store, b) - {c};
    SubsetSize(Above(store, c), Above(store, b) - {c});
  }

  lemma Witness<T>(s: set<T>) returns (x: T)
    requires s != {}
    ensures x in s
  {
    x :| x in s;
  }

  lemma SubsetSize<T>(a: set<T>, b: set<T>)
    requires a <= b
    ensures |a| <= |b|
  {
    assert b == a + (b - a);
  }

  /** The best continuation of a block: how many blocks, the number of its last block, and the next one. */
  datatype Plan = Plan(length: nat, tip: int, child: Option<Block>)

  predicate Beats(a: Block, p: Plan, b: Block, q: Plan) {
    if p.length != q.length then p.length > q.length
    else if p.tip != q.tip then p.tip > q.tip
    else PreferVariant(a, b)
  }

  ghost predicate IsFavourite(c: Block, kids: set<Block>, plans: map<Block, Plan>)
    requires kids <= plans.Keys
  {
    c in kids && forall d <- kids :: d == c || Beats(c, plans[c], d, plans[d])
  }

  lemma BeatsTransitive(a: Block, p: Plan, b: Block, q: Plan, c: Block, r: Plan)
    requires b.number > 0 && c.number > 0
    requires Beats(a, p, b, q) && Beats(b, q, c, r)
    ensures Beats(a, p, c, r)
  {
    if Less(a.hash, b.hash) && Less(b.hash, c.hash) {
      LessTransitive(a.hash, b.hash, c.hash);
    }
  }

  lemma BeatsTotal(a: Block, p: Plan, b: Block, q: Plan)
    requires a.number > 0 && b.number > 0 && a.hash != b.hash
    ensures Beats(a, p, b, q) != Beats(b, q, a, p)
  {
    LessTotal(a.hash, b.hash);
    if Less(a.hash, b.hash) && Less(b.hash, a.hash) {
      LessTransitive(a.hash, b.hash, a.hash);
      LessIrreflexive(a.hash);
    }
  }

  lemma FavouriteExists(kids: set<Block>, plans: map<Block, Plan>)
    requires WellStored(kids) && kids != {} && kids <= plans.Keys
    ensures exists c :: IsFavourite(c, kids, plans)
  {
    var a :| a in kids;
    var rest := kids - {a};
    if rest == {} {
      assert kids == {a};
      assert IsFavourite(a, kids, plans);
    } else {
      FavouriteExists(rest, plans);
      var c :| IsFavourite(c, rest, plans);
      BeatsTotal(a, plans[a], c, plans[c]);
      if Beats(a, plans[a], c, plans[c]) {
        forall d <- kids ensures d == a || Beats(a, plans[a], d, plans[d]) {
          if d != a && d != c { BeatsTransitive(a, plans[a], c, plans[c], d, plans[d]); }
        }
        assert IsFavourite(a, kids, plans);
      } else {
        assert IsFavourite(c, kids, plans);
      }
    }
  }

  lemma FavouriteUnique(kids: set<Block>, plans: map<Block, Plan>, c: Block, d: Block)
    requires WellStored(kids) && kids <= plans.Keys
    requires IsFavourite(c, kids, plans) && IsFavourite(d, kids, plans)
    ensures c == d
  {
    if c != d { BeatsTotal(c, plans[c], d, plans[d]); }
  }

  /** Between continuations of equal length and tip the favourite has more records, or as many and the smaller hash. */
  lemma FavouriteOutranks(kids: set<Block>, plans: map<Block, Plan>, c: Block, d: Block)
    requires WellStored(kids) && kids <= plans.Keys && IsFavourite(c, kids, plans) && d in kids && d != c
    requires plans[c].length == plans[d].length && plans[c].tip == plans[d].tip
    ensures Outranks(c, d)
  {
    PreferIsRank(c, d);
  }

  ghost function Favourite(kids: set<Block>, plans: map<Block, Plan>): (c: Block)
    requires WellStored(kids) && kids != {} && kids <= plans.Keys
    ensures IsFavourite(c, kids, plans)
  {
    FavouriteExists(kids, plans);
    var c :| IsFavourite(c, kids, plans);
    c
  }

  ghost function Best(store: set<Block>, b: Block): (p: Plan)
    requires WellStored(store) && b in store
    ensures p.child.Some? ==> p.child.value in Children(store, b)
    decreases |Above(store, b)|
  {
    var kids := Children(store, b);
    if kids == {} then Plan(1, b.number, None)
    else
      var plans := map c | c in kids :: (FewerAbove(store, b, c); Best(store, c));
      var c := Favourite(kids, plans);
      Plan(plans[c].length + 1, plans[c].tip, Some(c))
  }

  ghost function Plans(store: set<Block>): map<Block, Plan>
    requires WellStored(store)
  {
    map b | b in store :: Best(store, b)
  }

  /** A table of plans in which each block's plan extends the plan of its favourite child. */
  ghost predicate Solves(store: set<Block>, plans: map<Block, Plan>) {
    && plans.Keys == store
    && forall b {:trigger Solved(store, plans, b)} :: b in store ==> Solved(store, plans, b)
  }

  ghost predicate Solved(store: set<Block>, plans: map<Block, Plan>, b: Block)
    requires plans.Keys == store && b in store
  {
    if Children(store, b) == {} then plans[b] == Plan(1, b.number, None)
    else
      && plans[b].child.Some?
      && var c := plans[b].child.value;
      && IsFavourite(c, Children(store, b), plans)
      && plans[b].length == plans[c].length + 1 && plans[b].tip == plans[c].tip
  }

  lemma PlansSolve(store: set<Block>)
    requires WellStored(store)
    ensures Solves(store, Plans(store))
  {
    forall b <- store ensures Solved(store, Plans(store), b) {
      var kids := Children(store, b);
      if kids != {} {
        var plans := map c | c in kids :: (FewerAbove(store, b, c); Best(store, c));
        var c := Favourite(kids, plans);
        assert forall d <- kids :: plans[d] == Plans(store)[d];
        assert IsFavourite(c, kids, Plans(store));
      }
    }
  }

  /** There is only one such table: what the store contains decides every length, tip and best child. */
  lemma {:induction false} SolutionUnique(store: set<Block>, p: map<Block, Plan>, q: map<Block, Plan>, b: Block)
    requires WellStored(store) && Solves(store, p) && Solves(store, q) && b in store
    ensures p[b] == q[b]
    decreases |Above(store, b)|
  {
    assert Solved(store, p, b) && Solved(store, q, b);
    var kids := Children(store, b);
    if kids != {} {
      forall c <- kids ensures p[c] == q[c] {
        FewerAbove(store, b, c);
        SolutionUnique(store, p, q, c);
      }
      var c, d := p[b].child.value, q[b].child.value;
      assert IsFavourite(d, kids, p);
      FavouriteUnique(kids, p, c, d);
    }
  }

  /** The chain read off the best-child map. */
  ghost function ReadOff(store: set<Block>, plans: map<Block, Plan>, b: Block): (chain: seq<Block>)
    requires Solves(store, plans) && b in store
    decreases |Above(store, b)|
  {
    assert Solved(store, plans, b);
    match plans[b].child
    case None => [b]
    case Some(c) => FewerAbove(store, b, c); [b] + ReadOff(store, plans, c)
  }

  /** The blocks with the first block's number and no predecessor; failing those, the canonical first block. */
  ghost function GenesisCandidates(store: set<Block>, firstBlockId: int, fallback: Block): set<Block> {
    var found := set b | b in store && b.number == firstBlockId && b.previousId <= 0;
    if found != {} then found else if fallback.number > 0 then {fallback} else {}
  }

  ghost function FullChain(store: set<Block>, candidates: set<Block>): seq<Block>
    requires WellStored(store) && candidates <= store
  {
    PlansSolve(store);
    if candidates == {} then [] else ReadOff(store, Plans(store), Favourite(candidates, Plans(store)))
  }

  function Cut(chain: seq<Block>): seq<Block> {
    if |chain| <= MAX_CHAIN_DEPTH then chain else chain[..MAX_CHAIN_DEPTH]
  }

  lemma CutAtLimit(chain: seq<Block>)
    ensures Cut(chain) <= chain && |Cut(chain)| == if |chain| < 20000 then |chain| else 20000
  {
  }

  // ---------------------------------------------------------------- optimality

  /** A hash-linked path of stored blocks. */
  ghost predicate IsPath(store: set<Block>, path: seq<Block>) {
    && path != []
    && (forall b <- path :: b in store)
    && (forall i :: 0 <= i < |path| - 1 ==> Connects(path[i + 1], path[i]))
  }

  function Last(path: seq<Block>): Block
    requires path != []
  {
    path[|path| - 1]
  }

  /** Longer first, then the higher tip. */
  predicate NoBetter(length: nat, tip: int, bestLength: nat, bestTip: int) {
    length < bestLength || (length == bestLength && tip <= bestTip)
  }

  lemma {:induction false} ReadOffIsPath(store: set<Block>, plans: map<Block, Plan>, b: Block)
    requires Solves(store, plans) && b in store
    ensures
      var chain := ReadOff(store, plans, b);
      && IsPath(store, chain) && chain[0] == b
      && |chain| == plans[b].length
      && Last(chain).number == plans[b].tip
    decreases |Above(store, b)|
  {
    assert Solved(store, plans, b);
    if Children(store, b) != {} {
      var c := plans[b].child.value;
      FewerAbove(store, b, c);
      ReadOffIsPath(store, plans, c);
    }
  }

  lemma {:induction false} ReadOffFollowsPlans(store: set<Block>, plans: map<Block, Plan>, b: Block, k: nat)
    requires Solves(store, plans) && b in store && k < |ReadOff(store, plans, b)|
    ensures
      var chain := ReadOff(store, plans, b);
      && chain[k] in store
      && plans[chain[k]].child == if k + 1 < |chain| then Some(chain[k + 1]) else None
    decreases k
  {
    assert Solved(store, plans, b);
    ReadOffIsPath(store, plans, b);
    if plans[b].child.Some? {
      var c := plans[b].child.value;
      ReadOffIsPath(store, plans, c);
      if k > 0 { ReadOffFollowsPlans(store, plans, c, k - 1); }
    }
  }

  lemma PathTail(store: set<Block>, path: seq<Block>)
    requires IsPath(store, path) && |path| > 1
    ensures IsPath(store, path[1..]) && Connects(path[1], path[0])
  {
    assert Connects(path[0 + 1], path[0]);
    forall i | 0 <= i < |path[1..]| - 1 ensures Connects(path[1..][i + 1], path[1..][i]) {
      assert Connects(path[i + 1 + 1], path[i + 1]);
    }
  }

  lemma {:induction false} PlanIsBest(store: set<Block>, plans: map<Block, Plan>, path: seq<Block>)
    requires Solves(store, plans) && IsPath(store, path)
    ensures NoBetter(|path|, Last(path).number, plans[path[0]].length, plans[path[0]].tip)
    decreases |path|
  {
    var b := path[0];
    assert Solved(store, plans, b);
    ReadOffIsPath(store, plans, b);
    if |path| > 1 {
      PathTail(store, path);
      PlanIsBest(store, plans, path[1..]);
      var c, d := path[1], plans[b].child.value;
      assert c in Children(store, b);
      assert c == d || Beats(d, plans[d], c, plans[c]);
    } else if Children(store, b) != {} {
      ReadOffIsPath(store, plans, plans[b].child.value);
    }
  }

  /** Numbers strictly rise along a path, so no block and no hash is met twice. */
  lemma {:induction false} PathRises(store: set<Block>, path: seq<Block>, i: nat, j: nat)
    requires WellStored(store) && IsPath(store, path) && i < j < |path|
    ensures path[i].number < path[j].number && path[i].hash != path[j].hash
  {
    assert Connects(path[j - 1 + 1], path[j - 1]);
    if i < j - 1 { PathRises(store, path, i, j - 1); }
    assert path[i] in store && path[j] in store;
  }

  /** The selected chain starts at a genesis candidate and is a longest hash-linked path from any of
      them; among the longest its last number is the greatest. */
  lemma FullChainIsLongest(store: set<Block>, candidates: set<Block>, path: seq<Block>)
    requires WellStored(store) && candidates <= store
    requires IsPath(store, path) && path[0] in candidates
    ensures
      var chain := FullChain(store, candidates);
      && IsPath(store, chain) && chain[0] in candidates
      && NoBetter(|path|, Last(path).number, |chain|, Last(chain).number)
  {
    PlansSolve(store);
    var plans := Plans(store);
    var g := Favourite(candidates, plans);
    ReadOffIsPath(store, plans, g);
    PlanIsBest(store, plans, path);
    assert g == path[0] || Beats(g, plans[g], path[0], plans[path[0]]);
  }
}

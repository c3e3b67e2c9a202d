/** The in-memory block index and active chain (src/chain.h, src/chain.cpp): blocks linked by `pprev`, skip pointers
    beside them, and the vector of the active chain. */
module ChainIndex {
  import opened Limbs

  // ---------------------------------------------------------------- skip heights

  /** `n & (n - 1)`. */
  function InvertLowestOne(n: nat): nat {
    if n == 0 then 0 else BitAnd(n, n - 1)
  }

  /** The lowest set bit of 2^k (2m + 1) goes, the rest stays. */
  lemma {:induction false} InvertClearsLowest(m: nat, k: nat)
    ensures Pow2(k) * (2 * m + 1) > 0
    ensures InvertLowestOne(Pow2(k) * (2 * m + 1)) == Pow2(k) * (2 * m)
    decreases k
  {
    if k == 0 {
      InvertOdd(m);
    } else {
      var p := Pow2(k - 1);
      InvertClearsLowest(m, k - 1);
      InvertTwice(p * (2 * m + 1), p * (2 * m), Pow2(k) * (2 * m + 1), Pow2(k) * (2 * m)) by {
        TwiceProduct(p, 2 * m + 1);
        TwiceProduct(p, 2 * m);
      }
    }
  }

  lemma InvertOdd(m: nat)
    ensures InvertLowestOne(2 * m + 1) == 2 * m
  {
    AndSelf(m);
  }

  lemma InvertTwice(n: int, r: int, n': int, r': int)
    requires n > 0 && InvertLowestOne(n) == r && n' == 2 * n && r' == 2 * r
    ensures n' > 0 && InvertLowestOne(n') == r'
  {
    InvertDouble(n);
  }

  lemma TwiceProduct(p: int, x: int)
    ensures (2 * p) * x == 2 * (p * x)
  {
  }

  lemma InvertDouble(n: nat)
    requires n > 0
    ensures InvertLowestOne(2 * n) == 2 * InvertLowestOne(n)
  {
    assert (2 * n) / 2 == n && (2 * n - 1) / 2 == n - 1;
  }

  lemma {:induction false} AndSelf(x: nat)
    ensures BitAnd(x, x) == x
  {
    if x > 0 { AndSelf(x / 2); }
  }

  lemma {:induction false} AndAtMost(x: nat, y: nat)
    ensures BitAnd(x, y) <= y
    decreases x + y
  {
    if x != 0 || y != 0 { AndAtMost(x / 2, y / 2); }
  }

  function SkipHeight(height: int): (h: nat)
    ensures height > 0 ==> h < height
  {
    if height < 2 then 0
    else if height % 2 == 1 then
      AndAtMost(height - 1, height - 2);
      var inner := InvertLowestOne(height - 1);
      if inner > 0 then AndAtMost(inner, inner - 1); InvertLowestOne(inner) + 1 else InvertLowestOne(inner) + 1
    else
      AndAtMost(height, height - 1);
      InvertLowestOne(height)
  }

  /** From an even height the skip clears the lowest set bit. */
  lemma SkipEven(m: nat, k: nat)
    requires k > 0
    ensures SkipHeight(Pow2(k) * (2 * m + 1)) == Pow2(k) * (2 * m)
  {
    InvertClearsLowest(m, k);
    TwiceProduct(Pow2(k - 1), 2 * m + 1);
  }

  /** From an odd height it clears the two lowest set bits of the number below, and adds one. */
  lemma SkipOdd(height: int, q: nat, j: nat, m: nat, k: nat)
    requires j > 0 && height == Pow2(j) * (2 * q + 1) + 1 && Pow2(j) * (2 * q) == Pow2(k) * (2 * m + 1)
    ensures SkipHeight(height) == Pow2(k) * (2 * m) + 1
  {
    InvertClearsLowest(q, j);
    InvertClearsLowest(m, k);
    TwiceProduct(Pow2(j - 1), 2 * q + 1);
    SkipTwice(height, Pow2(j - 1) * (2 * q + 1), Pow2(j) * (2 * q), Pow2(k) * (2 * m));
  }

  lemma SkipTwice(height: int, half: nat, inner: nat, r: nat)
    requires half > 0 && height == 2 * half + 1 && InvertLowestOne(2 * half) == inner && InvertLowestOne(inner) == r
    ensures SkipHeight(height) == r + 1
  {
  }

  lemma SkipOddPower(j: nat)
    requires j > 0
    ensures SkipHeight(Pow2(j) + 1) == 1
  {
    InvertClearsLowest(0, j);
    TimesOne(Pow2(j));
    SkipTwice(Pow2(j) + 1, Pow2(j - 1), 0, 0);
  }

  lemma TimesOne(p: int)
    ensures p * (2 * 0 + 1) == p && p * (2 * 0) == 0
  {
  }

  // ---------------------------------------------------------------- the block index

  class BlockIndex {
    var pprev: BlockIndex?
    var pskip: BlockIndex?
    var nHeight: int
    var hash: nat

    /** `GetAncestor`: the block at the given height among the ancestors, found over skip pointers. */
    method GetAncestor(height: int, ghost ix: set<BlockIndex>) returns (r: BlockIndex?)
      requires this in ix && Linked(ix) && Skips(ix)
      ensures height < 0 || height > nHeight ==> r == null
      ensures 0 <= height <= nHeight ==> r == Ancestor(ix, this, height)
    {
      if height > nHeight || height < 0 {
        return null;
      }
      var walk := this;
      var heightWalk := nHeight;
      while heightWalk > height
        invariant walk in ix && walk.nHeight == heightWalk && height <= heightWalk
        invariant Ancestor(ix, walk, height) == Ancestor(ix, this, height)
        decreases heightWalk
      {
        var skip := SkipHeight(heightWalk);
        var skipPrev := SkipHeight(heightWalk - 1);
        if walk.pskip != null &&
           (skip == height || (skip > height && !(skipPrev < skip - 2 && skipPrev >= height)))
        {
          assert SkipsRight(ix, walk);
          AncestorOfAncestor(ix, walk, skip, height);
          walk := walk.pskip;
          heightWalk := skip;
        } else {
          assert LinkedAt(ix, walk);
          walk := walk.pprev;
          heightWalk := heightWalk - 1;
        }
      }
      return walk;
    }

    /** `BuildSkip`: the skip pointer joins the others and is the ancestor at the skip height. */
    method BuildSkip(ghost ix: set<BlockIndex>)
      requires this in ix && Linked(ix) && Skips(ix)
      modifies this`pskip
      ensures Linked(ix) && Skips(ix)
      ensures pprev != null ==> nHeight > 0 && pskip == Ancestor(ix, this, SkipHeight(nHeight))
      ensures pprev == null ==> pskip == old(pskip)
    {
      assert LinkedAt(ix, this);
      if pprev != null {
        pskip := pprev.GetAncestor(SkipHeight(nHeight), ix);
        assert Linked(ix);
        forall b | b in ix ensures SkipsRight(ix, b) {
          if b != this { assert old(SkipsRight(ix, b)); }
        }
      }
    }
  }

  /** Heights fall by one along `pprev` and end at zero. */
  ghost predicate Linked(ix: set<BlockIndex>)
    reads ix`pprev, ix`nHeight
  {
    forall b {:trigger LinkedAt(ix, b)} :: b in ix ==> LinkedAt(ix, b)
  }

  ghost predicate LinkedAt(ix: set<BlockIndex>, b: BlockIndex)
    requires b in ix
    reads ix`pprev, ix`nHeight
  {
    && b.nHeight >= 0
    && (b.pprev == null <==> b.nHeight == 0)
    && (b.pprev != null ==> b.pprev in ix && b.pprev.nHeight == b.nHeight - 1)
  }

  /** The plain walk along `pprev`. */
  ghost function Ancestor(ix: set<BlockIndex>, b: BlockIndex, height: int): (a: BlockIndex)
    requires Linked(ix) && b in ix && 0 <= height <= b.nHeight
    reads ix`pprev, ix`nHeight
    ensures a in ix && a.nHeight == height
    decreases b.nHeight
  {
    assert LinkedAt(ix, b);
    if b.nHeight == height then b else Ancestor(ix, b.pprev, height)
  }

  /** Every skip pointer that is set leads to the ancestor at the skip height. */
  ghost predicate Skips(ix: set<BlockIndex>)
    requires Linked(ix)
    reads ix
  {
    forall b {:trigger SkipsRight(ix, b)} :: b in ix ==> SkipsRight(ix, b)
  }

  ghost predicate SkipsRight(ix: set<BlockIndex>, b: BlockIndex)
    requires Linked(ix) && b in ix
    reads ix
  {
    assert LinkedAt(ix, b);
    b.pskip != null ==> SkipHeight(b.nHeight) <= b.nHeight && b.pskip == Ancestor(ix, b, SkipHeight(b.nHeight))
  }

  lemma {:induction false} AncestorOfAncestor(ix: set<BlockIndex>, b: BlockIndex, middle: int, height: int)
    requires Linked(ix) && b in ix && 0 <= height <= middle <= b.nHeight
    ensures Ancestor(ix, Ancestor(ix, b, middle), height) == Ancestor(ix, b, height)
    decreases b.nHeight
  {
    assert LinkedAt(ix, b);
    if middle < b.nHeight { AncestorOfAncestor(ix, b.pprev, middle, height); }
  }

  lemma {:induction false} AncestorInLarger(ix: set<BlockIndex>, more: set<BlockIndex>, b: BlockIndex, height: int)
    requires Linked(ix) && Linked(more) && ix <= more && b in ix && 0 <= height <= b.nHeight
    ensures Ancestor(more, b, height) == Ancestor(ix, b, height)
    decreases b.nHeight
  {
    assert LinkedAt(ix, b) && LinkedAt(more, b);
    if height < b.nHeight { AncestorInLarger(ix, more, b.pprev, height); }
  }

  /** A new block above an old one, its skip pointer still unset, extends the index; BuildSkip then completes it. */
  lemma AppendKeeps(ix: set<BlockIndex>, b: BlockIndex)
    requires Linked(ix) && Skips(ix) && b !in ix
    requires if b.pprev == null then b.nHeight == 0 else b.pprev in ix && b.nHeight == b.pprev.nHeight + 1
    requires b.pskip == null
    ensures Linked(ix + {b}) && Skips(ix + {b})
  {
    var more := ix + {b};
    forall c | c in more ensures LinkedAt(more, c) {
      if c in ix { assert LinkedAt(ix, c); } else if b.pprev != null { assert LinkedAt(ix, b.pprev); }
    }
    forall c | c in more ensures SkipsRight(more, c) {
      if c in ix {
        assert SkipsRight(ix, c) && LinkedAt(ix, c);
        if c.pskip != null { AncestorInLarger(ix, more, c, SkipHeight(c.nHeight)); }
      }
    }
  }

  // ---------------------------------------------------------------- the active chain

  /** The ancestors of the tip from height zero up: what a full rebuild of the vector gives. */
  ghost function PathTo(ix: set<BlockIndex>, tip: BlockIndex): (path: seq<BlockIndex?>)
    requires Linked(ix) && tip in ix
    reads ix`pprev, ix`nHeight
    ensures |path| == tip.nHeight + 1
    ensures forall i :: 0 <= i <= tip.nHeight ==> path[i] == Ancestor(ix, tip, i)
    decreases tip.nHeight
  {
    assert LinkedAt(ix, tip);
    if tip.pprev == null then [tip] else PathTo(ix, tip.pprev) + [tip]
  }

  class Chain {
    var vChain: seq<BlockIndex?>

    /** The vector is empty or the path to its last block. */
    ghost predicate Consistent(ix: set<BlockIndex>)
      requires Linked(ix)
      reads this, ix`pprev, ix`nHeight
    {
      vChain != [] ==>
        var tip := vChain[|vChain| - 1];
        tip != null && tip in ix && vChain == PathTo(ix, tip)
    }

    function At(height: int): BlockIndex?
      reads this
    {
      if height < 0 || height >= |vChain| then null else vChain[height]
    }

    function Height(): int
      reads this
    {
      |vChain| - 1
    }

    function Tip(): BlockIndex?
      reads this
    {
      if |vChain| > 0 then vChain[|vChain| - 1] else null
    }

    predicate Contains(b: BlockIndex)
      reads this, b`nHeight
    {
      At(b.nHeight) == b
    }

    function Next(b: BlockIndex): BlockIndex?
      reads this, b`nHeight
    {
      if Contains(b) then At(b.nHeight + 1) else null
    }

    /** `Next` leads from each block of the chain to the one whose parent it is, and from the tip and from blocks off the
        chain to null. */
    lemma NextIsChild(b: BlockIndex, ix: set<BlockIndex>)
      requires Linked(ix) && Consistent(ix) && b in ix
      ensures Next(b) == null <==> !Contains(b) || b == Tip()
      ensures Next(b) != null ==> Contains(b) && Next(b) in ix && Contains(Next(b)) && Next(b).pprev == b
    {
      if Contains(b) && b.nHeight + 1 < |vChain| {
        var tip := vChain[|vChain| - 1];
        AncestorOfAncestor(ix, tip, b.nHeight + 1, b.nHeight);
        assert LinkedAt(ix, Next(b));
      }
    }

    /** `vChain.resize(n)`. */
    method Resize(n: nat)
      modifies this
      ensures |vChain| == n
      ensures forall i :: 0 <= i < n ==> vChain[i] == if i < |old(vChain)| then old(vChain)[i] else null
    {
      vChain := if |vChain| >= n then vChain[..n] else vChain + seq(n - |vChain|, _ => null);
    }

    /** `SetTip`: though it stops at the first entry that already matches, the vector is the full path. */
    method SetTip(tip: BlockIndex?, ghost ix: set<BlockIndex>)
      requires Linked(ix) && Consistent(ix) && (tip != null ==> tip in ix)
      modifies this
      ensures tip == null ==> vChain == []
      ensures tip != null ==> vChain == PathTo(ix, tip)
      ensures Consistent(ix)
    {
      if tip == null {
        vChain := [];
        return;
      }
      ghost var before := vChain;
      assert LinkedAt(ix, tip);
      Resize(tip.nHeight + 1);
      FillDown(tip, ix, before);
    }

    /** The loop of `SetTip`, from the tip down to the first entry that matches. */
    method FillDown(tip: BlockIndex, ghost ix: set<BlockIndex>, ghost before: seq<BlockIndex?>)
      requires Linked(ix) && tip in ix && tip.nHeight >= 0 && |vChain| == tip.nHeight + 1
      requires forall i :: 0 <= i < |vChain| ==> vChain[i] == if i < |before| then before[i] else null
      requires before != [] ==>
        var last := before[|before| - 1];
        last != null && last in ix && before == PathTo(ix, last)
      modifies this
      ensures vChain == PathTo(ix, tip)
    {
      var walk: BlockIndex? := tip;
      ghost var h := tip.nHeight;
      while walk != null && vChain[walk.nHeight] != walk
        invariant |vChain| == tip.nHeight + 1 && -1 <= h <= tip.nHeight
        invariant if h < 0 then walk == null else walk == Ancestor(ix, tip, h)
        invariant forall i :: h < i < |vChain| ==> vChain[i] == Ancestor(ix, tip, i)
        invariant forall i :: 0 <= i <= h ==> vChain[i] == if i < |before| then before[i] else null
        decreases h + 1
      {
        assert LinkedAt(ix, walk);
        vChain := vChain[walk.nHeight := walk];
        if h > 0 { AncestorOfAncestor(ix, tip, h, h - 1); }
        walk := walk.pprev;
        h := h - 1;
      }
      if walk != null { OldEntries(ix, before, h, tip, walk); }
      IsPathTo(ix, tip, vChain);
    }

    /** `FindFork`: the highest block both on the chain and in the given block's ancestry, or null. */
    method FindFork(b: BlockIndex?, ghost ix: set<BlockIndex>) returns (fork: BlockIndex?)
      requires Linked(ix) && Skips(ix) && Consistent(ix) && (b != null ==> b in ix)
      ensures b == null ==> fork == null
      ensures b != null && fork != null ==>
        fork in ix && Contains(fork) && fork.nHeight <= b.nHeight && Ancestor(ix, b, fork.nHeight) == fork
      ensures b != null ==>
        forall h :: 0 <= h <= b.nHeight && Contains(Ancestor(ix, b, h)) ==> fork != null && h <= fork.nHeight
    {
      if b == null {
        return null;
      }
      assert LinkedAt(ix, b);
      fork := b;
      ghost var top := b.nHeight;
      if b.nHeight > Height() {
        fork := b.GetAncestor(Height(), ix);
        top := Height();
      }
      while fork != null && !Contains(fork)
        invariant -1 <= top <= b.nHeight
        invariant if top < 0 then fork == null else fork == Ancestor(ix, b, top)
        invariant forall h :: top < h <= b.nHeight ==> !Contains(Ancestor(ix, b, h))
        decreases top + 1
      {
        assert LinkedAt(ix, fork);
        if top > 0 { AncestorOfAncestor(ix, b, top, top - 1); }
        fork := fork.pprev;
        top := top - 1;
      }
    }

    /** The ancestor at a height, from the vector if the block is on the chain, else over skip pointers. */
    method StepBack(b: BlockIndex, height: int, ghost ix: set<BlockIndex>) returns (r: BlockIndex?)
      requires Linked(ix) && Skips(ix) && Consistent(ix) && b in ix && 0 <= height <= b.nHeight
      ensures r == Ancestor(ix, b, height)
    {
      if Contains(b) {
        OnChain(ix, b, height);
        r := At(height);
      } else {
        r := b.GetAncestor(height, ix);
      }
    }

    /** `GetLocator`: the hashes of the ancestors of the given block, or of the tip, at exactly the heights of
        LocatorHeights, whether they are found on the chain vector or over skip pointers. */
    method GetLocator(b: BlockIndex?, ghost ix: set<BlockIndex>) returns (have: seq<nat>)
      requires Linked(ix) && Skips(ix) && Consistent(ix) && (b != null ==> b in ix)
      ensures
        var start := if b != null then b else Tip();
        if start == null then have == []
        else start in ix && start.nHeight >= 0 && AreHashes(ix, start, have, LocatorHeights(start.nHeight, 1, 0))
    {
      var start := if b == null then Tip() else b;
      if start == null {
        return [];
      }
      assert LinkedAt(ix, start);
      have := LocatorFrom(start, ix);
    }

    method LocatorFrom(start: BlockIndex, ghost ix: set<BlockIndex>) returns (have: seq<nat>)
      requires Linked(ix) && Skips(ix) && Consistent(ix) && start in ix && start.nHeight >= 0
      ensures AreHashes(ix, start, have, LocatorHeights(start.nHeight, 1, 0))
    {
      have := [];
      var walk: BlockIndex? := start;
      ghost var done: seq<nat> := [];
      var step, height := 1, start.nHeight;
      while walk != null
        invariant step >= 1 && 0 <= height <= start.nHeight && walk == Ancestor(ix, start, height)
        invariant LocatorHeights(start.nHeight, 1, 0) == done + LocatorHeights(height, step, |have|)
        invariant AreHashes(ix, start, have, done)
        decreases height
      {
        have := have + [walk.hash];
        LocatorUnfolds(done, height, step, |have| - 1);
        done := done + [height];
        if walk.nHeight == 0 {
          return;
        }
        var below := if walk.nHeight - step > 0 then walk.nHeight - step else 0;
        AncestorOfAncestor(ix, start, height, below);
        walk := StepBack(walk, below, ix);
        height := below;
        if |have| > 10 {
          step := step * 2;
        }
      }
    }

    lemma OnChain(ix: set<BlockIndex>, b: BlockIndex, height: int)
      requires Linked(ix) && Consistent(ix) && b in ix && Contains(b) && 0 <= height <= b.nHeight
      ensures At(height) == Ancestor(ix, b, height)
    {
      var tip := vChain[|vChain| - 1];
      AncestorOfAncestor(ix, tip, b.nHeight, height);
    }
  }

  lemma IsPathTo(ix: set<BlockIndex>, tip: BlockIndex, path: seq<BlockIndex?>)
    requires Linked(ix) && tip in ix && |path| == tip.nHeight + 1
    requires forall i :: 0 <= i <= tip.nHeight ==> path[i] == Ancestor(ix, tip, i)
    ensures path == PathTo(ix, tip)
  {
  }

  /** In a consistent chain an entry that matches has its own ancestors, the new tip's, below it. */
  lemma OldEntries(ix: set<BlockIndex>, before: seq<BlockIndex?>, h: int, tip: BlockIndex, walk: BlockIndex)
    requires Linked(ix) && tip in ix && 0 <= h <= tip.nHeight && walk == Ancestor(ix, tip, h)
    requires h < |before| && before[h] == walk
    requires before[|before| - 1] != null && before[|before| - 1] in ix && before == PathTo(ix, before[|before| - 1])
    ensures forall i :: 0 <= i <= h ==> before[i] == Ancestor(ix, tip, i)
  {
    forall i | 0 <= i <= h ensures before[i] == Ancestor(ix, tip, i) {
      AncestorOfAncestor(ix, before[|before| - 1], h, i);
      AncestorOfAncestor(ix, tip, h, i);
    }
  }

  // ---------------------------------------------------------------- locator heights

  /** Ten or eleven steps of one, then steps that double, down to zero. */
  function LocatorHeights(height: nat, step: nat, count: nat): seq<nat>
    requires step >= 1
    decreases height
  {
    if height == 0 then [0]
    else
      [height] + LocatorHeights(if height - step > 0 then height - step else 0, if count + 1 > 10 then step * 2 else step, count + 1)
  }

  lemma LocatorUnfolds(done: seq<nat>, height: nat, step: nat, count: nat)
    requires step >= 1
    ensures height == 0 ==> done + LocatorHeights(height, step, count) == done + [height]
    ensures height > 0 ==>
      var below := if height - step > 0 then height - step else 0;
      done + LocatorHeights(height, step, count)
        == (done + [height]) + LocatorHeights(below, if count + 1 > 10 then step * 2 else step, count + 1)
  {
  }

  ghost predicate AreHashes(ix: set<BlockIndex>, start: BlockIndex, have: seq<nat>, heights: seq<nat>)
    requires Linked(ix) && start in ix
    reads ix`pprev, ix`nHeight, ix`hash
  {
    && |have| == |heights|
    && forall i :: 0 <= i < |have| ==> heights[i] <= start.nHeight && have[i] == Ancestor(ix, start, heights[i]).hash
  }

  /** The heights start at the block's own, strictly fall and end at genesis. */
  lemma {:induction false} LocatorHeightsFall(height: nat, step: nat, count: nat)
    requires step >= 1
    ensures
      var hs := LocatorHeights(height, step, count);
      && hs != [] && hs[0] == height && hs[|hs| - 1] == 0
      && forall i, j :: 0 <= i < j < |hs| ==> hs[i] > hs[j]
    decreases height
  {
    if height > 0 {
      var next := if height - step > 0 then height - step else 0;
      LocatorHeightsFall(next, if count + 1 > 10 then step * 2 else step, count + 1);
    }
  }

  /** The step after entry i: one up to the eleventh, then doubling. */
  function Gap(i: nat): nat {
    if i <= 10 then 1 else Pow2(i - 10)
  }

  /** Each height is the gap below the one before, or zero. */
  lemma {:induction false} LocatorGaps(height: nat, count: nat, i: nat)
    requires i + 1 < |LocatorHeights(height, Gap(count), count)|
    ensures
      var hs, gap := LocatorHeights(height, Gap(count), count), Gap(count + i);
      hs[i + 1] == if hs[i] > gap then hs[i] - gap else 0
    decreases height
  {
    var next := if height - Gap(count) > 0 then height - Gap(count) else 0;
    assert height > 0;
    GapDoubles(count);
    var tail := LocatorHeights(next, Gap(count + 1), count + 1);
    assert LocatorHeights(height, Gap(count), count) == [height] + tail;
    if i == 0 {
      LocatorHeightsFall(next, Gap(count + 1), count + 1);
    } else {
      LocatorGaps(next, count + 1, i - 1);
    }
  }

  lemma GapDoubles(count: nat)
    ensures Gap(count + 1) == if count + 1 > 10 then Gap(count) * 2 else Gap(count)
  {
    if count == 10 {
      assert Pow2(0) == 1 && Pow2(1) == 2 * Pow2(0);
    } else if count > 10 {
      assert Pow2(count + 1 - 10) == 2 * Pow2(count - 10);
    }
  }
}

/** Records and blocks as the node stores them, and the pure comparisons that the block store uses to
    choose between competing blocks (src/blockdb.cpp). */
module Blocks {
  import opened Text

  datatype Kind =
    | JoinNetwork | UpdateName | IssueCurrency | TransferCurrency | Vote | CarryForward | HeartBeat | OtherKind

  datatype Record = Record(
    kind: Kind,
    hash: string,
    sender: string,
    recipient: string,
    amount: real,
    fee: real,
    name: string,
    value: string)

  datatype Block = Block(
    number: int,
    hash: string,
    previousId: int,
    previousHash: string,
    creator: string,
    records: seq<Record>)

  /** The value the program returns where it has no block: number -1 and empty texts. */
  const NoBlock := Block(-1, "", -1, "", "", [])

  /** `childConnectsToParent`. */
  predicate Connects(child: Block, parent: Block) {
    && child.number > 0 && parent.number > 0
    && child.previousId == parent.number
    && child.previousId < child.number
    && child.previousHash != "" && parent.hash != ""
    && child.previousHash == parent.hash
  }

  /** `preferBlockVariant`: more records first, then the smaller hash. */
  predicate PreferVariant(candidate: Block, current: Block) {
    if current.number <= 0 then true
    else if |candidate.records| != |current.records| then |candidate.records| > |current.records|
    else Less(candidate.hash, current.hash)
  }

  /** More records, or as many and the hash that is smaller at the first difference. */
  ghost predicate Outranks(a: Block, b: Block) {
    |a.records| > |b.records| || (|a.records| == |b.records| && exists k: nat :: LessAt(a.hash, b.hash, k))
  }

  lemma PreferIsRank(a: Block, b: Block)
    requires b.number > 0
    ensures PreferVariant(a, b) <==> Outranks(a, b)
  {
    LessIff(a.hash, b.hash);
  }

  function Lookup(m: map<string, int>, key: string, default: int): int {
    if key in m then m[key] else default
  }

  /** `preferChainChild`: longer continuation, then higher tip, then `preferBlockVariant`. */
  predicate PreferChild(candidate: Block, current: Block, lengths: map<string, int>, tips: map<string, int>) {
    if current.number <= 0 then true
    else
      var l, m := Lookup(lengths, candidate.hash, 1), Lookup(lengths, current.hash, 1);
      var t, u := Lookup(tips, candidate.hash, candidate.number), Lookup(tips, current.hash, current.number);
      if l != m then l > m
      else if t != u then t > u
      else PreferVariant(candidate, current)
  }

  /** With the two maps fixed, `preferChainChild` is a strict total order on real blocks with distinct
      hashes: irreflexive, total and transitive. */
  lemma PreferChildStrictTotalOrder(a: Block, b: Block, c: Block, lengths: map<string, int>, tips: map<string, int>)
    requires a.number > 0 && b.number > 0 && c.number > 0
    ensures !PreferChild(a, a, lengths, tips)
    ensures a.hash != b.hash ==> PreferChild(a, b, lengths, tips) != PreferChild(b, a, lengths, tips)
    ensures PreferChild(a, b, lengths, tips) && PreferChild(b, c, lengths, tips) ==> PreferChild(a, c, lengths, tips)
  {
    LessIrreflexive(a.hash);
    LessTotal(a.hash, b.hash);
    if Less(a.hash, b.hash) && Less(b.hash, a.hash) {
      LessTransitive(a.hash, b.hash, a.hash);
    }
    if Less(a.hash, b.hash) && Less(b.hash, c.hash) {
      LessTransitive(a.hash, b.hash, c.hash);
    }
  }

  lemma PreferVariantTransitive(a: Block, b: Block, c: Block)
    requires b.number > 0 && c.number > 0 && PreferVariant(a, b) && PreferVariant(b, c)
    ensures PreferVariant(a, c)
  {
    if Less(a.hash, b.hash) && Less(b.hash, c.hash) { LessTransitive(a.hash, b.hash, c.hash); }
  }

  lemma PreferVariantTotal(a: Block, b: Block)
    requires a.number > 0 && b.number > 0 && a.hash != b.hash
    ensures PreferVariant(a, b) != PreferVariant(b, a)
  {
    LessTotal(a.hash, b.hash);
    if Less(a.hash, b.hash) && Less(b.hash, a.hash) {
      LessTransitive(a.hash, b.hash, a.hash);
      LessIrreflexive(a.hash);
    }
  }
}

/** Balances by replaying the chain, and the carry-forward rewards (src/carryforward.cpp). Amounts are reals. */
module Ledger {
  import opened Options
  import opened Text
  import opened Blocks
  import opened ChainStore
  import opened BlockDatabase
  import opened ChainWalk

  // ---------------------------------------------------------------- texts and numbers

  function Decimal(n: nat): string {
    if n < 10 then [('0' as int + n) as char] else Decimal(n / 10) + [('0' as int + n % 10) as char]
  }

  predicate IsDigit(c: char) { '0' <= c <= '9' }

  function Digits(s: string): nat {
    if s == "" || !IsDigit(s[|s| - 1]) then 0
    else Digits(s[..|s| - 1]) * 10 + (s[|s| - 1] as int - '0' as int)
  }

  lemma {:induction false} DecimalBack(n: nat)
    ensures Decimal(n) != "" && Digits(Decimal(n)) == n && forall c <- Decimal(n) :: IsDigit(c)
  {
    if n >= 10 {
      DecimalBack(n / 10);
      assert Decimal(n)[..|Decimal(n)| - 1] == Decimal(n / 10);
    }
  }

  /** `std::string::find`: the first place at or after i, or the length plus one for none. */
  function FindFrom(s: string, pattern: string, i: nat): (k: nat)
    requires i <= |s|
    ensures k <= |s| ==> i <= k && k + |pattern| <= |s|
    ensures i <= k
    decreases |s| - i
  {
    if pattern <= s[i..] then i
    else if i == |s| then |s| + 1
    else FindFrom(s, pattern, i + 1)
  }

  function TakeDigits(s: string): string {
    if s != "" && IsDigit(s[0]) then [s[0]] + TakeDigits(s[1..]) else ""
  }

  function SkipBlanks(s: string): string {
    if s != "" && IsSpace(s[0]) then SkipBlanks(s[1..]) else s
  }

  /** `atol`, without the limits of long. */
  function Atol(s: string): int {
    var t := SkipBlanks(s);
    if t != "" && t[0] == '-' then 0 - Digits(TakeDigits(t[1..])) as int
    else if t != "" && t[0] == '+' then Digits(TakeDigits(t[1..]))
    else Digits(TakeDigits(t))
  }

  /** `parseCarryForwardValueLong`: the number after "key=" up to a semicolon, or -1. */
  function ParseValue(value: string, key: string): int {
    var prefix := key + "=";
    var start := FindFrom(value, prefix, 0);
    if start > |value| then -1 else SectionFrom(value, start + |prefix|)
  }

  /** The number from here to the next semicolon. */
  function SectionFrom(value: string, start: nat): int
    requires start <= |value|
  {
    ParseSection(value, start, FindFrom(value, ";", start))
  }

  function ParseSection(value: string, start: nat, end: nat): int
    requires start <= |value| && start <= end
  {
    var section := if end > |value| then value[start..] else value[start..end];
    if section == "" then -1 else Atol(section)
  }

  /** "key=number;" and what follows. */
  function Field(key: string, n: nat, rest: string): string {
    (key + "=") + (Decimal(n) + (";" + rest))
  }

  /** `carryForwardValue`; the reward's text is the caller's. */
  function CarryForwardValue(checkpoint: nat, period: nat, reward: string): string {
    Field("checkpoint", checkpoint, Field("period", period, "reward=" + reward))
  }

  lemma {:induction false} FindIs(s: string, pattern: string, i: nat, k: nat)
    requires i <= k <= |s| && pattern <= s[k..]
    requires forall j :: i <= j < k ==> !(pattern <= s[j..])
    ensures FindFrom(s, pattern, i) == k
    decreases k - i
  {
    if i < k { FindIs(s, pattern, i + 1, k); }
  }

  lemma {:induction false} TakeAll(s: string)
    requires forall c <- s :: IsDigit(c)
    ensures TakeDigits(s) == s
  {
    if s != "" {
      assert s[0] in s && forall c <- s[1..] :: c in s;
      TakeAll(s[1..]);
    }
  }

  lemma AtolDecimal(n: nat)
    ensures Decimal(n) != "" && Atol(Decimal(n)) == n
  {
    DecimalBack(n);
    TakeAll(Decimal(n));
    assert Decimal(n)[0] in Decimal(n);
  }

  lemma FindsKey(s: string, before: string, pattern: string, rest: string)
    requires s == before + (pattern + rest)
    requires forall j :: 0 <= j < |before| ==> !(pattern <= s[j..])
    ensures FindFrom(s, pattern, 0) == |before|
  {
    assert s[|before|..] == pattern + rest;
    FindIs(s, pattern, 0, |before|);
  }

  lemma FindsSemicolon(s: string, start: nat, digits: string, rest: string)
    requires start <= |s| && s[start..] == digits + (";" + rest) && forall c <- digits :: IsDigit(c)
    ensures FindFrom(s, ";", start) == start + |digits| <= |s| && s[start..start + |digits|] == digits
  {
    var end := start + |digits|;
    assert s[end..] == s[start..][|digits|..];
    assert s[start..end] == s[start..][..|digits|];
    forall j | start <= j < end ensures !(";" <= s[j..]) {
      assert s[j] == s[start..][j - start];
      assert s[j..][0] == s[j] && digits[j - start] in digits;
    }
    FindIs(s, ";", start, end);
  }

  /** A field parses, wherever it stands, if its key does not occur before it. */
  lemma ParseAt(s: string, before: string, key: string, pattern: string, n: nat, rest: string)
    requires pattern == key + "=" && s == before + Field(key, n, rest)
    requires forall j :: 0 <= j < |before| ==> !(pattern <= s[j..])
    ensures ParseValue(s, key) == n
  {
    var tail := Decimal(n) + (";" + rest);
    assert s == before + (pattern + tail);
    TailReads(s, tail, n, rest);
    ParseTail(s, before, key, pattern, tail, n);
  }

  /** Wherever the text ends in this tail, the tail reads as the number. */
  ghost predicate ReadsAs(s: string, tail: string, n: int) {
    forall start: nat {:trigger SectionFrom(s, start)} :: start <= |s| && s[start..] == tail ==> SectionFrom(s, start) == n
  }

  lemma TailReads(s: string, tail: string, n: nat, rest: string)
    requires tail == Decimal(n) + (";" + rest)
    ensures ReadsAs(s, tail, n)
  {
    forall start: nat | start <= |s| && s[start..] == tail ensures SectionFrom(s, start) == n {
      SectionReads(s, start, n, rest);
    }
  }

  lemma ParseTail(s: string, before: string, key: string, pattern: string, tail: string, n: int)
    requires pattern == key + "=" && s == before + (pattern + tail) && ReadsAs(s, tail, n)
    requires forall j :: 0 <= j < |before| ==> !(pattern <= s[j..])
    ensures ParseValue(s, key) == n
  {
    FieldAt(s, before, pattern, tail);
    ParsesSection(s, key, pattern, |before|);
  }

  /** Where the pattern is found, and what follows it. */
  lemma FieldAt(s: string, before: string, pattern: string, tail: string)
    requires s == before + (pattern + tail)
    requires forall j :: 0 <= j < |before| ==> !(pattern <= s[j..])
    ensures |before| + |pattern| <= |s| && s[|before| + |pattern|..] == tail
    ensures FindFrom(s, pattern, 0) == |before|
  {
    FindsKey(s, before, pattern, tail);
    TailAt(s, before, pattern, tail);
  }

  lemma ParsesSection(s: string, key: string, pattern: string, at: nat)
    requires pattern == key + "=" && at + |pattern| <= |s| && FindFrom(s, pattern, 0) == at
    ensures ParseValue(s, key) == SectionFrom(s, at + |pattern|)
  {
  }

  lemma SectionReads(s: string, start: nat, n: nat, rest: string)
    requires start <= |s| && s[start..] == Decimal(n) + (";" + rest)
    ensures SectionFrom(s, start) == n
  {
    DecimalBack(n);
    FindsSemicolon(s, start, Decimal(n), rest);
    AtolDecimal(n);
  }

  lemma TailAt(s: string, a: string, b: string, c: string)
    requires s == a + (b + c)
    ensures s[|a| + |b|..] == c
  {
  }

  lemma Regroup(a: string, b: string, c: string, d: string)
    ensures a + (b + (c + d)) == (a + (b + c)) + d
  {
  }

  /** A pattern cannot start inside a text that has its first character only in front of another second one. */
  lemma NoEarlyMatch(before: string, pattern: string, s: string, j: nat)
    requires before <= s && j < |before| && |pattern| >= 2
    requires before[j] != pattern[0] || (j + 1 < |before| && before[j + 1] != pattern[1])
    ensures !(pattern <= s[j..])
  {
  }

  /** What a node writes into a carry-forward record it reads back: checkpoint and period. */
  lemma ValueReadsBack(checkpoint: nat, period: nat, reward: string)
    ensures ParseValue(CarryForwardValue(checkpoint, period, reward), "checkpoint") == checkpoint
    ensures ParseValue(CarryForwardValue(checkpoint, period, reward), "period") == period
  {
    var rest := Field("period", period, "reward=" + reward);
    ReadsFirst("checkpoint", checkpoint, rest);
    ReadsPeriod(checkpoint, period, "reward=" + reward);
  }

  lemma ReadsFirst(key: string, n: nat, rest: string)
    ensures ParseValue(Field(key, n, rest), key) == n
  {
    assert Field(key, n, rest) == "" + Field(key, n, rest);
    ParseAt(Field(key, n, rest), "", key, key + "=", n, rest);
  }

  lemma ReadsPeriod(checkpoint: nat, period: nat, rest: string)
    ensures ParseValue(Field("checkpoint", checkpoint, Field("period", period, rest)), "period") == period
  {
    var tail := Field("period", period, rest);
    var s := Field("checkpoint", checkpoint, tail);
    var before := ("checkpoint" + "=") + (Decimal(checkpoint) + ";");
    Regroup("checkpoint" + "=", Decimal(checkpoint), ";", tail);
    assert s == before + tail;
    var pattern := "period" + "=";
    assert pattern[0] == 'p' && pattern[1] == 'e';
    forall j | 0 <= j < |before| ensures !(pattern <= s[j..]) {
      NoPeriodYet(checkpoint, j);
      NoEarlyMatch(before, pattern, s, j);
    }
    ParseAt(s, before, "period", pattern, period, rest);
  }

  /** The text before the period has its 'p' only in "point". */
  lemma NoPeriodYet(checkpoint: nat, j: nat)
    requires j < |("checkpoint" + "=") + (Decimal(checkpoint) + ";")|
    ensures
      var before := ("checkpoint" + "=") + (Decimal(checkpoint) + ";");
      before[j] != 'p' || (j + 1 < |before| && before[j + 1] == 'o')
  {
    DecimalBack(checkpoint);
    var head, digits := "checkpoint" + "=", Decimal(checkpoint);
    var before := head + (digits + ";");
    if 11 <= j < 11 + |digits| {
      assert before[j] == digits[j - 11] && digits[j - 11] in digits;
    } else if j < 11 {
      assert before[j] == head[j];
      assert j + 1 < 11 ==> before[j + 1] == head[j + 1];
    }
  }

  // ---------------------------------------------------------------- carry-forward records

  function Period(r: Record): int { ParseValue(r.value, "period") }

  predicate IsBasicCarryForward(r: Record, blockNumber: int) {
    && r.kind == CarryForward
    && r.sender != "" && r.recipient != ""
    && ParseValue(r.value, "checkpoint") >= 0 && Period(r) >= 0
    && ParseValue(r.value, "checkpoint") < blockNumber
    && r.amount >= 0.0
  }

  function UniqueKey(r: Record): string {
    if r.recipient == "" || Period(r) < 0 then "" else r.recipient + ":" + Decimal(Period(r))
  }

  /** The key under which a record claims a reward; empty for none. */
  function ClaimKey(r: Record, blockNumber: int): string {
    if IsBasicCarryForward(r, blockNumber) then UniqueKey(r) else ""
  }

  /** The key names recipient and period, even for recipients with colons in them. */
  lemma KeyNamesPeriod(r: Record, s: Record)
    requires UniqueKey(r) != "" && UniqueKey(r) == UniqueKey(s)
    ensures r.recipient == s.recipient && Period(r) == Period(s)
  {
    DecimalBack(Period(r));
    DecimalBack(Period(s));
    SplitAtLastColon(r.recipient, Decimal(Period(r)), s.recipient, Decimal(Period(s)));
  }

  lemma SplitAtLastColon(a: string, d: string, b: string, e: string)
    requires a + ":" + d == b + ":" + e
    requires (forall c <- d :: IsDigit(c)) && (forall c <- e :: IsDigit(c))
    ensures a == b && d == e
  {
    ColonIsLast(a, d);
    ColonIsLast(b, e);
    var x := a + ":" + d;
    assert x[..|a|] == a && x[..|b|] == b && x[|a| + 1..] == d && x[|b| + 1..] == e;
  }

  lemma ColonIsLast(a: string, d: string)
    requires forall c <- d :: IsDigit(c)
    ensures
      var x := a + ":" + d;
      x[|a|] == ':' && forall k :: |a| < k < |x| ==> x[k] != ':'
  {
    var x := a + ":" + d;
    forall k | |a| < k < |x| ensures x[k] != ':' {
      assert x[k] == d[k - |a| - 1] && d[k - |a| - 1] in d;
    }
  }

  // ---------------------------------------------------------------- replay

  /** Which key, if any, a record at a block number claims; the replay uses ClaimKey. */
  type Claims = (Record, int) -> string

  /** Only carry-forward records with a sender claim anything. */
  ghost predicate Proper(claims: Claims) {
    forall r, n :: claims(r, n) != "" ==> r.kind == CarryForward && r.sender != ""
  }

  lemma ClaimKeyIsProper()
    ensures Proper(ClaimKey)
  {
  }

  /** Whether the entry is the first basic carry-forward with its key. */
  predicate Accepts(claims: Claims, e: Entry, accepted: set<string>) {
    claims(e.record, e.blockNumber) != "" && claims(e.record, e.blockNumber) !in accepted
  }

  function Accepted(claims: Claims, es: seq<Entry>): set<string> {
    if es == [] then {}
    else
      var before, e := Accepted(claims, es[..|es| - 1]), es[|es| - 1];
      if Accepts(claims, e, before) then before + {claims(e.record, e.blockNumber)} else before
  }

  function If(condition: bool, x: real): real { if condition then x else 0.0 }

  /** What one entry changes in one account's balance. */
  function Delta(claims: Claims, account: string, e: Entry, accepted: set<string>, reward: real): real {
    var r := e.record;
    match r.kind
    case IssueCurrency => If(r.recipient == account, r.amount)
    case TransferCurrency =>
      If(r.recipient == account, r.amount)
      - If(r.sender == account && r.recipient != account, r.amount + r.fee)
      + If(e.creator == account, r.fee)
    case Vote => If(e.creator == account, r.fee) - If(r.sender == account, r.fee)
    case _ => If(Accepts(claims, e, accepted) && r.sender == account, reward)
  }

  function Balance(claims: Claims, account: string, es: seq<Entry>, reward: real): real {
    if es == [] then 0.0
    else
      var n := |es| - 1;
      Balance(claims, account, es[..n], reward) + Delta(claims, account, es[n], Accepted(claims, es[..n]), reward)
  }

  /** `CFunctions::CARRY_FORWARD_REWARD`. */
  const REWARD := 1.0

  /** The records of the chain up to the checkpoint. */
  ghost function Replayed(db: Db, checkpoint: int): seq<Entry>
    requires Indexed(db)
  {
    Entries(Walk(db, Some(checkpoint)))
  }

  ghost function Reported(db: Db, account: string, checkpoint: int): real
    requires Indexed(db)
  {
    if account == "" then 0.0 else Balance(ClaimKey, account, Replayed(db, checkpoint), REWARD)
  }

  ghost function SumReported(db: Db, accounts: seq<string>, checkpoint: int): real
    requires Indexed(db)
  {
    if accounts == [] then 0.0
    else Reported(db, accounts[0], checkpoint) + SumReported(db, accounts[1..], checkpoint)
  }

  /** `accountBalanceAtBlock`. */
  method AccountBalanceAtBlock(store: BlockDb, account: string, checkpoint: int) returns (balance: real)
    requires Indexed(store.db)
    ensures balance == Reported(store.db, account, checkpoint)
  {
    var first, latest := FirstId(store.db), LatestId(store.db);
    if account == "" || first < 0 || latest < 0 {
      return 0.0;
    }
    ClaimKeyIsProper();
    balance := ReplayWalk(ClaimKey, store, account, checkpoint, latest, GetBlock(store.db, first), REWARD, Next(store.db));
  }

  /** The loop over blocks. */
  method ReplayWalk(claims: Claims, store: BlockDb, account: string, checkpoint: int, latest: int, start: Block, reward: real,
                    ghost next: Block -> Block)
    returns (balance: real)
    requires Proper(claims) && Indexed(store.db) && Succeeds(store.db, next)
    ensures balance == Balance(claims, account, Entries(Visited(next, Some(checkpoint), latest, start, 0)), reward)
  {
    balance := 0.0;
    var accepted: set<string> := {};
    ghost var done: seq<Block> := [];
    ghost var all := Visited(next, Some(checkpoint), latest, start, 0);
    var block, guard, more := start, 0, true;
    while block.number > 0 && guard < MAX_WALK
      invariant 0 <= guard <= MAX_WALK && Replays(claims, account, done, reward, balance, accepted)
      invariant more && Remaining(next, Some(checkpoint), latest, all, done, block, guard)
      decreases MAX_WALK - guard
    {
      if block.number > checkpoint {
        break;
      }
      ghost var grown := done + [block];
      balance, accepted := ReplayBlock(claims, account, block, balance, accepted, reward, done);
      var after;
      more, after := NextOnWalk(store, next, Some(checkpoint), latest, block, guard, all, done);
      done := grown;
      if !more {
        break;
      }
      block, guard := after, guard + 1;
    }
    if more { NoneRemain(next, Some(checkpoint), latest, all, done, block, guard); }
  }

  /** What the loop holds after the blocks done. */
  ghost predicate Replays(claims: Claims, account: string, done: seq<Block>, reward: real, balance: real,
                          accepted: set<string>) {
    balance == Balance(claims, account, Entries(done), reward) && accepted == Accepted(claims, Entries(done))
  }

  /** The loop over a block's records. */
  method ReplayBlock(claims: Claims, account: string, b: Block, balance: real, accepted: set<string>, reward: real,
                     ghost done: seq<Block>)
    returns (balance': real, accepted': set<string>)
    requires Proper(claims) && Replays(claims, account, done, reward, balance, accepted)
    ensures Replays(claims, account, done + [b], reward, balance', accepted')
  {
    EntriesGrow(done, b);
    ghost var before := Stages(b, Entries(done));
    balance', accepted' := ReplayRecords(claims, account, b, balance, accepted, reward, before);
  }

  method ReplayRecords(claims: Claims, account: string, b: Block, balance: real, accepted: set<string>, reward: real,
                       ghost before: seq<seq<Entry>>)
    returns (balance': real, accepted': set<string>)
    requires Proper(claims) && |before| == |b.records| + 1
    requires forall i :: 0 <= i < |b.records| ==> before[i + 1] == before[i] + [Entry(b.number, b.creator, b.records[i])]
    requires balance == Balance(claims, account, before[0], reward) && accepted == Accepted(claims, before[0])
    ensures balance' == Balance(claims, account, before[|b.records|], reward)
    ensures accepted' == Accepted(claims, before[|b.records|])
  {
    balance', accepted' := balance, accepted;
    for i := 0 to |b.records|
      invariant balance' == Balance(claims, account, before[i], reward) && accepted' == Accepted(claims, before[i])
    {
      assert before[i + 1][..|before[i]|] == before[i];
      balance', accepted' := ReplayRecord(claims, account, b.number, b.creator, b.records[i], balance', accepted', reward);
    }
  }

  /** The branches for one record. */
  method ReplayRecord(claims: Claims, account: string, number: int, creator: string, r: Record,
                      balance: real, accepted: set<string>, reward: real)
    returns (balance': real, accepted': set<string>)
    requires Proper(claims)
    ensures balance' == balance + Delta(claims, account, Entry(number, creator, r), accepted, reward)
    ensures accepted' == if Accepts(claims, Entry(number, creator, r), accepted) then accepted + {claims(r, number)} else accepted
  {
    balance', accepted' := balance, accepted;
    if r.kind == IssueCurrency && r.recipient == account {
      balance' := balance' + r.amount;
    } else if r.kind == TransferCurrency {
      if r.recipient == account {
        balance' := balance' + r.amount;
      }
      if r.sender == account && r.recipient != account {
        balance' := balance' - r.amount;
        balance' := balance' - r.fee;
      }
      if creator == account {
        balance' := balance' + r.fee;
      }
    } else if r.kind == Vote {
      if r.sender == account {
        balance' := balance' - r.fee;
      }
      if creator == account {
        balance' := balance' + r.fee;
      }
    } else {
      var key := claims(r, number);
      if key != "" && key !in accepted {
        accepted' := accepted + {key};
        if r.sender == account {
          balance' := balance' + reward;
        }
      }
    }
  }

  // ---------------------------------------------------------------- conservation

  function Total(claims: Claims, accounts: seq<string>, es: seq<Entry>, reward: real): real {
    if accounts == [] then 0.0 else Balance(claims, accounts[0], es, reward) + Total(claims, accounts[1..], es, reward)
  }

  function Issued(es: seq<Entry>): real {
    if es == [] then 0.0
    else Issued(es[..|es| - 1]) + If(es[|es| - 1].record.kind == IssueCurrency, es[|es| - 1].record.amount)
  }

  /** A transfer to oneself is credited without a debit, and its fee is paid out without being taken. */
  function SelfCredit(es: seq<Entry>): real {
    if es == [] then 0.0
    else
      var r := es[|es| - 1].record;
      SelfCredit(es[..|es| - 1]) + If(r.kind == TransferCurrency && r.sender == r.recipient, r.amount + r.fee)
  }

  ghost predicate Distinct(accounts: seq<string>) {
    forall i, j :: 0 <= i < j < |accounts| ==> accounts[i] != accounts[j]
  }

  /** Every key that can gain or lose is among the accounts. */
  ghost predicate Covers(accounts: seq<string>, e: Entry) {
    var r := e.record;
    match r.kind
    case IssueCurrency => r.recipient in accounts
    case TransferCurrency => r.recipient in accounts && r.sender in accounts && e.creator in accounts
    case Vote => r.sender in accounts && e.creator in accounts
    case CarryForward => r.sender != "" ==> r.sender in accounts
    case _ => true
  }

  function SumIf(accounts: seq<string>, key: string, x: real): real {
    if accounts == [] then 0.0 else If(key == accounts[0], x) + SumIf(accounts[1..], key, x)
  }

  lemma {:induction false} SumIfOnce(accounts: seq<string>, key: string, x: real)
    requires Distinct(accounts)
    ensures SumIf(accounts, key, x) == If(key in accounts, x)
  {
    if accounts != [] { SumIfOnce(accounts[1..], key, x); }
  }

  function SumDelta(claims: Claims, accounts: seq<string>, e: Entry, accepted: set<string>, reward: real): real {
    if accounts == [] then 0.0
    else Delta(claims, accounts[0], e, accepted, reward) + SumDelta(claims, accounts[1..], e, accepted, reward)
  }

  lemma {:induction false} SumDeltaSplits(claims: Claims, accounts: seq<string>, e: Entry, accepted: set<string>, reward: real)
    ensures
      var r := e.record;
      SumDelta(claims, accounts, e, accepted, reward) ==
        match r.kind
        case IssueCurrency => SumIf(accounts, r.recipient, r.amount)
        case TransferCurrency =>
          SumIf(accounts, r.recipient, r.amount)
          - (if r.sender == r.recipient then 0.0 else SumIf(accounts, r.sender, r.amount + r.fee))
          + SumIf(accounts, e.creator, r.fee)
        case Vote => SumIf(accounts, e.creator, r.fee) - SumIf(accounts, r.sender, r.fee)
        case _ => if Accepts(claims, e, accepted) then SumIf(accounts, r.sender, reward) else 0.0
  {
    if accounts != [] { SumDeltaSplits(claims, accounts[1..], e, accepted, reward); }
  }

  /** One entry over all accounts: issues and rewards come in, a transfer to oneself creates, the rest cancels. */
  lemma EntryTotal(claims: Claims, accounts: seq<string>, e: Entry, accepted: set<string>, reward: real)
    requires Proper(claims) && Distinct(accounts) && Covers(accounts, e)
    ensures
      var r := e.record;
      SumDelta(claims, accounts, e, accepted, reward) ==
        If(r.kind == IssueCurrency, r.amount) + If(Accepts(claims, e, accepted), reward)
        + If(r.kind == TransferCurrency && r.sender == r.recipient, r.amount + r.fee)
  {
    var r := e.record;
    SumDeltaSplits(claims, accounts, e, accepted, reward);
    SumIfOnce(accounts, r.recipient, r.amount);
    SumIfOnce(accounts, r.sender, r.amount + r.fee);
    SumIfOnce(accounts, e.creator, r.fee);
    SumIfOnce(accounts, r.sender, r.fee);
    SumIfOnce(accounts, r.sender, reward);
  }

  lemma {:induction false} TotalGrows(claims: Claims, accounts: seq<string>, es: seq<Entry>, reward: real)
    requires es != []
    ensures
      var n := |es| - 1;
      Total(claims, accounts, es, reward)
        == Total(claims, accounts, es[..n], reward) + SumDelta(claims, accounts, es[n], Accepted(claims, es[..n]), reward)
  {
    if accounts != [] { TotalGrows(claims, accounts[1..], es, reward); }
  }

  lemma {:induction false} EmptyTotal(claims: Claims, accounts: seq<string>, reward: real)
    ensures Total(claims, accounts, [], reward) == 0.0
  {
    if accounts != [] { EmptyTotal(claims, accounts[1..], reward); }
  }

  function Rewards(n: nat, reward: real): real { n as real * reward }

  lemma OneReward(n: nat, reward: real)
    ensures Rewards(n + 1, reward) == Rewards(n, reward) + reward
  {
    assert (n + 1) as real == n as real + 1.0;
  }

  /** The sum of all balances is what was issued, plus one reward per accepted carry-forward key, plus what transfers
      to oneself create. */
  lemma {:induction false} Conservation(claims: Claims, accounts: seq<string>, es: seq<Entry>, reward: real)
    requires Proper(claims) && Distinct(accounts) && forall e <- es :: Covers(accounts, e)
    ensures Total(claims, accounts, es, reward)
         == Issued(es) + Rewards(|Accepted(claims, es)|, reward) + SelfCredit(es)
  {
    if es == [] {
      EmptyTotal(claims, accounts, reward);
    } else {
      var n := |es| - 1;
      assert es[n] in es;
      Conservation(claims, accounts, es[..n], reward);
      TotalGrows(claims, accounts, es, reward);
      EntryTotal(claims, accounts, es[n], Accepted(claims, es[..n]), reward);
      OneReward(|Accepted(claims, es[..n])|, reward);
    }
  }

  /** The same for what `accountBalanceAtBlock` reports, over all accounts that the replayed records name. */
  lemma ReplayConserves(db: Db, accounts: seq<string>, checkpoint: int)
    requires Indexed(db) && Distinct(accounts) && "" !in accounts
    requires forall e <- Replayed(db, checkpoint) :: Covers(accounts, e)
    ensures
      var es := Replayed(db, checkpoint);
      SumReported(db, accounts, checkpoint) == Issued(es) + Rewards(|Accepted(ClaimKey, es)|, REWARD) + SelfCredit(es)
  {
    ClaimKeyIsProper();
    Conservation(ClaimKey, accounts, Replayed(db, checkpoint), REWARD);
    SumIsTotal(db, accounts, checkpoint);
  }

  lemma {:induction false} SumIsTotal(db: Db, accounts: seq<string>, checkpoint: int)
    requires Indexed(db) && "" !in accounts
    ensures SumReported(db, accounts, checkpoint) == Total(ClaimKey, accounts, Replayed(db, checkpoint), REWARD)
  {
    if accounts != [] { SumIsTotal(db, accounts[1..], checkpoint); }
  }

  /** After a slow rebuild the sum of all balances is what the committed chain, up to the checkpoint, issues, rewards and
      creates by transfers to oneself: blocks off the chain count for nothing. */
  lemma BalancesAfterRebuild(env: Env, db: Db, accounts: seq<string>, checkpoint: int)
    requires Valid(env, db) && AcceptedPrefix(env, Selected(db)) != [] && Distinct(accounts) && "" !in accounts
    requires forall e <- Entries(UpTo(AcceptedPrefix(env, Selected(db)), Some(checkpoint))) :: Covers(accounts, e)
    ensures Valid(env, SlowRebuild(env, db).1)
    ensures
      var es := Entries(UpTo(AcceptedPrefix(env, Selected(db)), Some(checkpoint)));
      SumReported(SlowRebuild(env, db).1, accounts, checkpoint)
        == Issued(es) + Rewards(|Accepted(ClaimKey, es)|, REWARD) + SelfCredit(es)
  {
    WalkAfterRebuild(env, db, Some(checkpoint));
    ReplayConserves(SlowRebuild(env, db).1, accounts, checkpoint);
  }

  predicate NoSelfTransfer(es: seq<Entry>) {
    forall e <- es :: e.record.kind == TransferCurrency ==> e.record.sender != e.record.recipient
  }

  predicate PositiveTransfers(es: seq<Entry>) {
    forall e <- es :: e.record.kind == TransferCurrency ==> e.record.amount + e.record.fee > 0.0
  }

  /** With positive transfers, currency is conserved exactly on chains without transfers to oneself. */
  lemma ConservedIff(claims: Claims, accounts: seq<string>, es: seq<Entry>, reward: real)
    requires Proper(claims) && Distinct(accounts) && (forall e <- es :: Covers(accounts, e)) && PositiveTransfers(es)
    ensures Total(claims, accounts, es, reward) == Issued(es) + Rewards(|Accepted(claims, es)|, reward)
       <==> NoSelfTransfer(es)
  {
    Conservation(claims, accounts, es, reward);
    SelfCreditSign(es);
  }

  lemma {:induction false} SelfCreditSign(es: seq<Entry>)
    requires PositiveTransfers(es)
    ensures SelfCredit(es) >= 0.0 && (SelfCredit(es) == 0.0 <==> NoSelfTransfer(es))
  {
    if es != [] {
      var n := |es| - 1;
      SelfCreditSign(es[..n]);
      assert es[n] in es;
      assert es == es[..n] + [es[n]];
    }
  }

  /** One issued to an account, a half sent from it to itself: one and a half in it. */
  lemma SelfTransferBalance(claims: Claims, es: seq<Entry>, account: string, reward: real)
    requires |es| == 2 && es[0].record.kind == IssueCurrency && es[0].record.recipient == account && es[0].record.amount == 1.0
    requires es[1].record.kind == TransferCurrency && es[1].record.sender == account && es[1].record.recipient == account
    requires es[1].record.amount == 0.5 && es[1].record.fee == 0.0
    ensures Balance(claims, account, es, reward) == 1.5
  {
    assert es[..1] == [es[0]] && es[..1][..0] == [];
    assert Balance(claims, account, es[..1], reward) == 1.0;
  }

  /** No key is accepted twice. */
  lemma AcceptedOnce(claims: Claims, es: seq<Entry>, i: nat, j: nat)
    requires i < j < |es|
    requires Accepts(claims, es[i], Accepted(claims, es[..i])) && Accepts(claims, es[j], Accepted(claims, es[..j]))
    ensures claims(es[i].record, es[i].blockNumber) != claims(es[j].record, es[j].blockNumber)
  {
    AcceptedGrows(claims, es, i, j);
  }

  lemma {:induction false} AcceptedGrows(claims: Claims, es: seq<Entry>, i: nat, j: nat)
    requires i < j <= |es| && Accepts(claims, es[i], Accepted(claims, es[..i]))
    ensures claims(es[i].record, es[i].blockNumber) in Accepted(claims, es[..j])
    decreases j
  {
    assert es[..j][..j - 1] == es[..j - 1];
    if i < j - 1 { AcceptedGrows(claims, es, i, j - 1); }
  }

  /** At most one reward for each recipient and period, and a claim is turned away only for the same recipient and
      period. */
  lemma OneRewardPerPeriod(r: Record, m: int, s: Record, n: int)
    requires ClaimKey(r, m) != "" && ClaimKey(s, n) != ""
    ensures ClaimKey(r, m) == ClaimKey(s, n) <==> r.recipient == s.recipient && Period(r) == Period(s)
  {
    if ClaimKey(r, m) == ClaimKey(s, n) { KeyNamesPeriod(r, s); }
  }

  /** A carry-forward record as nodes write it claims a reward exactly when it has a sender and a recipient, its checkpoint
      lies below its block and its amount is not negative; the claim is for the recipient and the period. */
  lemma ClaimIff(r: Record, blockNumber: int, checkpoint: nat, period: nat, reward: string)
    requires r.value == CarryForwardValue(checkpoint, period, reward)
    ensures ClaimKey(r, blockNumber) != "" <==>
      r.kind == CarryForward && r.sender != "" && r.recipient != "" && checkpoint < blockNumber && r.amount >= 0.0
    ensures ClaimKey(r, blockNumber) != "" ==> ClaimKey(r, blockNumber) == r.recipient + ":" + Decimal(period)
  {
    ValueReadsBack(checkpoint, period, reward);
  }

  /** Whatever the text of its value, a rewarded record names a checkpoint below its block and a period. */
  lemma ClaimNeeds(r: Record, blockNumber: int)
    requires ClaimKey(r, blockNumber) != ""
    ensures r.kind == CarryForward && r.sender != "" && r.recipient != "" && r.amount >= 0.0
    ensures 0 <= ParseValue(r.value, "checkpoint") < blockNumber && 0 <= ParseValue(r.value, "period")
  {
  }

  /** The accepted keys are those that some entry claims. */
  lemma {:induction false} AcceptedKeys(claims: Claims, es: seq<Entry>, key: string)
    ensures key in Accepted(claims, es) <==>
      key != "" && exists i :: 0 <= i < |es| && claims(es[i].record, es[i].blockNumber) == key
  {
    if es != [] {
      var n := |es| - 1;
      AcceptedKeys(claims, es[..n], key);
      if i :| 0 <= i < |es| && claims(es[i].record, es[i].blockNumber) == key {
        assert i < n ==> es[..n][i] == es[i];
      }
      if i :| 0 <= i < n && claims(es[..n][i].record, es[..n][i].blockNumber) == key {
        assert es[..n][i] == es[i];
      }
    }
  }

  /** So an entry is rewarded exactly when it is the first to claim its key. */
  lemma RewardedIff(claims: Claims, es: seq<Entry>, i: nat)
    requires i < |es|
    ensures Accepts(claims, es[i], Accepted(claims, es[..i])) <==>
      var key := claims(es[i].record, es[i].blockNumber);
      key != "" && forall j :: 0 <= j < i ==> claims(es[j].record, es[j].blockNumber) != key
  {
    var key := claims(es[i].record, es[i].blockNumber);
    AcceptedKeys(claims, es[..i], key);
    assert forall j :: 0 <= j < i ==> es[..i][j] == es[j];
    if j :| 0 <= j < i && claims(es[j].record, es[j].blockNumber) == key {
      assert es[..i][j] == es[j];
    }
  }

  // ---------------------------------------------------------------- the flows into and out of one account

  /** What is issued to the account or sent to it. */
  function Received(account: string, es: seq<Entry>): real {
    if es == [] then 0.0
    else
      var r := es[|es| - 1].record;
      Received(account, es[..|es| - 1])
      + If((r.kind == IssueCurrency || r.kind == TransferCurrency) && r.recipient == account, r.amount)
  }

  /** What it sends to others, with the fee, and the fees of its votes. */
  function Spent(account: string, es: seq<Entry>): real {
    if es == [] then 0.0
    else
      var r := es[|es| - 1].record;
      Spent(account, es[..|es| - 1])
      + If(r.kind == TransferCurrency && r.sender == account && r.recipient != account, r.amount + r.fee)
      + If(r.kind == Vote && r.sender == account, r.fee)
  }

  /** The fees of the transfers and votes in the blocks it created. */
  function Collected(account: string, es: seq<Entry>): real {
    if es == [] then 0.0
    else
      var e := es[|es| - 1];
      Collected(account, es[..|es| - 1])
      + If((e.record.kind == TransferCurrency || e.record.kind == Vote) && e.creator == account, e.record.fee)
  }

  /** How many rewarded carry-forward records it sent. */
  function Rewarded(claims: Claims, account: string, es: seq<Entry>): nat {
    if es == [] then 0
    else
      var n := |es| - 1;
      Rewarded(claims, account, es[..n])
      + if Accepts(claims, es[n], Accepted(claims, es[..n])) && es[n].record.sender == account then 1 else 0
  }

  /** The balance is what came in, less what went out, plus the fees collected and the rewards. */
  lemma {:induction false} BalanceIsFlows(claims: Claims, account: string, es: seq<Entry>, reward: real)
    requires Proper(claims)
    ensures Balance(claims, account, es, reward)
      == Received(account, es) - Spent(account, es) + Collected(account, es) + Rewards(Rewarded(claims, account, es), reward)
  {
    if es != [] {
      var n := |es| - 1;
      BalanceIsFlows(claims, account, es[..n], reward);
      OneReward(Rewarded(claims, account, es[..n]), reward);
      DeltaIsFlows(claims, account, es[n], Accepted(claims, es[..n]), reward);
    }
  }

  lemma DeltaIsFlows(claims: Claims, account: string, e: Entry, accepted: set<string>, reward: real)
    requires Proper(claims)
    ensures
      var r := e.record;
      Delta(claims, account, e, accepted, reward) ==
        If((r.kind == IssueCurrency || r.kind == TransferCurrency) && r.recipient == account, r.amount)
        - (If(r.kind == TransferCurrency && r.sender == account && r.recipient != account, r.amount + r.fee)
           + If(r.kind == Vote && r.sender == account, r.fee))
        + If((r.kind == TransferCurrency || r.kind == Vote) && e.creator == account, r.fee)
        + If(Accepts(claims, e, accepted) && r.sender == account, reward)
  {
  }
}

/** The registry of public names that the command line replays from the chain (src/cli.cpp): members in the order they
    joined, and an index from normalized name to owner. The index is proved to be no more than a faster way to ask
    whether another member already bears the name. */
module Names {
  import opened Options
  import opened Blocks
  import opened ChainStore
  import opened BlockDatabase
  import opened ChainWalk

  // ---------------------------------------------------------------- normalization

  /** `isalnum` in the C locale, or one of the two marks a name may have. */
  predicate IsNameChar(c: char) {
    'a' <= c <= 'z' || 'A' <= c <= 'Z' || '0' <= c <= '9' || c == '-' || c == '_'
  }

  function Lower(c: char): char {
    if 'A' <= c <= 'Z' then (c as int + 32) as char else c
  }

  function Lowered(s: string): (r: string)
    ensures |r| == |s| && forall i :: 0 <= i < |s| ==> r[i] == Lower(s[i])
  {
    if s == "" then "" else Lowered(s[..|s| - 1]) + [Lower(s[|s| - 1])]
  }

  predicate IsName(name: string) {
    3 <= |name| <= 32 && forall c <- name :: IsNameChar(c)
  }

  function Normalized(name: string): string {
    if IsName(name) then Lowered(name) else ""
  }

  /** `normalizedPublicName`. */
  method NormalizedPublicName(name: string) returns (normalized: string)
    ensures normalized == Normalized(name)
    ensures normalized != "" <==>
      && 3 <= |name| <= 32
      && forall c <- name :: 'a' <= c <= 'z' || 'A' <= c <= 'Z' || '0' <= c <= '9' || c == '-' || c == '_'
    ensures normalized != "" ==> |normalized| == |name| && forall i :: 0 <= i < |name| ==>
      normalized[i] == if 'A' <= name[i] <= 'Z' then (name[i] as int - 'A' as int + 'a' as int) as char else name[i]
  {
    if |name| < 3 || |name| > 32 {
      return "";
    }
    normalized := "";
    for i := 0 to |name|
      invariant normalized == Lowered(name[..i])
      invariant forall j :: 0 <= j < i ==> IsNameChar(name[j])
    {
      assert name[..i + 1][..i] == name[..i];
      if IsNameChar(name[i]) {
        normalized := normalized + [Lower(name[i])];
      } else {
        assert name[i] in name;
        return "";
      }
    }
    assert name[..|name|] == name;
  }

  /** Two names are the same name exactly when they differ at most in letter case. */
  lemma SameNameIff(a: string, b: string)
    requires IsName(a)
    ensures Normalized(a) == Normalized(b)
       <==> IsName(b) && |a| == |b| && forall i :: 0 <= i < |a| ==> Lower(a[i]) == Lower(b[i])
  {
    assert Normalized(a) == Lowered(a);
    if IsName(b) && |a| == |b| && forall i :: 0 <= i < |a| ==> Lower(a[i]) == Lower(b[i]) {
      assert Lowered(a) == Lowered(b);
    }
  }

  /** A normalized name is a name, and normalizing it again changes nothing. */
  lemma NormalizedIsName(name: string)
    requires Normalized(name) != ""
    ensures IsName(Normalized(name)) && Normalized(Normalized(name)) == Normalized(name)
  {
    var n := Normalized(name);
    forall c | c in n ensures IsNameChar(c) && Lower(c) == c {
      var i :| 0 <= i < |n| && n[i] == c;
      assert name[i] in name;
    }
    assert Lowered(n) == n;
  }

  // ---------------------------------------------------------------- the reference registry

  /** Whether a member may take a name: a well-formed one that no other member bears. */
  predicate CanClaim(names: map<string, string>, key: string, name: string) {
    && Normalized(name) != ""
    && key in names
    && forall k <- names :: k != key ==> Normalized(names[k]) != Normalized(name)
  }

  function Claim(names: map<string, string>, key: string, name: string): map<string, string> {
    if CanClaim(names, key, name) then names[key := name] else names
  }

  /** One record, on the mere map from member to current name. */
  function Step(names: map<string, string>, r: Record): map<string, string> {
    match r.kind
    case JoinNetwork =>
      if r.sender in names then names
      else if r.name == "" then names[r.sender := ""]
      else Claim(names[r.sender := ""], r.sender, r.name)
    case UpdateName => if r.sender == "" || r.name == "" then names else Claim(names, r.sender, r.name)
    case _ => names
  }

  function Run(names: map<string, string>, es: seq<Entry>): map<string, string> {
    if es == [] then names else Step(Run(names, es[..|es| - 1]), es[|es| - 1].record)
  }

  ghost predicate Unshared(names: map<string, string>) {
    forall k, l :: k in names && l in names && k != l && Normalized(names[k]) != ""
      ==> Normalized(names[k]) != Normalized(names[l])
  }

  lemma ClaimUnshared(names: map<string, string>, key: string, name: string)
    requires Unshared(names)
    ensures Unshared(Claim(names, key, name))
  {
  }

  lemma StepUnshared(names: map<string, string>, r: Record)
    requires Unshared(names)
    ensures Unshared(Step(names, r))
  {
    ClaimUnshared(names, r.sender, r.name);
    if r.sender !in names {
      assert Normalized("") == "";
      ClaimUnshared(names[r.sender := ""], r.sender, r.name);
    }
  }

  /** No sequence of records gives two members one name. */
  lemma {:induction false} RunUnshared(names: map<string, string>, es: seq<Entry>)
    requires Unshared(names)
    ensures Unshared(Run(names, es))
  {
    if es != [] {
      RunUnshared(names, es[..|es| - 1]);
      StepUnshared(Run(names, es[..|es| - 1]), es[|es| - 1].record);
    }
  }

  /** A member keeps its name whatever the others send. */
  lemma {:induction false} NameStays(names: map<string, string>, key: string, es: seq<Entry>)
    requires key in names && forall e <- es :: e.record.sender != key
    ensures key in Run(names, es) && Run(names, es)[key] == names[key]
  {
    if es != [] {
      var n := |es| - 1;
      assert es[n] in es;
      NameStays(names, key, es[..n]);
      StepStays(Run(names, es[..n]), key, es[n].record);
    }
  }

  lemma StepStays(names: map<string, string>, key: string, r: Record)
    requires key in names && r.sender != key
    ensures key in Step(names, r) && Step(names, r)[key] == names[key]
  {
  }

  /** And nobody else gets it. */
  lemma OwnerKeepsName(names: map<string, string>, key: string, es: seq<Entry>)
    requires key in names && Unshared(names) && forall e <- es :: e.record.sender != key
    ensures
      var after := Run(names, es);
      && key in after && after[key] == names[key]
      && (Normalized(names[key]) != "" ==>
          forall k <- after :: k != key ==> Normalized(after[k]) != Normalized(names[key]))
  {
    RunUnshared(names, es);
    NameStays(names, key, es);
  }

  /** A record by which its sender gets the name in it: it joins, or is a member already, and no other member bears the
      well-formed name. */
  ghost predicate Takes(names: map<string, string>, r: Record) {
    && ((r.kind == JoinNetwork && r.sender !in names) || (r.kind == UpdateName && r.sender != "" && r.sender in names))
    && IsName(r.name)
    && forall k <- names :: k != r.sender ==> Normalized(names[k]) != Normalized(r.name)
  }

  /** Such a record leaves the sender with exactly that name, and every other record leaves all names as they are; a key
      that joins without one has the empty name. */
  lemma StepTakes(names: map<string, string>, r: Record)
    ensures Takes(names, r) ==> Step(names, r) == names[r.sender := r.name]
    ensures !Takes(names, r) ==>
      Step(names, r) == if r.kind == JoinNetwork && r.sender !in names then names[r.sender := ""] else names
  {
    assert Normalized("") == "";
    assert IsName(r.name) ==> Normalized(r.name) != "";
    var joined := names[r.sender := ""];
    assert r.sender !in names ==> (CanClaim(joined, r.sender, r.name) <==>
      Normalized(r.name) != "" && forall k <- names :: k != r.sender ==> Normalized(names[k]) != Normalized(r.name)) by {
      if CanClaim(joined, r.sender, r.name) && r.sender !in names {
        forall k | k in names && k != r.sender ensures Normalized(names[k]) != Normalized(r.name) {
          assert k in joined && joined[k] == names[k];
        }
      }
    }
  }

  /** The name in the last record by which the key got one; empty if there is none. */
  ghost function LastTaken(es: seq<Entry>, key: string): string {
    if es == [] then ""
    else
      var before, r := es[..|es| - 1], es[|es| - 1].record;
      if r.sender == key && Takes(Run(map[], before), r) then r.name else LastTaken(before, key)
  }

  predicate IsJoin(e: Entry, key: string) {
    e.record.kind == JoinNetwork && e.record.sender == key
  }

  /** After any records the members are the keys that sent a JOIN_NETWORK record. */
  lemma {:induction false} MembersJoined(es: seq<Entry>, key: string)
    ensures key in Run(map[], es) <==> exists e <- es :: IsJoin(e, key)
  {
    if es != [] {
      var n := |es| - 1;
      MembersJoined(es[..n], key);
      StepTakes(Run(map[], es[..n]), es[n].record);
      OneMoreEntry(es, key);
    }
  }

  lemma OneMoreEntry(es: seq<Entry>, key: string)
    requires es != []
    ensures
      var n := |es| - 1;
      (exists e <- es :: IsJoin(e, key)) <==> IsJoin(es[n], key) || exists e <- es[..n] :: IsJoin(e, key)
  {
    assert es == es[..|es| - 1] + [es[|es| - 1]];
  }

  /** And a member's name is the one it got last. */
  lemma {:induction false} CurrentName(es: seq<Entry>, key: string)
    ensures if key in Run(map[], es) then Run(map[], es)[key] == LastTaken(es, key) else LastTaken(es, key) == ""
  {
    if es != [] {
      var n := |es| - 1;
      CurrentName(es[..n], key);
      StepTakes(Run(map[], es[..n]), es[n].record);
    }
  }

  // ---------------------------------------------------------------- members and the index of owners

  /** `memberIndexByKey`: the first member with the key, or -1. */
  method MemberIndexByKey(members: seq<Record>, key: string) returns (k: int)
    ensures -1 <= k < |members|
    ensures k >= 0 ==> members[k].sender == key && forall i :: 0 <= i < k ==> members[i].sender != key
    ensures k < 0 <==> key !in NamesOf(members)
  {
    NamesOfKeys(members);
    for i := 0 to |members|
      invariant forall j :: 0 <= j < i ==> members[j].sender != key
    {
      if members[i].sender == key {
        return i;
      }
    }
    return -1;
  }

  /** Each member's current name. */
  function NamesOf(members: seq<Record>): map<string, string> {
    if members == [] then map[]
    else NamesOf(members[..|members| - 1])[members[|members| - 1].sender := members[|members| - 1].name]
  }

  ghost predicate DistinctKeys(members: seq<Record>) {
    forall i, j :: 0 <= i < j < |members| ==> members[i].sender != members[j].sender
  }

  lemma {:induction false} NamesOfKeys(members: seq<Record>)
    ensures forall k :: k in NamesOf(members) <==> exists i :: 0 <= i < |members| && members[i].sender == k
  {
    if members != [] {
      var n := |members| - 1;
      NamesOfKeys(members[..n]);
      forall k ensures k in NamesOf(members) <==> exists i :: 0 <= i < |members| && members[i].sender == k {
        if k in NamesOf(members[..n]) {
          var i :| 0 <= i < n && members[..n][i].sender == k;
          assert members[i].sender == k;
        } else if k == members[n].sender {
        } else if i :| 0 <= i < |members| && members[i].sender == k {
          assert members[..n][i].sender == k;
        }
      }
    }
  }

  lemma {:induction false} NamesOfAt(members: seq<Record>, i: nat)
    requires DistinctKeys(members) && i < |members|
    ensures members[i].sender in NamesOf(members) && NamesOf(members)[members[i].sender] == members[i].name
  {
    var n := |members| - 1;
    if i < n { NamesOfAt(members[..n], i); }
  }

  lemma {:induction false} NamesOfRename(members: seq<Record>, i: nat, name: string)
    requires DistinctKeys(members) && i < |members|
    ensures NamesOf(members[i := members[i].(name := name)]) == NamesOf(members)[members[i].sender := name]
  {
    var n := |members| - 1;
    var after := members[i := members[i].(name := name)];
    if i < n {
      NamesOfRename(members[..n], i, name);
      assert after[..n] == members[..n][i := members[i].(name := name)];
    } else {
      assert after[..n] == members[..n];
    }
  }

  /** What the replay keeps: keys are unique, and the index is the inverse of the members' normalized names. */
  ghost predicate Consistent(members: seq<Record>, owners: map<string, string>) {
    && DistinctKeys(members)
    && (forall m <- members :: Normalized(m.name) != "" ==>
        Normalized(m.name) in owners && owners[Normalized(m.name)] == m.sender)
    && (forall n {:trigger Bears(members, owners[n], n)} :: n in owners ==> n != "" && Bears(members, owners[n], n))
  }

  ghost predicate Bears(members: seq<Record>, key: string, name: string) {
    exists m <- members :: m.sender == key && Normalized(m.name) == name
  }

  ghost predicate Owns(owners: map<string, string>, name: string, key: string) {
    name in owners && owners[name] == key
  }

  /** The index says exactly who bears which name, and no name is borne twice. */
  lemma IndexIsInverse(members: seq<Record>, owners: map<string, string>)
    requires Consistent(members, owners)
    ensures Unshared(NamesOf(members))
    ensures forall n, k ::
      Owns(owners, n, k) <==> n != "" && k in NamesOf(members) && Normalized(NamesOf(members)[k]) == n
  {
    forall n, k
      ensures Owns(owners, n, k) <==> n != "" && k in NamesOf(members) && Normalized(NamesOf(members)[k]) == n {
      InverseAt(members, owners, n, k);
    }
    var names := NamesOf(members);
    forall k, l | k in names && l in names && k != l && Normalized(names[k]) != ""
      ensures Normalized(names[k]) != Normalized(names[l]) {
      InverseAt(members, owners, Normalized(names[k]), k);
      InverseAt(members, owners, Normalized(names[k]), l);
    }
  }

  lemma InverseAt(members: seq<Record>, owners: map<string, string>, n: string, k: string)
    requires Consistent(members, owners)
    ensures Owns(owners, n, k) <==> n != "" && k in NamesOf(members) && Normalized(NamesOf(members)[k]) == n
  {
    NamesOfKeys(members);
    if Owns(owners, n, k) {
      assert Bears(members, owners[n], n);
      var m :| m in members && m.sender == k && Normalized(m.name) == n;
      var i :| 0 <= i < |members| && members[i] == m;
      NamesOfAt(members, i);
    } else if k in NamesOf(members) {
      var i :| 0 <= i < |members| && members[i].sender == k;
      NamesOfAt(members, i);
      assert members[i] in members;
    }
  }

  /** Asking the index is asking all members. */
  lemma IndexAnswers(members: seq<Record>, owners: map<string, string>, key: string, name: string)
    requires Consistent(members, owners)
    ensures CanClaim(NamesOf(members), key, name)
       <==> && Normalized(name) != "" && key in NamesOf(members)
            && (Normalized(name) in owners ==> owners[Normalized(name)] == key)
  {
    IndexIsInverse(members, owners);
    var names, n := NamesOf(members), Normalized(name);
    if n in owners {
      assert Owns(owners, n, owners[n]);
    }
    forall k | k in names && k != key && Normalized(names[k]) == n && n != "" ensures n in owners && owners[n] == k {
      assert Owns(owners, n, k);
    }
  }

  /** Renaming a member and moving its entry in the index keeps the two together. */
  lemma RenameKeeps(members: seq<Record>, owners: map<string, string>, i: nat, name: string)
    requires Consistent(members, owners) && i < |members| && Normalized(name) != ""
    requires Normalized(name) in owners ==> owners[Normalized(name)] == members[i].sender
    ensures Consistent(members[i := members[i].(name := name)],
                       (owners - {Normalized(members[i].name)})[Normalized(name) := members[i].sender])
  {
    var n, p, key := Normalized(name), Normalized(members[i].name), members[i].sender;
    var members', owners' := members[i := members[i].(name := name)], (owners - {p})[n := key];
    assert members[i] in members && members'[i] in members';
    forall m | m in members' && Normalized(m.name) != ""
      ensures Normalized(m.name) in owners' && owners'[Normalized(m.name)] == m.sender {
      var j :| 0 <= j < |members'| && members'[j] == m;
      if j != i { assert members[j] in members; }
    }
    forall o | o in owners' ensures o != "" && Bears(members', owners'[o], o) {
      if o == n {
        assert members'[i].sender == key && Normalized(members'[i].name) == n;
      } else {
        assert Bears(members, owners[o], o);
        var m :| m in members && m.sender == owners[o] && Normalized(m.name) == o;
        var j :| 0 <= j < |members| && members[j] == m;
        assert members'[j] in members';
      }
    }
  }

  /** A member's present name, if it has one, is indexed under the member's own key. */
  lemma Forgets(members: seq<Record>, owners: map<string, string>, i: nat)
    requires Consistent(members, owners) && i < |members|
    ensures
      var p := Normalized(members[i].name);
      if p != "" then p in owners && owners[p] == members[i].sender else owners - {p} == owners
  {
    assert members[i] in members;
    forall n | n in owners ensures n != "" {
      assert Bears(members, owners[n], n);
    }
  }

  lemma RenameIsNameless(members: seq<Record>, i: nat, name: string)
    requires i < |members|
    ensures Nameless(members[i := members[i].(name := name)]) == Nameless(members)
  {
  }

  lemma JoinKeeps(members: seq<Record>, owners: map<string, string>, r: Record)
    requires Consistent(members, owners) && r.name == "" && r.sender !in NamesOf(members)
    ensures Consistent(members + [r], owners)
    ensures NamesOf(members + [r]) == NamesOf(members)[r.sender := ""]
  {
    NamesOfKeys(members);
    assert (members + [r])[..|members|] == members;
    assert Normalized("") == "";
    forall n | n in owners ensures n != "" && Bears(members + [r], owners[n], n) {
      assert Bears(members, owners[n], n);
      var m :| m in members && m.sender == owners[n] && Normalized(m.name) == n;
      assert m in members + [r];
    }
  }

  /** The members themselves: who joined, in order, with all of the joining record but its name. */
  function Joined(es: seq<Entry>): seq<Record> {
    if es == [] then [] else Join(Joined(es[..|es| - 1]), es[|es| - 1].record)
  }

  function Join(joined: seq<Record>, r: Record): seq<Record> {
    if r.kind != JoinNetwork || (exists m <- joined :: m.sender == r.sender) then joined else joined + [r.(name := "")]
  }

  /** The first JOIN_NETWORK record of its sender. */
  ghost predicate IsFirstJoin(es: seq<Entry>, k: nat) {
    && k < |es| && es[k].record.kind == JoinNetwork
    && forall i :: 0 <= i < k ==> !IsJoin(es[i], es[k].record.sender)
  }

  /** The members are the first JOIN_NETWORK records of their senders, in the order of the chain, without the name. */
  ghost predicate JoinedAt(es: seq<Entry>, joined: seq<Record>, at: seq<nat>) {
    && |at| == |joined|
    && (forall i :: 0 <= i < |at| ==> IsFirstJoin(es, at[i]) && joined[i] == es[at[i]].record.(name := ""))
    && (forall i, j :: 0 <= i < j < |at| ==> at[i] < at[j])
    && (forall k: nat :: IsFirstJoin(es, k) ==> k in at)
  }

  lemma {:induction false} JoinedInOrder(es: seq<Entry>) returns (at: seq<nat>)
    ensures JoinedAt(es, Joined(es), at)
  {
    at := [];
    if es != [] {
      var n := |es| - 1;
      at := JoinedInOrder(es[..n]);
      at := OneMoreJoin(es, Joined(es[..n]), at);
    }
  }

  lemma EarlierJoin(es: seq<Entry>, n: nat, k: nat)
    requires k < n <= |es|
    ensures IsFirstJoin(es[..n], k) <==> IsFirstJoin(es, k)
  {
    assert forall i :: 0 <= i <= k ==> es[..n][i] == es[i];
    if IsFirstJoin(es[..n], k) {
      forall i | 0 <= i < k ensures !IsJoin(es[i], es[k].record.sender) { assert es[..n][i] == es[i]; }
    }
    if IsFirstJoin(es, k) {
      forall i | 0 <= i < k ensures !IsJoin(es[..n][i], es[..n][k].record.sender) { assert es[..n][i] == es[i]; }
    }
  }

  lemma OneMoreJoin(es: seq<Entry>, joined: seq<Record>, at: seq<nat>) returns (more: seq<nat>)
    requires es != [] && JoinedAt(es[..|es| - 1], joined, at)
    ensures JoinedAt(es, Join(joined, es[|es| - 1].record), more)
  {
    var n := |es| - 1;
    JoinsOnce(es, joined, at);
    if IsFirstJoin(es, n) {
      more := at + [n];
      JoinAdded(es, joined, at);
    } else {
      more := at;
      NoneAdded(es, joined, at);
    }
  }

  lemma SameFirstJoins(es: seq<Entry>)
    requires es != []
    ensures forall k: nat :: k < |es| - 1 ==> (IsFirstJoin(es[..|es| - 1], k) <==> IsFirstJoin(es, k))
  {
    var n := |es| - 1;
    forall k: nat | k < n ensures IsFirstJoin(es[..n], k) <==> IsFirstJoin(es, k) { EarlierJoin(es, n, k); }
  }

  lemma NoneAdded(es: seq<Entry>, joined: seq<Record>, at: seq<nat>)
    requires es != [] && JoinedAt(es[..|es| - 1], joined, at) && !IsFirstJoin(es, |es| - 1)
    ensures JoinedAt(es, joined, at)
  {
    SameFirstJoins(es);
  }

  lemma JoinAdded(es: seq<Entry>, joined: seq<Record>, at: seq<nat>)
    requires es != [] && JoinedAt(es[..|es| - 1], joined, at) && IsFirstJoin(es, |es| - 1)
    ensures JoinedAt(es, joined + [es[|es| - 1].record.(name := "")], at + [|es| - 1])
  {
    SameFirstJoins(es);
    var n := |es| - 1;
    var more := at + [n];
    forall k: nat | IsFirstJoin(es, k) ensures k in more {
      if k < n { assert k in at; } else { assert more[|at|] == k; }
    }
  }

  /** A JOIN_NETWORK record adds a member exactly when it is its sender's first. */
  lemma JoinsOnce(es: seq<Entry>, joined: seq<Record>, at: seq<nat>)
    requires es != [] && JoinedAt(es[..|es| - 1], joined, at)
    ensures
      var n := |es| - 1;
      Join(joined, es[n].record) == if IsFirstJoin(es, n) then joined + [es[n].record.(name := "")] else joined
  {
    var n := |es| - 1;
    var key := es[n].record.sender;
    MembersAreJoins(es[..n], joined, at, key);
    assert (exists i :: 0 <= i < n && IsJoin(es[..n][i], key)) <==> exists i :: 0 <= i < n && IsJoin(es[i], key) by {
      assert forall i :: 0 <= i < n ==> es[..n][i] == es[i];
    }
  }

  lemma MembersAreJoins(es: seq<Entry>, joined: seq<Record>, at: seq<nat>, key: string)
    requires JoinedAt(es, joined, at)
    ensures (exists m <- joined :: m.sender == key) <==> exists i :: 0 <= i < |es| && IsJoin(es[i], key)
  {
    if m :| m in joined && m.sender == key {
      var i :| 0 <= i < |joined| && joined[i] == m;
      assert IsJoin(es[at[i]], key);
    }
    if i :| 0 <= i < |es| && IsJoin(es[i], key) {
      var k := FirstOf(es, i);
      var j :| 0 <= j < |at| && at[j] == k;
      assert joined[j] in joined;
    }
  }

  lemma {:induction false} FirstOf(es: seq<Entry>, i: nat) returns (k: nat)
    requires i < |es| && es[i].record.kind == JoinNetwork
    ensures IsFirstJoin(es, k) && es[k].record.sender == es[i].record.sender
    decreases i
  {
    if j :| 0 <= j < i && IsJoin(es[j], es[i].record.sender) {
      k := FirstOf(es, j);
    } else {
      k := i;
    }
  }

  function Nameless(members: seq<Record>): (s: seq<Record>)
    ensures |s| == |members| && forall i :: 0 <= i < |s| ==> s[i] == members[i].(name := "")
  {
    if members == [] then [] else Nameless(members[..|members| - 1]) + [members[|members| - 1].(name := "")]
  }

  lemma JoinMembers(members: seq<Record>, r: Record)
    requires r.kind == JoinNetwork
    ensures r.sender in NamesOf(members) ==> Join(Nameless(members), r) == Nameless(members)
    ensures r.sender !in NamesOf(members) ==> Join(Nameless(members), r) == Nameless(members + [r.(name := "")])
  {
    NamesOfKeys(members);
    var s := Nameless(members);
    if r.sender in NamesOf(members) {
      var i :| 0 <= i < |members| && members[i].sender == r.sender;
      assert s[i] in s && s[i].sender == r.sender;
    } else {
      forall m | m in s ensures m.sender != r.sender {
        var i :| 0 <= i < |s| && s[i] == m;
        assert members[i].sender == m.sender;
      }
      assert Nameless(members + [r.(name := "")]) == s + [r.(name := "")];
    }
  }

  // ---------------------------------------------------------------- heartbeats

  predicate IsBeat(e: Entry) {
    e.record.kind == HeartBeat && e.record.sender != ""
  }

  /** The number of the block with each key's last heartbeat. */
  function Beats(es: seq<Entry>): map<string, int> {
    if es == [] then map[]
    else
      var before, e := Beats(es[..|es| - 1]), es[|es| - 1];
      if IsBeat(e) then before[e.record.sender := e.blockNumber] else before
  }

  /** A key's entry comes from a heartbeat of its own after which it sent no other, and a key without one sent none. */
  lemma {:induction false} BeatsAreLast(es: seq<Entry>, key: string)
    ensures key !in Beats(es) ==> forall e <- es :: !(IsBeat(e) && e.record.sender == key)
    ensures key in Beats(es) ==> exists i ::
      && 0 <= i < |es| && IsBeat(es[i]) && es[i].record.sender == key && es[i].blockNumber == Beats(es)[key]
      && forall j :: i < j < |es| ==> !(IsBeat(es[j]) && es[j].record.sender == key)
  {
    if es != [] {
      var n := |es| - 1;
      BeatsAreLast(es[..n], key);
      assert es == es[..n] + [es[n]];
      if key in Beats(es) && !(IsBeat(es[n]) && es[n].record.sender == key) {
        var i :| 0 <= i < n && IsBeat(es[..n][i]) && es[..n][i].record.sender == key
          && es[..n][i].blockNumber == Beats(es[..n])[key]
          && forall j :: i < j < n ==> !(IsBeat(es[..n][j]) && es[..n][j].record.sender == key);
        assert IsBeat(es[i]) && forall j :: i < j < n ==> es[..n][j] == es[j];
      }
    }
  }

  /** `CFunctions::HEARTBEAT_VALID_BLOCKS`. */
  const HEARTBEAT_VALID_BLOCKS := 5760

  /** Active: a recent heartbeat, or no heartbeat from anybody. */
  predicate IsActive(beats: map<string, int>, key: string, cutoff: int) {
    beats == map[] || (key in beats && beats[key] >= cutoff)
  }

  /** The entry is the key's last heartbeat. */
  ghost predicate IsLastBeat(es: seq<Entry>, i: int, key: string) {
    && 0 <= i < |es| && es[i].record.kind == HeartBeat && key != "" && es[i].record.sender == key
    && forall j :: i < j < |es| ==> !(es[j].record.kind == HeartBeat && es[j].record.sender == key)
  }

  /** A key is active exactly when nobody sent a heartbeat, or its last one is at most 5760 blocks old. */
  lemma ActiveIff(es: seq<Entry>, key: string, now: int)
    ensures IsActive(Beats(es), key, now - HEARTBEAT_VALID_BLOCKS) <==>
      || (forall e <- es :: !(e.record.kind == HeartBeat && e.record.sender != ""))
      || exists i :: IsLastBeat(es, i, key) && es[i].blockNumber + 5760 >= now
  {
    NobodyBeat(es);
    BeatsAreLast(es, key);
    if i :| IsLastBeat(es, i, key) {
      assert es[i] in es;
      LastBeatUnique(es, key, i);
    }
    if key in Beats(es) {
      var i :| 0 <= i < |es| && IsBeat(es[i]) && es[i].record.sender == key && es[i].blockNumber == Beats(es)[key]
        && forall j :: i < j < |es| ==> !(IsBeat(es[j]) && es[j].record.sender == key);
      assert IsLastBeat(es, i, key);
    }
  }

  lemma LastBeatUnique(es: seq<Entry>, key: string, i: int)
    requires IsLastBeat(es, i, key)
    ensures key in Beats(es) && Beats(es)[key] == es[i].blockNumber
    ensures forall j :: IsLastBeat(es, j, key) ==> j == i
  {
    BeatsAreLast(es, key);
    assert es[i] in es;
  }

  lemma {:induction false} NobodyBeat(es: seq<Entry>)
    ensures Beats(es) == map[] <==> forall e <- es :: !IsBeat(e)
  {
    if es != [] {
      var n := |es| - 1;
      NobodyBeat(es[..n]);
      assert es == es[..n] + [es[n]];
      if IsBeat(es[n]) { assert es[n].record.sender in Beats(es); }
    }
  }

  function Active(members: seq<Record>, beats: map<string, int>, cutoff: int): seq<Record> {
    if members == [] then []
    else
      var before, m := Active(members[..|members| - 1], beats, cutoff), members[|members| - 1];
      if IsActive(beats, m.sender, cutoff) then before + [m] else before
  }

  /** The filter keeps exactly the active members, each once. */
  lemma {:induction false} ActiveKeeps(members: seq<Record>, beats: map<string, int>, cutoff: int)
    requires DistinctKeys(members)
    ensures
      var active := Active(members, beats, cutoff);
      && DistinctKeys(active)
      && forall m :: m in active <==> m in members && IsActive(beats, m.sender, cutoff)
  {
    if members != [] {
      var n := |members| - 1;
      ActiveKeeps(members[..n], beats, cutoff);
      assert members == members[..n] + [members[n]];
      var before := Active(members[..n], beats, cutoff);
      forall i | 0 <= i < |before| ensures before[i].sender != members[n].sender {
        assert before[i] in members[..n];
      }
    }
  }

  // ---------------------------------------------------------------- the replay

  lemma OtherRecord(names: map<string, string>, joined: seq<Record>, r: Record)
    ensures r.kind != JoinNetwork ==> Join(joined, r) == joined
    ensures r.kind != JoinNetwork && (r.kind != UpdateName || r.sender == "" || r.name == "") ==> Step(names, r) == names
  {
  }

  /** Names, members and heartbeats are those of the reference folds. */
  ghost predicate Follows(members: seq<Record>, heartbeats: map<string, int>, es: seq<Entry>) {
    NamesOf(members) == Run(map[], es) && Nameless(members) == Joined(es) && heartbeats == Beats(es)
  }

  class Registry {
    var members: seq<Record>
    var nameOwners: map<string, string>
    var heartbeats: map<string, int>
    var sawHeartbeat: bool

    ghost predicate Valid()
      reads this
    {
      Consistent(members, nameOwners) && (sawHeartbeat <==> heartbeats != map[])
    }

    /** The state after the entries: names, members and heartbeats of the reference folds. */
    ghost predicate Replays(es: seq<Entry>)
      reads this
    {
      Valid() && Follows(members, heartbeats, es)
    }

    constructor ()
      ensures Replays([])
    {
      members, nameOwners := [], map[];
      heartbeats, sawHeartbeat := map[], false;
    }

    /** `claimPublicName`. */
    method ClaimPublicName(key: string, name: string) returns (claimed: bool)
      requires Valid()
      modifies this`members, this`nameOwners
      ensures Valid()
      ensures claimed <==> CanClaim(NamesOf(old(members)), key, name)
      ensures NamesOf(members) == Claim(NamesOf(old(members)), key, name)
      ensures Nameless(members) == Nameless(old(members))
    {
      IndexAnswers(members, nameOwners, key, name);
      var normalized := NormalizedPublicName(name);
      if |normalized| == 0 {
        return false;
      }
      var i := MemberIndexByKey(members, key);
      if i < 0 {
        return false;
      }
      if normalized in nameOwners && nameOwners[normalized] != key {
        return false;
      }
      Forgets(members, nameOwners, i);
      RenameKeeps(members, nameOwners, i, name);
      NamesOfRename(members, i, name);
      RenameIsNameless(members, i, name);
      var previous := NormalizedPublicName(members[i].name);
      if |previous| > 0 {
        if previous in nameOwners && nameOwners[previous] == key {
          nameOwners := nameOwners - {previous};
        }
      }
      members := members[i := members[i].(name := name)];
      nameOwners := nameOwners[normalized := key];
      return true;
    }

    /** The branches of `activeMembershipRecords` for one record. */
    method ReplayRecord(number: int, r: Record)
      requires Valid()
      modifies this
      ensures Valid()
      ensures NamesOf(members) == Step(NamesOf(old(members)), r)
      ensures Nameless(members) == Join(Nameless(old(members)), r)
      ensures heartbeats == if r.kind == HeartBeat && r.sender != "" then old(heartbeats)[r.sender := number] else old(heartbeats)
    {
      if r.kind == JoinNetwork {
        ReplayJoin(r);
      }
      if r.kind == UpdateName && |r.sender| > 0 && |r.name| > 0 {
        ReplayUpdate(r);
      }
      OtherRecord(NamesOf(members), Nameless(members), r);
      if r.kind == HeartBeat && |r.sender| > 0 {
        Beat(r.sender, number);
      }
    }

    method ReplayUpdate(r: Record)
      requires Valid() && r.kind == UpdateName && r.sender != "" && r.name != ""
      modifies this`members, this`nameOwners
      ensures Valid()
      ensures NamesOf(members) == Step(NamesOf(old(members)), r)
      ensures Nameless(members) == Join(Nameless(old(members)), r)
    {
      var _ := ClaimPublicName(r.sender, r.name);
    }

    method Beat(key: string, number: int)
      requires Valid()
      modifies this`heartbeats, this`sawHeartbeat
      ensures Valid() && heartbeats == old(heartbeats)[key := number]
    {
      sawHeartbeat := true;
      heartbeats := heartbeats[key := number];
      assert key in heartbeats;
    }

    method ReplayJoin(r: Record)
      requires Valid() && r.kind == JoinNetwork
      modifies this`members, this`nameOwners
      ensures Valid()
      ensures NamesOf(members) == Step(NamesOf(old(members)), r)
      ensures Nameless(members) == Join(Nameless(old(members)), r)
    {
      JoinMembers(members, r);
      var i := MemberIndexByKey(members, r.sender);
      if i < 0 {
        JoinKeeps(members, nameOwners, r.(name := ""));
        members := members + [r.(name := "")];
        if |r.name| > 0 {
          var _ := ClaimPublicName(r.sender, r.name);
        }
      }
    }

    method ReplayEntry(number: int, creator: string, r: Record, ghost es: seq<Entry>)
      requires Replays(es)
      modifies this
      ensures Replays(es + [Entry(number, creator, r)])
    {
      ReplayRecord(number, r);
      assert (es + [Entry(number, creator, r)])[..|es|] == es;
    }

    method ReplayRecords(b: Block, ghost before: seq<seq<Entry>>)
      requires |before| == |b.records| + 1 && Replays(before[0])
      requires forall i :: 0 <= i < |b.records| ==> before[i + 1] == before[i] + [Entry(b.number, b.creator, b.records[i])]
      modifies this
      ensures Replays(before[|b.records|])
    {
      for i := 0 to |b.records|
        invariant Replays(before[i])
      {
        ReplayEntry(b.number, b.creator, b.records[i], before[i]);
      }
    }

    /** The loop over a block's records. */
    method ReplayBlock(b: Block, ghost done: seq<Block>)
      requires Replays(Entries(done))
      modifies this
      ensures Replays(Entries(done + [b]))
    {
      EntriesGrow(done, b);
      ghost var before := Stages(b, Entries(done));
      ReplayRecords(b, before);
    }

    /** The loop over blocks. */
    method Replay(store: BlockDb, latest: int, start: Block, ghost next: Block -> Block)
      requires Replays([]) && Indexed(store.db) && Succeeds(store.db, next)
      modifies this
      ensures Replays(Entries(Visited(next, None, latest, start, 0)))
    {
      ghost var done: seq<Block> := [];
      ghost var all := Visited(next, None, latest, start, 0);
      var block, guard := start, 0;
      while block.number > 0 && guard < MAX_WALK
        invariant 0 <= guard <= MAX_WALK
        invariant Replays(Entries(done))
        invariant Remaining(next, None, latest, all, done, block, guard)
        decreases MAX_WALK - guard
      {
        ghost var grown := done + [block];
        ReplayBlock(block, done);
        var more, after := NextOnWalk(store, next, None, latest, block, guard, all, done);
        if !more {
          return;
        }
        done := grown;
        block, guard := after, guard + 1;
      }
      NoneRemain(next, None, latest, all, done, block, guard);
    }

    method ActiveMembers(cutoff: int) returns (active: seq<Record>)
      requires Valid()
      ensures active == Active(members, heartbeats, cutoff)
    {
      active := [];
      for m := 0 to |members|
        invariant active == Active(members[..m], heartbeats, cutoff)
      {
        assert members[..m + 1][..m] == members[..m];
        var key := members[m].sender;
        if !sawHeartbeat || (key in heartbeats && heartbeats[key] >= cutoff) {
          active := active + [members[m]];
        }
      }
      assert members[..|members|] == members;
    }
  }

  /** `activeMembershipRecords`; the time block of the moment is the caller's. The result holds exactly the members that
      joined on the replayed chain and are active, each once, in the order they joined and with its current name, and no
      name twice. */
  method ActiveMembershipRecords(store: BlockDb, currentTimeBlock: int) returns (active: seq<Record>)
    requires Indexed(store.db)
    ensures
      var es := Entries(Walk(store.db, None));
      var names, beats, cutoff := Run(map[], es), Beats(es), currentTimeBlock - HEARTBEAT_VALID_BLOCKS;
      && DistinctKeys(active) && Unshared(names) && Nameless(active) == Active(Joined(es), beats, cutoff)
      && (forall m <- active :: m.sender in names && names[m.sender] == m.name && IsActive(beats, m.sender, cutoff))
      && (forall k <- names :: IsActive(beats, k, cutoff) ==> exists m <- active :: m.sender == k)
  {
    var registry := new Registry();
    var first, latest := FirstId(store.db), LatestId(store.db);
    if first < 0 || latest < 0 {
      return [];
    }
    registry.Replay(store, latest, GetBlock(store.db, first), Next(store.db));
    active := registry.ActiveMembers(currentTimeBlock - HEARTBEAT_VALID_BLOCKS);
    ActiveMeaning(registry.members, registry.heartbeats, currentTimeBlock - HEARTBEAT_VALID_BLOCKS);
    ActiveOrder(registry.members, registry.heartbeats, currentTimeBlock - HEARTBEAT_VALID_BLOCKS);
    RunUnshared(map[], Entries(Walk(store.db, None)));
  }

  /** The filter looks at keys only, so the order of joining stays. */
  lemma {:induction false} ActiveOrder(members: seq<Record>, beats: map<string, int>, cutoff: int)
    ensures Nameless(Active(members, beats, cutoff)) == Active(Nameless(members), beats, cutoff)
  {
    if members != [] {
      var n := |members| - 1;
      ActiveOrder(members[..n], beats, cutoff);
      var before := Active(members[..n], beats, cutoff);
      assert (before + [members[n]])[..|before|] == before;
      assert Nameless(members)[..n] == Nameless(members[..n]);
    }
  }

  lemma ActiveMeaning(members: seq<Record>, beats: map<string, int>, cutoff: int)
    requires DistinctKeys(members)
    ensures
      var active, names := Active(members, beats, cutoff), NamesOf(members);
      && DistinctKeys(active)
      && (forall m <- active :: m.sender in names && names[m.sender] == m.name && IsActive(beats, m.sender, cutoff))
      && (forall k <- names :: IsActive(beats, k, cutoff) ==> exists m <- active :: m.sender == k)
  {
    ActiveKeeps(members, beats, cutoff);
    NamesOfKeys(members);
    var active, names := Active(members, beats, cutoff), NamesOf(members);
    forall m <- active ensures m.sender in names && names[m.sender] == m.name {
      var i :| 0 <= i < |members| && members[i] == m;
      NamesOfAt(members, i);
    }
    forall k <- names | IsActive(beats, k, cutoff) ensures exists m <- active :: m.sender == k {
      var i :| 0 <= i < |members| && members[i].sender == k;
      assert members[i] in active;
    }
  }

  /** After a slow rebuild the names are those the committed chain gives. */
  lemma NamesAfterRebuild(env: Env, db: Db)
    requires Valid(env, db) && AcceptedPrefix(env, Selected(db)) != []
    ensures Valid(env, SlowRebuild(env, db).1)
    ensures Run(map[], Entries(Walk(SlowRebuild(env, db).1, None)))
         == Run(map[], Entries(UpTo(AcceptedPrefix(env, Selected(db)), None)))
    ensures UpTo(AcceptedPrefix(env, Selected(db)), None) == AcceptedPrefix(env, Selected(db))
  {
    WalkAfterRebuild(env, db, None);
    UpToNone(AcceptedPrefix(env, Selected(db)));
  }

  lemma {:induction false} UpToNone(chain: seq<Block>)
    ensures UpTo(chain, None) == chain
  {
    if chain != [] { UpToNone(chain[1..]); }
  }
}

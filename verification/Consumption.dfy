// Who a consumer group belongs to, and the per-user deltas of the sampling loop.
// Source: src/api/consumption.rs (run_cycle, UserConsumption, resolve_owner)
module Consumption {
  import opened Wrappers

  datatype Owner = Owner(userId: string, credentialId: string)

  type Owners = map<string, Owner>

  // ----- resolving a group to an owner -----

  /** A group named `{username}-...` belongs to that username. */
  predicate Claims(username: string, group: string) {
    username + "-" <= group
  }

  /** An enumeration of the usernames, each once, as the map's iteration happens to yield them. */
  ghost predicate Enumerates(order: seq<string>, owners: Owners) {
    (forall u :: u in order <==> u in owners) && Distinct(order)
  }

  predicate Distinct(names: seq<string>) {
    forall i, j :: 0 <= i < j < |names| ==> names[i] != names[j]
  }

  function FirstClaim(group: string, owners: Owners, order: seq<string>): (r: Option<Owner>)
    requires forall u :: u in order ==> u in owners
    ensures r.Some? <==> exists u :: u in order && Claims(u, group)
    ensures r.Some? ==> exists u :: u in order && Claims(u, group) && r.value == owners[u]
  {
    if order == [] then None
    else if Claims(order[0], group) then Some(owners[order[0]])
    else FirstClaim(group, owners, order[1..])
  }

  function Resolve(group: string, owners: Owners, order: seq<string>): Option<Owner>
    requires Enumerates(order, owners)
  {
    if group in owners then Some(owners[group]) else FirstClaim(group, owners, order)
  }

  /** Of the usernames in this order, the k-th is the first that begins the group up to a dash. */
  predicate ClaimsFirst(order: seq<string>, k: nat, group: string)
    requires k < |order|
  {
    order[k] + "-" <= group && forall j :: 0 <= j < k ==> !(order[j] + "-" <= group)
  }

  lemma {:induction false} FirstClaimAt(group: string, owners: Owners, order: seq<string>) returns (k: nat)
    requires forall u :: u in order ==> u in owners
    ensures FirstClaim(group, owners, order).Some? ==>
              k < |order| && ClaimsFirst(order, k, group) && FirstClaim(group, owners, order).value == owners[order[k]]
  {
    k := 0;
    if order != [] && !Claims(order[0], group) {
      var rest := order[1..];
      var i := FirstClaimAt(group, owners, rest);
      assert FirstClaim(group, owners, order) == FirstClaim(group, owners, rest);
      k := i + 1;
      if FirstClaim(group, owners, rest).Some? {
        hide FirstClaim;
        assert order[k] == rest[i];
        forall j | 0 <= j < k ensures !(order[j] + "-" <= group) {
          assert j > 0 ==> order[j] == rest[j - 1];
        }
      }
    }
  }

  /** The exact name first, and else the first username whose dash-prefix the group has. */
  lemma ResolveMeaning(group: string, owners: Owners, order: seq<string>)
    requires Enumerates(order, owners)
    ensures var r := Resolve(group, owners, order);
            if group in owners then r == Some(owners[group])
            else (r.None? <==> forall u :: u in owners ==> !(u + "-" <= group)) &&
                 (r.Some? ==> exists k :: 0 <= k < |order| && ClaimsFirst(order, k, group) && r.value == owners[order[k]])
  {
    if group !in owners {
      var r := FirstClaim(group, owners, order);
      var k := FirstClaimAt(group, owners, order);
      assert r.None? <==> forall u :: u in owners ==> !Claims(u, group);
      assert forall u :: u in owners ==> (Claims(u, group) <==> u + "-" <= group);
    }
  }

  lemma ClaimsBySuffix(username: string, group: string)
    ensures Claims(username, group) <==>
            username <= group && group[|username|..] != "" && group[|username|..][0] == '-'
  {
    if username <= group && group[|username|..] != "" && group[|username|..][0] == '-' {
      assert username + "-" == group[..|username| + 1];
    }
    if Claims(username, group) {
      assert username == group[..|username|] && (username + "-")[|username|] == group[|username|];
    }
  }

  method ResolveOwner(group: string, owners: Owners, order: seq<string>) returns (r: Option<Owner>)
    requires Enumerates(order, owners)
    ensures r == Resolve(group, owners, order)
    ensures group in owners ==> r == Some(owners[group])
    ensures group !in owners ==>
              (r.None? <==> forall u :: u in owners ==> !(u + "-" <= group)) &&
              (r.Some? ==> exists k :: 0 <= k < |order| && ClaimsFirst(order, k, group) && r.value == owners[order[k]])
  {
    ResolveMeaning(group, owners, order);
    if group in owners {
      return Some(owners[group]);
    }
    hide Claims;
    for k := 0 to |order|
      invariant FirstClaim(group, owners, order) == FirstClaim(group, owners, order[k..])
    {
      var username := order[k];
      ClaimsBySuffix(username, group);
      assert order[k..][0] == username && order[k..][1..] == order[k + 1..];
      if username <= group {
        var suffix := group[|username|..];
        if suffix != "" && suffix[0] == '-' {
          return Some(owners[username]);
        }
      }
    }
    return None;
  }

  /** Two usernames between which the groups of the longer one are in dispute. */
  predicate Overlap(u: string, v: string, owners: Owners) {
    u in owners && v in owners && Claims(u, v) && owners[u] != owners[v]
  }

  ghost predicate NoOverlap(owners: Owners) {
    forall u, v :: !Overlap(u, v, owners)
  }

  /** Whatever order the map is iterated in, the group resolves to the same owner. */
  ghost predicate Determined(group: string, owners: Owners) {
    forall o, p :: Enumerates(o, owners) && Enumerates(p, owners) ==> Resolve(group, owners, o) == Resolve(group, owners, p)
  }

  /** Of two usernames claiming one group, the shorter claims the longer. */
  lemma ClaimsNest(u: string, v: string, group: string)
    requires Claims(u, group) && Claims(v, group) && u != v
    ensures if |u| < |v| then Claims(u, v) else Claims(v, u)
  {
    var (short, long) := if |u| < |v| then (u, v) else (v, u);
    assert short == group[..|short|] && long == group[..|long|];
    assert (short + "-") == group[..|short| + 1] == long[..|short| + 1];
  }

  lemma NoOverlapMeansDetermined(group: string, owners: Owners)
    requires NoOverlap(owners)
    ensures Determined(group, owners)
  {
    forall o, p | Enumerates(o, owners) && Enumerates(p, owners)
      ensures Resolve(group, owners, o) == Resolve(group, owners, p)
    {
      if group !in owners && Resolve(group, owners, o).Some? {
        var u :| u in o && Claims(u, group) && Resolve(group, owners, o).value == owners[u];
        assert u in p;
        var v :| v in p && Claims(v, group) && Resolve(group, owners, p).value == owners[v];
        if u != v {
          ClaimsNest(u, v, group);
          assert !Overlap(u, v, owners) && !Overlap(v, u, owners);
        }
      }
    }
  }

  lemma {:induction false} SomeEnumeration(names: set<string>) returns (order: seq<string>)
    ensures (forall u :: u in order <==> u in names) && Distinct(order)
    decreases |names|
  {
    if names == {} {
      order := [];
    } else {
      var u :| u in names;
      var rest := SomeEnumeration(names - {u});
      order := [u] + rest;
    }
  }

  lemma {:induction false} LongerThanAll(names: set<string>) returns (n: nat)
    ensures forall u :: u in names ==> |u| <= n
    decreases |names|
  {
    if names == {} {
      n := 0;
    } else {
      var u :| u in names;
      var m := LongerThanAll(names - {u});
      n := m + |u|;
    }
  }

  lemma OverlapMeansSomeGroupIsNot(u: string, v: string, owners: Owners) returns (group: string)
    requires Overlap(u, v, owners)
    ensures !Determined(group, owners)
  {
    var n := LongerThanAll(owners.Keys);
    group := v + "-" + seq(n, _ => '-');
    assert Claims(v, group);
    assert Claims(u, group);
    assert group !in owners;
    var o := EnumerationFrom(u, owners);
    var p := EnumerationFrom(v, owners);
    hide Enumerates, Claims;
    assert Resolve(group, owners, o) == Some(owners[u]);
    assert Resolve(group, owners, p) == Some(owners[v]);
  }

  /** The iteration may begin with any username. */
  lemma EnumerationFrom(u: string, owners: Owners) returns (order: seq<string>)
    requires u in owners
    ensures Enumerates(order, owners) && order != [] && order[0] == u
  {
    var rest := SomeEnumeration(owners.Keys - {u});
    order := [u] + rest;
    assert forall w :: w in order <==> w == u || w in rest;
  }

  /** Attribution is independent of map order for every group exactly when no two owners'
      usernames overlap. */
  lemma DeterminedExactly(owners: Owners)
    ensures (forall group :: Determined(group, owners)) <==> NoOverlap(owners)
  {
    if NoOverlap(owners) {
      forall group ensures Determined(group, owners) {
        NoOverlapMeansDetermined(group, owners);
      }
    } else {
      var u, v :| Overlap(u, v, owners);
      var group := OverlapMeansSomeGroupIsNot(u, v, owners);
    }
  }

  /** Generated usernames have one length, so their groups are never in dispute. */
  lemma EqualLengthsNeverOverlap(owners: Owners, n: nat)
    requires forall u :: u in owners ==> |u| == n
    ensures NoOverlap(owners)
  {
    forall u, v ensures !Overlap(u, v, owners) {
      assert |u + "-"| == |u| + 1;
    }
  }

  // ----- one sampling cycle -----

  type Pair = (string, string)

  datatype Position = Position(committed: nat, available: nat, lag: nat)

  /** What Kafka says: for each group, its position on each topic. */
  type Sample = map<string, map<string, Position>>

  /** One cycle's consumption for a single user, over all their groups. */
  datatype UserConsumption = UserConsumption(
    messages: nat, lag: nat, topics: set<string>, credentials: set<string>)

  const NO_CONSUMPTION := UserConsumption(0, 0, {}, {})

  predicate Has(sample: Sample, p: Pair) {
    p.0 in sample && p.1 in sample[p.0]
  }

  function PositionOf(sample: Sample, p: Pair): Position
    requires Has(sample, p)
  {
    sample[p.0][p.1]
  }

  function Pairs(sample: Sample): set<Pair> {
    set g, t | g in sample && t in sample[g] :: (g, t)
  }

  /** The offsets a sample leaves to be remembered. */
  function Committed(sample: Sample): map<Pair, nat> {
    map p | p in Pairs(sample) :: PositionOf(sample, p).committed
  }

  /** Progress since the last cycle: none for a new pair or a reset offset. */
  function Delta(previous: map<Pair, nat>, sample: Sample, p: Pair): nat
    requires Has(sample, p)
  {
    var now := PositionOf(sample, p).committed;
    if p in previous && now > previous[p] then now - previous[p] else 0
  }

  /** The inputs of a cycle: the credentials, in the map order they happen to have, and the sample. */
  datatype Cycle = Cycle(owners: Owners, order: seq<string>, sample: Sample) {
    ghost predicate Valid() {
      Enumerates(order, owners)
    }

    function OwnerOf(p: Pair): Option<Owner>
      requires Valid()
    {
      Resolve(p.0, owners, order)
    }
  }

  /** Whether the pair counts for the user in this cycle. */
  ghost predicate CountsFor(cycle: Cycle, previous: map<Pair, nat>, p: Pair, user: string)
    requires cycle.Valid()
  {
    Has(cycle.sample, p) && Delta(previous, cycle.sample, p) > 0 &&
    cycle.OwnerOf(p).Some? && cycle.OwnerOf(p).value.userId == user
  }

  ghost function Counting(cycle: Cycle, previous: map<Pair, nat>, among: set<Pair>, user: string): set<Pair>
    requires cycle.Valid()
  {
    set p | p in among && CountsFor(cycle, previous, p, user)
  }

  ghost function SumOver<T(!new)>(s: set<T>, f: T -> nat): nat {
    if s == {} then 0
    else
      var x :| x in s;
      f(x) + SumOver(s - {x}, f)
  }

  lemma {:induction false} SumOverRemove<T(!new)>(s: set<T>, f: T -> nat, x: T)
    requires x in s
    ensures SumOver(s, f) == f(x) + SumOver(s - {x}, f)
    decreases |s|
  {
    var y :| y in s && SumOver(s, f) == f(y) + SumOver(s - {y}, f);
    if y != x {
      SumOverRemove(s - {y}, f, x);
      SumOverRemove(s - {x}, f, y);
      assert s - {y} - {x} == s - {x} - {y};
    }
  }

  lemma SumOverAdd<T(!new)>(s: set<T>, f: T -> nat, x: T)
    requires x !in s
    ensures SumOver(s + {x}, f) == SumOver(s, f) + f(x)
  {
    SumOverRemove(s + {x}, f, x);
    assert s + {x} - {x} == s;
  }

  lemma {:induction false} SumOverPlus<T(!new)>(s: set<T>, f: T -> nat, g: T -> nat, h: T -> nat)
    requires forall x :: x in s ==> h(x) == f(x) + g(x)
    ensures SumOver(s, h) == SumOver(s, f) + SumOver(s, g)
    decreases |s|
  {
    if s != {} {
      var x :| x in s;
      SumOverRemove(s, f, x);
      SumOverRemove(s, g, x);
      SumOverRemove(s, h, x);
      SumOverPlus(s - {x}, f, g, h);
    }
  }

  ghost function DeltaIn(cycle: Cycle, previous: map<Pair, nat>): Pair -> nat {
    p => if Has(cycle.sample, p) then Delta(previous, cycle.sample, p) else 0
  }

  ghost function LagIn(cycle: Cycle): Pair -> nat {
    p => if Has(cycle.sample, p) then PositionOf(cycle.sample, p).lag else 0
  }

  ghost function CredentialOf(cycle: Cycle, p: Pair): string
    requires cycle.Valid()
  {
    if cycle.OwnerOf(p).Some? then cycle.OwnerOf(p).value.credentialId else ""
  }

  /** What a set of pairs amounts to for a user. */
  ghost function ConsumptionOf(cycle: Cycle, previous: map<Pair, nat>, among: set<Pair>, user: string): UserConsumption
    requires cycle.Valid()
  {
    var mine := Counting(cycle, previous, among, user);
    UserConsumption(
      SumOver(mine, DeltaIn(cycle, previous)),
      SumOver(mine, LagIn(cycle)),
      set p | p in mine :: p.1,
      set p | p in mine :: CredentialOf(cycle, p))
  }

  /** Whether any of the pairs counts for the user. */
  ghost predicate Active(cycle: Cycle, previous: map<Pair, nat>, among: set<Pair>, user: string)
    requires cycle.Valid()
  {
    exists p :: p in among && CountsFor(cycle, previous, p, user)
  }

  /** The per-user map of a cycle: an entry for exactly the users with progress, each with
      everything that is theirs among these pairs. */
  ghost predicate IsTally(cycle: Cycle, previous: map<Pair, nat>, among: set<Pair>, deltas: map<string, UserConsumption>)
    requires cycle.Valid()
  {
    forall user :: Lookup(deltas, user) == Due(cycle, previous, among, user)
  }

  function Lookup(deltas: map<string, UserConsumption>, user: string): Option<UserConsumption> {
    if user in deltas then Some(deltas[user]) else None
  }

  ghost function Due(cycle: Cycle, previous: map<Pair, nat>, among: set<Pair>, user: string): Option<UserConsumption>
    requires cycle.Valid()
  {
    if Active(cycle, previous, among, user) then Some(ConsumptionOf(cycle, previous, among, user)) else None
  }

  lemma NothingTallied(cycle: Cycle, previous: map<Pair, nat>)
    requires cycle.Valid()
    ensures IsTally(cycle, previous, {}, map[])
  {
  }

  lemma CountingAdd(cycle: Cycle, previous: map<Pair, nat>, among: set<Pair>, p: Pair, user: string)
    requires cycle.Valid()
    ensures Counting(cycle, previous, among + {p}, user) ==
            Counting(cycle, previous, among, user) + if CountsFor(cycle, previous, p, user) then {p} else {}
  {
    hide CountsFor;
  }

  lemma ConsumptionAdd(cycle: Cycle, previous: map<Pair, nat>, among: set<Pair>, p: Pair, user: string)
    requires cycle.Valid() && p !in among
    ensures ConsumptionOf(cycle, previous, among + {p}, user) ==
            if CountsFor(cycle, previous, p, user)
            then Bumped(ConsumptionOf(cycle, previous, among, user), cycle, previous, p)
            else ConsumptionOf(cycle, previous, among, user)
  {
    hide CountsFor, Counting, DeltaIn, LagIn, CredentialOf;
    CountingAdd(cycle, previous, among, p, user);
    var mine := Counting(cycle, previous, among, user);
    assert p !in mine by { CountingIsSubset(cycle, previous, among, user); }
    if CountsFor(cycle, previous, p, user) {
      SumOverAdd(mine, DeltaIn(cycle, previous), p);
      SumOverAdd(mine, LagIn(cycle), p);
      assert (set q | q in mine + {p} :: q.1) == (set q | q in mine :: q.1) + {p.1};
      assert (set q | q in mine + {p} :: CredentialOf(cycle, q)) ==
             (set q | q in mine :: CredentialOf(cycle, q)) + {CredentialOf(cycle, p)};
    } else {
      assert mine + {} == mine;
    }
  }

  lemma CountingIsSubset(cycle: Cycle, previous: map<Pair, nat>, among: set<Pair>, user: string)
    requires cycle.Valid()
    ensures Counting(cycle, previous, among, user) <= among
    ensures Counting(cycle, previous, among, user) != {} <==> Active(cycle, previous, among, user)
  {
    hide CountsFor;
    var mine := Counting(cycle, previous, among, user);
    if mine != {} {
      var p :| p in mine;
      assert p in among && CountsFor(cycle, previous, p, user);
    }
    if Active(cycle, previous, among, user) {
      var p :| p in among && CountsFor(cycle, previous, p, user);
      assert p in mine;
    }
  }

  lemma ActiveAdd(cycle: Cycle, previous: map<Pair, nat>, among: set<Pair>, p: Pair, user: string)
    requires cycle.Valid()
    ensures Active(cycle, previous, among + {p}, user) <==>
            Active(cycle, previous, among, user) || CountsFor(cycle, previous, p, user)
  {
    hide CountsFor;
    if CountsFor(cycle, previous, p, user) {
      assert p in among + {p};
    }
  }

  /** A user's consumption after one more pair of theirs. */
  ghost function Bumped(entry: UserConsumption, cycle: Cycle, previous: map<Pair, nat>, p: Pair): UserConsumption
    requires cycle.Valid()
  {
    UserConsumption(
      entry.messages + DeltaIn(cycle, previous)(p), entry.lag + LagIn(cycle)(p),
      entry.topics + {p.1}, entry.credentials + {CredentialOf(cycle, p)})
  }

  function EntryOf(deltas: map<string, UserConsumption>, user: string): UserConsumption {
    if user in deltas then deltas[user] else NO_CONSUMPTION
  }

  lemma DueAdd(cycle: Cycle, previous: map<Pair, nat>, among: set<Pair>, p: Pair, user: string)
    requires cycle.Valid() && p !in among
    ensures var due := Due(cycle, previous, among, user);
            Due(cycle, previous, among + {p}, user) ==
            if CountsFor(cycle, previous, p, user)
            then Some(Bumped(if due.Some? then due.value else NO_CONSUMPTION, cycle, previous, p)) else due
  {
    EmptyConsumption(cycle, previous, among, user);
    hide CountsFor, ConsumptionOf, Bumped, Active;
    ActiveAdd(cycle, previous, among, p, user);
    ConsumptionAdd(cycle, previous, among, p, user);
  }

  lemma TallySkips(cycle: Cycle, previous: map<Pair, nat>, among: set<Pair>, deltas: map<string, UserConsumption>, p: Pair)
    requires cycle.Valid() && IsTally(cycle, previous, among, deltas) && p !in among
    requires forall user :: !CountsFor(cycle, previous, p, user)
    ensures IsTally(cycle, previous, among + {p}, deltas)
  {
    hide CountsFor, Due, Lookup, Bumped;
    forall user ensures Lookup(deltas, user) == Due(cycle, previous, among + {p}, user) {
      DueAdd(cycle, previous, among, p, user);
    }
  }

  lemma TallyBumps(
    cycle: Cycle, previous: map<Pair, nat>, among: set<Pair>, deltas: map<string, UserConsumption>, p: Pair, user: string)
    requires cycle.Valid() && IsTally(cycle, previous, among, deltas) && p !in among
    requires forall other :: CountsFor(cycle, previous, p, other) <==> other == user
    ensures IsTally(cycle, previous, among + {p}, deltas[user := Bumped(EntryOf(deltas, user), cycle, previous, p)])
  {
    var after := deltas[user := Bumped(EntryOf(deltas, user), cycle, previous, p)];
    hide CountsFor, Due, Bumped;
    forall other ensures Lookup(after, other) == Due(cycle, previous, among + {p}, other) {
      DueAdd(cycle, previous, among, p, other);
      assert Lookup(deltas, other) == Due(cycle, previous, among, other);
    }
  }

  lemma EmptyConsumption(cycle: Cycle, previous: map<Pair, nat>, among: set<Pair>, user: string)
    requires cycle.Valid()
    ensures !Active(cycle, previous, among, user) ==>
              ConsumptionOf(cycle, previous, among, user) == NO_CONSUMPTION
  {
    hide CountsFor, Counting, DeltaIn, LagIn, Active;
    CountingIsSubset(cycle, previous, among, user);
  }

  /** The remembered offsets in the middle of a cycle: this sample's for the pairs done. */
  ghost predicate Remembers(now: map<Pair, nat>, before: map<Pair, nat>, sample: Sample, done: set<Pair>) {
    && done <= Pairs(sample)
    && (forall p :: p in now <==> p in before || p in done)
    && (forall p :: p in done ==> p in now && Has(sample, p) && now[p] == PositionOf(sample, p).committed)
    && (forall p :: p in before && p !in done ==> p in now && now[p] == before[p])
  }

  /** One pair of a cycle: what the loop body does to the remembered offsets and to the tally. */
  lemma VisitPair(
    cycle: Cycle, before: map<Pair, nat>, now: map<Pair, nat>, done: set<Pair>, deltas: map<string, UserConsumption>,
    p: Pair, position: Position, owner: Option<Owner>, delta: nat, entry: UserConsumption)
    requires cycle.Valid() && p !in done
    requires Has(cycle.sample, p) && position == PositionOf(cycle.sample, p) && owner == cycle.OwnerOf(p)
    requires delta == if p in now && position.committed > now[p] then position.committed - now[p] else 0
    requires Remembers(now, before, cycle.sample, done) && IsTally(cycle, before, done, deltas)
    requires owner.Some? ==> entry == EntryOf(deltas, owner.value.userId)
    ensures Remembers(now[p := position.committed], before, cycle.sample, done + {p})
    ensures delta == 0 || owner.None? ==> IsTally(cycle, before, done + {p}, deltas)
    ensures delta > 0 && owner.Some? ==>
              IsTally(cycle, before, done + {p},
                      deltas[owner.value.userId := UserConsumption(
                               entry.messages + delta, entry.lag + position.lag,
                               entry.topics + {p.1}, entry.credentials + {owner.value.credentialId})])
  {
    hide IsTally;
    if delta == 0 || owner.None? {
      TallySkips(cycle, before, done, deltas, p);
    } else {
      TallyBumps(cycle, before, done, deltas, p, owner.value.userId);
    }
  }

  /** What the nested loops have visited: every pair but those of the groups left, and but the
      topics left of the group they are in. */
  ghost predicate Visited(done: set<Pair>, sample: Sample, groups: set<string>, group: string, topics: set<string>) {
    forall p :: p in done <==> Has(sample, p) && p.0 !in groups && !(p.0 == group && p.1 in topics)
  }

  lemma VisitGroup(done: set<Pair>, sample: Sample, groups: set<string>, group: string, last: string)
    requires Visited(done, sample, groups, last, {}) && group in groups && group in sample
    ensures Visited(done, sample, groups - {group}, group, sample[group].Keys)
  {
  }

  lemma VisitTopic(done: set<Pair>, sample: Sample, groups: set<string>, group: string, topics: set<string>, topic: string)
    requires Visited(done, sample, groups, group, topics)
    requires group in sample && topics <= sample[group].Keys && group !in groups && topic in topics
    ensures (group, topic) !in done && Has(sample, (group, topic))
    ensures PositionOf(sample, (group, topic)) == sample[group][topic]
    ensures Visited(done + {(group, topic)}, sample, groups, group, topics - {topic})
  {
  }

  lemma VisitedAll(done: set<Pair>, sample: Sample, last: string)
    requires Visited(done, sample, {}, last, {})
    ensures done == Pairs(sample)
  {
    forall p: Pair ensures p in done <==> p in Pairs(sample) {
      assert p == (p.0, p.1);
    }
  }

  lemma Forgets(now: map<Pair, nat>, before: map<Pair, nat>, sample: Sample)
    requires Remembers(now, before, sample, Pairs(sample))
    ensures (map p | p in now && Has(sample, p) :: now[p]) == Committed(sample)
  {
  }

  // ----- runs of cycles -----

  ghost predicate AllValid(run: seq<Cycle>) {
    forall k :: 0 <= k < |run| ==> run[k].Valid()
  }

  /** What is remembered after these cycles: the last one's offsets, and nothing older. */
  function Remembered(run: seq<Cycle>): map<Pair, nat> {
    if run == [] then map[] else Committed(run[|run| - 1].sample)
  }

  lemma Remember(run: seq<Cycle>, cycle: Cycle)
    requires AllValid(run) && cycle.Valid()
    ensures AllValid(run + [cycle]) && Remembered(run + [cycle]) == Committed(cycle.sample)
  {
  }

  /** A user's messages over a run, as the events report them. */
  ghost function MessagesOf(run: seq<Cycle>, user: string): nat
    requires AllValid(run)
  {
    if run == [] then 0
    else
      var n := |run| - 1;
      var due := Due(run[n], Remembered(run[..n]), Pairs(run[n].sample), user);
      MessagesOf(run[..n], user) + if due.Some? then due.value.messages else 0
  }

  /** A pair's positive increments between consecutive cycles that both show it. */
  ghost function Increments(run: seq<Cycle>, p: Pair): nat {
    if run == [] then 0
    else
      var n := |run| - 1;
      Increments(run[..n], p) + DeltaIn(run[n], Remembered(run[..n]))(p)
  }

  /** Of these, the increments in cycles in which the pair belonged to the user. */
  ghost function IncrementsFor(run: seq<Cycle>, p: Pair, user: string): nat
    requires AllValid(run)
  {
    if run == [] then 0
    else
      var n := |run| - 1;
      IncrementsFor(run[..n], p, user) +
      if CountsFor(run[n], Remembered(run[..n]), p, user) then DeltaIn(run[n], Remembered(run[..n]))(p) else 0
  }

  ghost function IncrementsIn(run: seq<Cycle>, user: string): Pair -> nat
    requires AllValid(run)
  {
    p => IncrementsFor(run, p, user)
  }

  lemma {:induction false} SumOverFilter<T(!new)>(s: set<T>, t: set<T>, f: T -> nat, h: T -> nat)
    requires t <= s
    requires forall x :: x in s ==> h(x) == if x in t then f(x) else 0
    ensures SumOver(s, h) == SumOver(t, f)
    decreases |s|
  {
    if s != {} {
      var x :| x in s;
      SumOverRemove(s, h, x);
      if x in t {
        SumOverRemove(t, f, x);
        SumOverFilter(s - {x}, t - {x}, f, h);
      } else {
        SumOverFilter(s - {x}, t, f, h);
      }
    }
  }

  lemma {:induction false} SumOverZero<T(!new)>(s: set<T>, f: T -> nat)
    requires forall x :: x in s ==> f(x) == 0
    ensures SumOver(s, f) == 0
    decreases |s|
  {
    if s != {} {
      var x :| x in s;
      SumOverRemove(s, f, x);
      SumOverZero(s - {x}, f);
    }
  }

  lemma DueMessages(cycle: Cycle, previous: map<Pair, nat>, among: set<Pair>, user: string)
    requires cycle.Valid()
    ensures var due := Due(cycle, previous, among, user);
            (if due.Some? then due.value.messages else 0) ==
            SumOver(Counting(cycle, previous, among, user), DeltaIn(cycle, previous))
  {
    hide Active, Counting, DeltaIn;
    CountingIsSubset(cycle, previous, among, user);
  }

  /** What a user is told over a run is the sum, over all pairs, of their increments. */
  lemma {:induction false} DeltasTelescope(run: seq<Cycle>, user: string, pairs: set<Pair>)
    requires AllValid(run) && forall k :: 0 <= k < |run| ==> Pairs(run[k].sample) <= pairs
    ensures MessagesOf(run, user) == SumOver(pairs, IncrementsIn(run, user))
    decreases |run|
  {
    if run == [] {
      SumOverZero(pairs, IncrementsIn(run, user));
    } else {
      var n := |run| - 1;
      DeltasTelescope(run[..n], user, pairs);
      var cycle, before := run[n], Remembered(run[..n]);
      var here := Pairs(cycle.sample);
      var step := p => if p in Counting(cycle, before, here, user) then DeltaIn(cycle, before)(p) else 0;
      DueMessages(cycle, before, here, user);
      hide DeltaIn, Due, SumOver;
      SumOverFilter(pairs, Counting(cycle, before, here, user), DeltaIn(cycle, before), step);
      SumOverPlus(pairs, IncrementsIn(run[..n], user), step, IncrementsIn(run, user));
    }
  }

  lemma {:induction false} OwnIncrementsAtMostAll(run: seq<Cycle>, p: Pair, user: string)
    requires AllValid(run)
    ensures IncrementsFor(run, p, user) <= Increments(run, p)
    decreases |run|
  {
    hide CountsFor, DeltaIn;
    if run != [] {
      OwnIncrementsAtMostAll(run[..|run| - 1], p, user);
    }
  }

  /** The committed offsets of a pair in the cycles that show it. */
  function Offsets(run: seq<Cycle>, p: Pair): seq<nat> {
    if run == [] then []
    else
      var n := |run| - 1;
      Offsets(run[..n], p) + if Has(run[n].sample, p) then [PositionOf(run[n].sample, p).committed] else []
  }

  predicate Nondecreasing(s: seq<nat>) {
    forall i, j :: 0 <= i < j < |s| ==> s[i] <= s[j]
  }

  function Net(s: seq<nat>): int {
    if s == [] then 0
    else
      var last: int := s[|s| - 1];
      last - s[0]
  }

  lemma LastOffset(run: seq<Cycle>, p: Pair)
    requires p in Remembered(run)
    ensures Offsets(run, p) != [] && Offsets(run, p)[|Offsets(run, p)| - 1] == Remembered(run)[p]
  {
  }

  /** Offsets that never go back are never over-counted, however often the pair disappears. */
  lemma {:induction false} NeverMoreThanProgress(run: seq<Cycle>, p: Pair)
    requires Nondecreasing(Offsets(run, p))
    ensures Increments(run, p) <= Net(Offsets(run, p))
    decreases |run|
  {
    if run != [] {
      var n := |run| - 1;
      var before := Offsets(run[..n], p);
      if p in Remembered(run[..n]) {
        LastOffset(run[..n], p);
      }
      hide Remembered, Committed, Nondecreasing;
      if Has(run[n].sample, p) {
        assert Offsets(run, p) == before + [PositionOf(run[n].sample, p).committed];
        NondecreasingAppend(before, PositionOf(run[n].sample, p).committed);
      } else {
        assert Offsets(run, p) == before;
      }
      NeverMoreThanProgress(run[..n], p);
    }
  }

  lemma NondecreasingAppend(s: seq<nat>, x: nat)
    ensures Nondecreasing(s + [x]) <==> Nondecreasing(s) && (s == [] || s[|s| - 1] <= x)
  {
    var t := s + [x];
    assert forall i :: 0 <= i < |s| ==> t[i] == s[i];
    if Nondecreasing(t) && s != [] {
      assert t[|s| - 1] <= t[|s|];
    }
  }

  /** For a pair every cycle shows, the increments are at least the net progress, and equal to it
      exactly when the offset never went back. */
  lemma {:induction false} IncrementsExactly(run: seq<Cycle>, p: Pair)
    requires forall k :: 0 <= k < |run| ==> Has(run[k].sample, p)
    ensures Increments(run, p) >= Net(Offsets(run, p))
    ensures Increments(run, p) == Net(Offsets(run, p)) <==> Nondecreasing(Offsets(run, p))
    decreases |run|
  {
    if |run| > 1 {
      var n := |run| - 1;
      var before, offset := Offsets(run[..n], p), PositionOf(run[n].sample, p).committed;
      IncrementsExactly(run[..n], p);
      assert p in Remembered(run[..n]);
      LastOffset(run[..n], p);
      assert Offsets(run, p) == before + [offset];
      hide Nondecreasing, Remembered, Has, PositionOf;
      NondecreasingAppend(before, offset);
    }
  }

  // ----- what a tally says, in terms of the sample -----

  /** The group's committed offset on the topic has grown since it was remembered, and the group is
      the user's. */
  ghost predicate Progressed(cycle: Cycle, previous: map<Pair, nat>, group: string, topic: string, user: string)
    requires cycle.Valid()
  {
    group in cycle.sample && topic in cycle.sample[group] && (group, topic) in previous &&
    previous[(group, topic)] < cycle.sample[group][topic].committed &&
    var owner := Resolve(group, cycle.owners, cycle.order);
    owner.Some? && owner.value.userId == user
  }

  lemma CountsIsProgress(cycle: Cycle, previous: map<Pair, nat>, group: string, topic: string, user: string)
    requires cycle.Valid()
    ensures CountsFor(cycle, previous, (group, topic), user) <==> Progressed(cycle, previous, group, topic, user)
    ensures (group, topic) in Counting(cycle, previous, Pairs(cycle.sample), user) <==>
            Progressed(cycle, previous, group, topic, user)
  {
  }

  /** A user has an entry exactly when one of their groups progressed on some topic, and it names
      exactly these topics. */
  lemma TallyMeans(cycle: Cycle, previous: map<Pair, nat>, deltas: map<string, UserConsumption>, user: string)
    requires cycle.Valid() && IsTally(cycle, previous, Pairs(cycle.sample), deltas)
    ensures user in deltas <==> exists g, t :: Progressed(cycle, previous, g, t, user)
    ensures user in deltas ==>
              forall t :: t in deltas[user].topics <==> exists g :: Progressed(cycle, previous, g, t, user)
  {
    assert Lookup(deltas, user) == Due(cycle, previous, Pairs(cycle.sample), user);
    hide IsTally, CountsFor, Progressed;
    var mine := Counting(cycle, previous, Pairs(cycle.sample), user);
    forall g, t ensures (g, t) in mine <==> Progressed(cycle, previous, g, t, user) {
      CountsIsProgress(cycle, previous, g, t, user);
    }
    CountingIsSubset(cycle, previous, Pairs(cycle.sample), user);
    hide Counting, Active;
    if mine != {} {
      var p :| p in mine;
      assert (p.0, p.1) in mine;
    }
    assert user in deltas <==> mine != {};
    if user in deltas {
      forall t ensures t in deltas[user].topics <==> exists g :: Progressed(cycle, previous, g, t, user) {
        if t in deltas[user].topics {
          var p :| p in mine && p.1 == t;
          assert (p.0, t) in mine;
        }
        if g :| Progressed(cycle, previous, g, t, user) {
          assert (g, t) in mine && (g, t).1 == t;
        }
      }
    }
  }

  /** A user with one pair that progressed gets its increment, its lag, its topic and the credential
      its group goes by. */
  lemma OnePairTallied(
    cycle: Cycle, previous: map<Pair, nat>, deltas: map<string, UserConsumption>, user: string, g: string, t: string)
    requires cycle.Valid() && IsTally(cycle, previous, Pairs(cycle.sample), deltas)
    requires Progressed(cycle, previous, g, t, user)
    requires forall h, u :: Progressed(cycle, previous, h, u, user) ==> h == g && u == t
    ensures user in deltas
    ensures deltas[user] == UserConsumption(
                              cycle.sample[g][t].committed - previous[(g, t)], cycle.sample[g][t].lag, {t},
                              {Resolve(g, cycle.owners, cycle.order).value.credentialId})
  {
    assert Lookup(deltas, user) == Due(cycle, previous, Pairs(cycle.sample), user);
    var mine := Counting(cycle, previous, Pairs(cycle.sample), user);
    assert mine == {(g, t)} by {
      forall p: Pair ensures p in mine <==> p == (g, t) {
        CountsIsProgress(cycle, previous, p.0, p.1, user);
      }
    }
    CountingIsSubset(cycle, previous, Pairs(cycle.sample), user);
    SumOverAdd({}, DeltaIn(cycle, previous), (g, t));
    SumOverAdd({}, LagIn(cycle), (g, t));
    assert {} + {(g, t)} == {(g, t)};
    hide Counting, SumOver, IsTally, Active, CountsFor;
  }

  datatype Failure = DatabaseError | KafkaError

  /** The background sampler: what it remembers between cycles. */
  class Sampler {
    var previous: map<Pair, nat>
    ghost var cycles: seq<Cycle> // the cycles that did not fail

    ghost predicate Valid()
      reads this
    {
      AllValid(cycles) && previous == Remembered(cycles)
    }

    constructor ()
      ensures Valid() && cycles == []
    {
      previous, cycles := map[], [];
    }

    /** `run_cycle`: a failed read of the credentials or of Kafka leaves everything as it was;
        otherwise exactly this sample's offsets are remembered, and each user's deltas are those
        of their pairs, in whatever order groups and topics are visited. */
    method RunCycle(owners: Result<(Owners, seq<string>), Failure>, sample: Result<Sample, Failure>)
      returns (r: Result<map<string, UserConsumption>, Failure>)
      requires Valid()
      requires owners.Ok? ==> Enumerates(owners.value.1, owners.value.0)
      modifies this
      ensures Valid()
      ensures owners.Err? ==> r == Err(owners.error) && cycles == old(cycles)
      ensures owners.Ok? && sample.Err? ==> r == Err(sample.error) && cycles == old(cycles)
      ensures owners.Ok? && sample.Ok? ==>
                r.Ok? && cycles == old(cycles) + [Cycle(owners.value.0, owners.value.1, sample.value)] &&
                previous == Committed(sample.value) &&
                IsTally(Cycle(owners.value.0, owners.value.1, sample.value), old(previous), Pairs(sample.value), r.value)
    {
      if owners.Err? {
        return Err(owners.error);
      }
      if sample.Err? {
        return Err(sample.error);
      }
      var (known, order) := owners.value;
      var positions := sample.value;
      ghost var cycle := Cycle(known, order, positions);
      ghost var before, run := previous, cycles;
      var deltas: map<string, UserConsumption> := map[];
      var groups := positions.Keys;
      ghost var done: set<Pair> := {};
      NothingTallied(cycle, before);
      assert Remembers(previous, before, positions, done);
      assert cycle.Valid() && AllValid(run);
      assert Visited(done, positions, groups, "", {});
      hide IsTally, Has, PositionOf, Visited, AllValid, Remembered, Cycle.Valid, Resolve, Remembers, Enumerates,
        EntryOf, Committed;
      var group := "";
      while groups != {}
        invariant cycles == run
        invariant groups <= positions.Keys
        invariant Visited(done, positions, groups, group, {})
        invariant Remembers(previous, before, positions, done)
        invariant IsTally(cycle, before, done, deltas)
        decreases |groups|
      {
        ghost var last := group;
        group :| group in groups;
        VisitGroup(done, positions, groups, group, last);
        groups := groups - {group};
        var owner := ResolveOwner(group, known, order);
        var topics := positions[group].Keys;
        while topics != {}
          invariant cycles == run
          invariant topics <= positions[group].Keys
          invariant Visited(done, positions, groups, group, topics)
          invariant Remembers(previous, before, positions, done)
          invariant IsTally(cycle, before, done, deltas)
          decreases |topics|
        {
          var topic :| topic in topics;
          VisitTopic(done, positions, groups, group, topics, topic);
          topics := topics - {topic};
          var position := positions[group][topic];
          var key := (group, topic);
          var delta := if key in previous && position.committed > previous[key]
                       then position.committed - previous[key] else 0;
          var entry := if owner.None? then NO_CONSUMPTION else EntryOf(deltas, owner.value.userId);
          VisitPair(cycle, before, previous, done, deltas, key, position, owner, delta, entry);
          done := done + {key};
          previous := previous[key := position.committed];
          if delta == 0 || owner.None? {
            continue;
          }
          deltas := deltas[owner.value.userId := UserConsumption(
            entry.messages + delta, entry.lag + position.lag,
            entry.topics + {topic}, entry.credentials + {owner.value.credentialId})];
        }
      }
      VisitedAll(done, positions, group);
      Forgets(previous, before, positions);
      previous := map p | p in previous && Has(positions, p) :: previous[p];
      Remember(run, cycle);
      cycles := run + [cycle];
      r := Ok(deltas);
    }
  }
}

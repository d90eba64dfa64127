/**
 * The team bookkeeping of a room (app/core/server/room.ts). A JavaScript
 * `Map<TeamId, string[]>` is a list of entries in insertion order; `Find`,
 * `Put` and `Delete` are its `get`, `set` and `delete`. `Pool` is the
 * multiset of all team members, so "every player is in at most one team,
 * once" reads `forall p :: Pool(ts)[p] <= 1`.
 */
module Teams {
  import opened Wrappers

  /** A team: its id and its players in joining order. */
  datatype Team = Team(id: int, players: seq<string>)

  /** The index of the first entry with key `id`, or `|ts|` when there is none. */
  function Find(ts: seq<Team>, id: int): (r: nat)
    ensures r <= |ts|
    ensures r < |ts| ==> ts[r].id == id
    ensures forall k :: 0 <= k < r ==> ts[k].id != id
  {
    if ts == [] then 0 else if ts[0].id == id then 0 else 1 + Find(ts[1..], id)
  }

  /** `has`. */
  predicate HasId(ts: seq<Team>, id: int) {
    Find(ts, id) < |ts|
  }

  /** `get`. */
  function Get(ts: seq<Team>, id: int): (r: Option<seq<string>>)
    ensures r.Some? <==> exists k :: 0 <= k < |ts| && ts[k].id == id
    ensures r.Some? ==> exists k :: 0 <= k < |ts| && ts[k] == Team(id, r.value)
  {
    var k := Find(ts, id);
    if k < |ts| then Some(ts[k].players) else None
  }

  /** `set`: an existing entry keeps its place and takes the new players; a new key goes last. */
  function Put(ts: seq<Team>, id: int, players: seq<string>): (r: seq<Team>)
    ensures HasId(ts, id) ==> r == ts[Find(ts, id) := Team(id, players)]
    ensures !HasId(ts, id) ==> r == ts + [Team(id, players)]
  {
    var k := Find(ts, id);
    if k < |ts| then ts[k := Team(id, players)] else ts + [Team(id, players)]
  }

  /** `delete`: the entry with key `id` removed, if there is one. */
  function Delete(ts: seq<Team>, id: int): (r: seq<Team>)
    ensures HasId(ts, id) ==> r == ts[..Find(ts, id)] + ts[Find(ts, id) + 1..]
    ensures !HasId(ts, id) ==> r == ts
  {
    var k := Find(ts, id);
    if k < |ts| then ts[..k] + ts[k + 1..] else ts
  }

  /** No key appears twice, as in every JavaScript `Map`. */
  predicate DistinctIds(ts: seq<Team>) {
    forall k, l {:trigger ts[k].id, ts[l].id} :: 0 <= k < l < |ts| ==> ts[k].id != ts[l].id
  }

  /** All team members, counted with multiplicity. */
  ghost function Pool(ts: seq<Team>): multiset<string> {
    if ts == [] then multiset{} else multiset(ts[0].players) + Pool(ts[1..])
  }

  /** Every player is in at most one team, once. */
  ghost predicate OnePerPlayer(ts: seq<Team>) {
    forall p :: Pool(ts)[p] <= 1
  }

  /** `p` is a player of the team with key `id`. */
  predicate InTeam(ts: seq<Team>, p: string, id: int) {
    exists k :: 0 <= k < |ts| && ts[k].id == id && p in ts[k].players
  }

  lemma {:induction false} PoolAppend(ts: seq<Team>, t: Team)
    ensures Pool(ts + [t]) == Pool(ts) + multiset(t.players)
  {
    if ts == [] {
      assert ts + [t] == [t];
    } else {
      assert (ts + [t])[1..] == ts[1..] + [t];
      PoolAppend(ts[1..], t);
    }
  }

  lemma {:induction false} PoolUpdate(ts: seq<Team>, i: nat, t: Team)
    requires i < |ts|
    ensures Pool(ts[i := t]) + multiset(ts[i].players) == Pool(ts) + multiset(t.players)
  {
    if i == 0 {
      assert ts[i := t][1..] == ts[1..];
    } else {
      assert ts[i := t][1..] == ts[1..][i - 1 := t];
      assert ts[i := t][0] == ts[0] && ts[1..][i - 1] == ts[i];
      PoolUpdate(ts[1..], i - 1, t);
      var rest, rest' := Pool(ts[1..]), Pool(ts[1..][i - 1 := t]);
      assert Pool(ts[i := t]) == multiset(ts[0].players) + rest';
      forall x
        ensures (Pool(ts[i := t]) + multiset(ts[i].players))[x] == (Pool(ts) + multiset(t.players))[x]
      {
        assert (rest' + multiset(ts[i].players))[x] == (rest + multiset(t.players))[x];
      }
    }
  }

  lemma {:induction false} PoolRemove(ts: seq<Team>, i: nat)
    requires i < |ts|
    ensures Pool(ts[..i] + ts[i + 1..]) + multiset(ts[i].players) == Pool(ts)
  {
    if i == 0 {
      assert ts[..i] + ts[i + 1..] == ts[1..];
    } else {
      assert (ts[..i] + ts[i + 1..])[1..] == ts[1..][..i - 1] + ts[1..][i..];
      PoolRemove(ts[1..], i - 1);
    }
  }

  /** Taking `q` out: from `a + (r + q) == pool + r` follows `a + q == pool`. */
  lemma CancelOut(a: multiset<string>, pool: multiset<string>, r: multiset<string>, q: multiset<string>)
    requires a + (r + q) == pool + r
    ensures a + q == pool
  {
    forall x
      ensures (a + q)[x] == pool[x]
    {
      assert (a + (r + q))[x] == (pool + r)[x];
    }
  }

  /** Putting `q` in: from `a + r == pool + (r + q)` follows `a == pool + q`. */
  lemma CancelIn(a: multiset<string>, pool: multiset<string>, r: multiset<string>, q: multiset<string>)
    requires a + r == pool + (r + q)
    ensures a == pool + q
  {
    forall x
      ensures a[x] == (pool + q)[x]
    {
      assert (a + r)[x] == (pool + (r + q))[x];
    }
  }

  /** A player is in the pool exactly when some team lists them. */
  lemma {:induction false} PoolMember(ts: seq<Team>, p: string)
    ensures p in Pool(ts) <==> exists k :: 0 <= k < |ts| && p in ts[k].players
  {
    if ts != [] {
      PoolMember(ts[1..], p);
      if p in Pool(ts[1..]) {
        var k :| 0 <= k < |ts[1..]| && p in ts[1..][k].players;
        assert p in ts[k + 1].players;
      }
      if exists k :: 0 <= k < |ts| && p in ts[k].players {
        var k :| 0 <= k < |ts| && p in ts[k].players;
        if k > 0 {
          assert p in ts[1..][k - 1].players;
        }
      }
    }
  }

  /** Looking a key up in `ts + [e]` looks in `ts` first. */
  lemma {:induction false} FindAppend(ts: seq<Team>, e: Team, id: int)
    ensures Find(ts + [e], id) == if HasId(ts, id) then Find(ts, id) else if e.id == id then |ts| else |ts| + 1
  {
    if ts == [] {
      assert ts + [e] == [e];
    } else {
      assert (ts + [e])[1..] == ts[1..] + [e];
      FindAppend(ts[1..], e, id);
    }
  }

  /** Appending an entry with a new key keeps the keys distinct. */
  lemma {:induction false} AppendFresh(ts: seq<Team>, e: Team)
    requires DistinctIds(ts) && !HasId(ts, e.id)
    ensures DistinctIds(ts + [e])
  {
  }

  // ---------------------------------------------------------------------
  // simplifyTeams
  // ---------------------------------------------------------------------

  /** One entry of the `simplifyTeams` loop: an empty team is skipped, team 0 kept, any other team gets the key `cnt`. */
  function SimplifyStep(r: seq<Team>, t: Team, cnt: int): seq<Team> {
    if t.players == [] then r else if t.id == 0 then r + [t] else r + [Team(cnt, t.players)]
  }

  /** One more team renumbered moves the counter on. */
  function CountStep(t: Team, cnt: int): int {
    if t.players != [] && t.id != 0 then cnt + 1 else cnt
  }

  /** `teamCnt` after the first `n` entries. */
  function Counter(ts: seq<Team>, n: nat): int
    requires n <= |ts|
  {
    if n == 0 then 1 else CountStep(ts[n - 1], Counter(ts, n - 1))
  }

  /** `newTeams` after the first `n` entries. */
  function SimplifyPrefix(ts: seq<Team>, n: nat): seq<Team>
    requires n <= |ts|
  {
    if n == 0 then [] else SimplifyStep(SimplifyPrefix(ts, n - 1), ts[n - 1], Counter(ts, n - 1))
  }

  /** The teams `simplifyTeams` leaves when no game is on. */
  function Simplified(ts: seq<Team>): seq<Team> {
    SimplifyPrefix(ts, |ts|)
  }

  lemma {:induction false} SimplifySnoc(ts: seq<Team>, i: nat, n: nat)
    requires n == i + 1 <= |ts|
    ensures SimplifyPrefix(ts, n) == SimplifyStep(SimplifyPrefix(ts, i), ts[i], Counter(ts, i))
    ensures Counter(ts, n) == CountStep(ts[i], Counter(ts, i))
  {
  }

  /** The simplified prefix has no empty team, and its keys lie in `0..Counter`. */
  lemma {:induction false} SimplifyShape(ts: seq<Team>, n: nat)
    requires n <= |ts|
    ensures Counter(ts, n) >= 1
    ensures forall k :: 0 <= k < |SimplifyPrefix(ts, n)| ==>
      SimplifyPrefix(ts, n)[k].players != [] && 0 <= SimplifyPrefix(ts, n)[k].id < Counter(ts, n)
  {
    if n > 0 {
      ghost var i: nat := n - 1;
      SimplifyShape(ts, i);
      SimplifySnoc(ts, i, n);
    }
  }

  /** No player is gained or lost. */
  lemma {:induction false} SimplifyPool(ts: seq<Team>, n: nat)
    requires n <= |ts|
    ensures Pool(SimplifyPrefix(ts, n)) == Pool(ts[..n])
  {
    if n > 0 {
      ghost var i: nat := n - 1;
      SimplifyPool(ts, i);
      SimplifySnoc(ts, i, n);
      var t := ts[i];
      assert ts[..n] == ts[..i] + [t];
      PoolAppend(ts[..i], t);
      if t.players != [] {
        var e := if t.id == 0 then t else Team(Counter(ts, i), t.players);
        PoolAppend(SimplifyPrefix(ts, i), e);
      }
    }
  }

  /** The non-zero keys, in order. */
  function NonZeroIds(ts: seq<Team>): seq<int> {
    if ts == [] then [] else NonZeroIds(ts[..|ts| - 1]) + (if ts[|ts| - 1].id != 0 then [ts[|ts| - 1].id] else [])
  }

  /** Besides team 0, the keys are `1, 2, ..., k` in order. */
  predicate Numbered(ts: seq<Team>) {
    forall k :: 0 <= k < |NonZeroIds(ts)| ==> NonZeroIds(ts)[k] == k + 1
  }

  lemma {:induction false} NonZeroIdsSnoc(r: seq<Team>, e: Team)
    ensures NonZeroIds(r + [e]) == NonZeroIds(r) + (if e.id != 0 then [e.id] else [])
  {
    assert (r + [e])[..|r|] == r;
  }

  /** Appending `e` to a numbered list of `cnt - 1` renumbered teams. */
  lemma {:induction false} NumberedSnoc(r: seq<Team>, e: Team, cnt: int)
    requires Numbered(r) && cnt == |NonZeroIds(r)| + 1
    requires e.id == 0 || e.id == cnt
    ensures Numbered(r + [e])
    ensures |NonZeroIds(r + [e])| == |NonZeroIds(r)| + (if e.id != 0 then 1 else 0)
  {
    NonZeroIdsSnoc(r, e);
  }

  /** The counter is one more than the number of renumbered teams, which carry the keys `1..` in order. */
  lemma {:induction false} SimplifyNumbered(ts: seq<Team>, n: nat)
    requires n <= |ts|
    ensures Numbered(SimplifyPrefix(ts, n)) && Counter(ts, n) == |NonZeroIds(SimplifyPrefix(ts, n))| + 1
  {
    if n > 0 {
      ghost var i: nat := n - 1;
      SimplifyNumbered(ts, i);
      SimplifySnoc(ts, i, n);
      var t := ts[i];
      if t.players != [] {
        var e := if t.id == 0 then t else Team(Counter(ts, i), t.players);
        NumberedSnoc(SimplifyPrefix(ts, i), e, Counter(ts, i));
      }
    }
  }

  /** The players of the non-empty teams, team by team, in order. */
  function Squads(ts: seq<Team>): seq<seq<string>> {
    if ts == [] then [] else Squads(ts[..|ts| - 1]) + (if ts[|ts| - 1].players != [] then [ts[|ts| - 1].players] else [])
  }

  lemma {:induction false} SquadsSnoc(r: seq<Team>, e: Team)
    ensures Squads(r + [e]) == Squads(r) + (if e.players != [] then [e.players] else [])
  {
    assert (r + [e])[..|r|] == r;
  }

  /** The non-empty teams keep their players and their order. */
  lemma {:induction false} SimplifySquads(ts: seq<Team>, n: nat)
    requires n <= |ts|
    ensures Squads(SimplifyPrefix(ts, n)) == Squads(ts[..n])
  {
    if n > 0 {
      ghost var i: nat := n - 1;
      SimplifySquads(ts, i);
      SimplifySnoc(ts, i, n);
      var t := ts[i];
      assert ts[..n] == ts[..i] + [t];
      SquadsSnoc(ts[..i], t);
      if t.players != [] {
        var e := if t.id == 0 then t else Team(Counter(ts, i), t.players);
        SquadsSnoc(SimplifyPrefix(ts, i), e);
      }
    }
  }

  /** Without a team 0 among the first `n` entries, the simplified prefix has none. */
  lemma {:induction false} ZeroAbsent(ts: seq<Team>, n: nat)
    requires n <= |ts| && forall j :: 0 <= j < n ==> ts[j].id != 0
    ensures !HasId(SimplifyPrefix(ts, n), 0)
  {
    SimplifyShape(ts, n);
    var r := SimplifyPrefix(ts, n);
    if n > 0 {
      ghost var i: nat := n - 1;
      ZeroAbsent(ts, i);
      SimplifySnoc(ts, i, n);
      var r0 := SimplifyPrefix(ts, i);
      SimplifyShape(ts, i);
      if ts[i].players != [] {
        FindAppend(r0, Team(Counter(ts, i), ts[i].players), 0);
      }
    }
  }

  /** The simplified prefix of entries with distinct keys has distinct keys. */
  lemma {:induction false} SimplifyDistinct(ts: seq<Team>, n: nat)
    requires DistinctIds(ts) && n <= |ts|
    ensures DistinctIds(SimplifyPrefix(ts, n))
  {
    if n > 0 {
      ghost var i: nat := n - 1;
      SimplifyDistinct(ts, i);
      SimplifySnoc(ts, i, n);
      var r0 := SimplifyPrefix(ts, i);
      var t := ts[i];
      if t.players != [] {
        if t.id == 0 {
          ZeroAbsent(ts, i);
          AppendFresh(r0, t);
        } else {
          SimplifyShape(ts, i);
          AppendFresh(r0, Team(Counter(ts, i), t.players));
        }
      }
    }
  }

  /** A non-empty team 0 among the first `n` entries is in the simplified prefix. */
  lemma {:induction false} ZeroKept(ts: seq<Team>, n: nat, k: nat)
    requires k < n <= |ts| && ts[k].id == 0 && ts[k].players != []
    ensures ts[k] in SimplifyPrefix(ts, n)
  {
    ghost var i: nat := n - 1;
    SimplifySnoc(ts, i, n);
    if k < i {
      ZeroKept(ts, i, k);
    }
  }

  /**
   * `simplifyTeams`: no empty team is left, a non-empty team 0 is kept, the
   * others are numbered `1..=k` in their old order, the keys stay distinct,
   * and no player is gained or lost.
   */
  lemma SimplifiedSpec(ts: seq<Team>)
    requires DistinctIds(ts)
    ensures var r := Simplified(ts);
      && Numbered(r)
      && Squads(r) == Squads(ts)
      && DistinctIds(r)
      && (forall k :: 0 <= k < |r| ==> r[k].players != [] && r[k].id >= 0)
      && (forall k :: 0 <= k < |ts| && ts[k].id == 0 && ts[k].players != [] ==> ts[k] in r)
      && Pool(r) == Pool(ts)
  {
    SimplifyShape(ts, |ts|);
    SimplifyNumbered(ts, |ts|);
    SimplifyDistinct(ts, |ts|);
    SimplifyPool(ts, |ts|);
    SimplifySquads(ts, |ts|);
    assert ts[..|ts|] == ts;
    forall k | 0 <= k < |ts| && ts[k].id == 0 && ts[k].players != []
      ensures ts[k] in Simplified(ts)
    {
      ZeroKept(ts, |ts|, k);
    }
  }

  /** `simplifyTeams` keeps the keys distinct and each player in at most one team. */
  lemma SimplifiedValid(ts: seq<Team>)
    requires DistinctIds(ts) && OnePerPlayer(ts)
    ensures DistinctIds(Simplified(ts)) && OnePerPlayer(Simplified(ts))
  {
    SimplifiedSpec(ts);
  }

  /** The `simplifyTeams` loop may `set` each entry by appending it: its key is new. */
  lemma {:induction false} SimplifyFresh(ts: seq<Team>, i: nat)
    requires DistinctIds(ts) && i < |ts| && ts[i].players != []
    ensures ts[i].id == 0 ==> !HasId(SimplifyPrefix(ts, i), 0)
    ensures !HasId(SimplifyPrefix(ts, i), Counter(ts, i))
  {
    SimplifyShape(ts, i);
    if ts[i].id == 0 {
      ZeroAbsent(ts, i);
    }
  }

  // ---------------------------------------------------------------------
  // getNewTeamId
  // ---------------------------------------------------------------------

  /** A bound above every key. */
  function MaxId(ts: seq<Team>): (r: int)
    ensures forall k :: 0 <= k < |ts| ==> ts[k].id <= r
  {
    if ts == [] then 0
    else
      var m := MaxId(ts[1..]);
      if ts[0].id > m then ts[0].id else m
  }

  /** The smallest positive key not in use. */
  predicate SmallestFree(ts: seq<Team>, id: int) {
    id >= 1 && !HasId(ts, id) && forall k :: 1 <= k < id ==> HasId(ts, k)
  }

  /** There is only one smallest free key. */
  lemma SmallestFreeUnique(ts: seq<Team>, a: int, b: int)
    requires SmallestFree(ts, a) && SmallestFree(ts, b)
    ensures a == b
  {
  }

  /** A non-zero key is among the non-zero keys exactly when some entry has it. */
  lemma {:induction false} NonZeroIdsMembers(ts: seq<Team>, x: int)
    requires x != 0
    ensures x in NonZeroIds(ts) <==> exists k :: 0 <= k < |ts| && ts[k].id == x
  {
    if ts != [] {
      var init := ts[..|ts| - 1];
      NonZeroIdsMembers(init, x);
      if exists k :: 0 <= k < |init| && init[k].id == x {
        var k :| 0 <= k < |init| && init[k].id == x;
        assert ts[k].id == x;
      }
      if exists k :: 0 <= k < |ts| && ts[k].id == x {
        var k :| 0 <= k < |ts| && ts[k].id == x;
        if k < |init| {
          assert init[k].id == x;
        }
      }
    }
  }

  /** After renumbering, the smallest free key is one more than the number of renumbered teams. */
  lemma SmallestFreeNumbered(ts: seq<Team>)
    requires Numbered(ts)
    ensures SmallestFree(ts, |NonZeroIds(ts)| + 1)
  {
    var nz := NonZeroIds(ts);
    forall k | 1 <= k <= |nz|
      ensures HasId(ts, k)
    {
      assert nz[k - 1] == k;
      NonZeroIdsMembers(ts, k);
      var j :| 0 <= j < |ts| && ts[j].id == k;
      assert Find(ts, k) <= j;
    }
    var m := |nz| + 1;
    NonZeroIdsMembers(ts, m);
    assert forall k :: 0 <= k < |nz| ==> nz[k] != m;
    assert m !in nz;
  }

  /** After `simplifyTeams`, the smallest free key is one more than the number of renumbered teams. */
  lemma SimplifiedNewId(ts: seq<Team>)
    requires DistinctIds(ts)
    ensures SmallestFree(Simplified(ts), |NonZeroIds(Simplified(ts))| + 1)
  {
    SimplifiedSpec(ts);
    SmallestFreeNumbered(Simplified(ts));
  }

  // ---------------------------------------------------------------------
  // removePlayer, addPlayer, playerToTeam
  // ---------------------------------------------------------------------

  /** `indexOf`: the first index of `x`, or -1. */
  function IndexOf(s: seq<string>, x: string): (r: int)
    ensures r >= -1
    ensures r == -1 <==> x !in s
    ensures r >= 0 ==> r < |s| && s[r] == x && x !in s[..r]
  {
    if s == [] then -1
    else if s[0] == x then 0
    else
      var k := IndexOf(s[1..], x);
      if k == -1 then -1
      else
        assert s[..k + 1] == [s[0]] + s[1..][..k];
        k + 1
  }

  /** The index of the first team listing `p`, or `|ts|`. */
  function FirstWith(ts: seq<Team>, p: string): (r: nat)
    ensures r <= |ts|
    ensures r < |ts| ==> p in ts[r].players
    ensures forall k :: 0 <= k < r ==> p !in ts[k].players
  {
    if ts == [] then 0 else if p in ts[0].players then 0 else 1 + FirstWith(ts[1..], p)
  }

  /** `Team(t.id, rest)` in place of entry `i`: the keys stay as they were. */
  function Spliced(ts: seq<Team>, i: nat, rest: seq<string>): (r: seq<Team>)
    requires i < |ts|
    ensures |r| == |ts| && forall k :: 0 <= k < |r| ==> r[k].id == ts[k].id
    ensures DistinctIds(ts) ==> DistinctIds(r)
  {
    ts[i := Team(ts[i].id, rest)]
  }

  /** `p`'s own list after `splice(index, 1)`. */
  function SpliceOut(s: seq<string>, p: string): (r: seq<string>)
    requires p in s
    ensures multiset(r) + multiset{p} == multiset(s)
  {
    var index := IndexOf(s, p);
    assert s == s[..index] + [s[index]] + s[index + 1..];
    s[..index] + s[index + 1..]
  }

  /** The teams after `removePlayer(p)`: `p` spliced out of the first team listing it, which goes when it becomes empty. */
  function Removed(ts: seq<Team>, p: string): seq<Team> {
    var i := FirstWith(ts, p);
    if i == |ts| then ts
    else
      var rest := SpliceOut(ts[i].players, p);
      var spliced := Spliced(ts, i, rest);
      if rest == [] then Delete(spliced, ts[i].id) else spliced
  }

  /** Under distinct keys, the key of entry `i` is found at `i`. */
  lemma FindDistinct(ts: seq<Team>, i: nat)
    requires DistinctIds(ts) && i < |ts|
    ensures Find(ts, ts[i].id) == i
  {
  }

  /** Under distinct keys, removing entry `i` keeps the other keys distinct. */
  lemma RemoveDistinct(ts: seq<Team>, i: nat)
    requires DistinctIds(ts) && i < |ts|
    ensures DistinctIds(ts[..i] + ts[i + 1..])
  {
    var r := ts[..i] + ts[i + 1..];
    assert forall k :: 0 <= k < |r| ==> r[k] == if k < i then ts[k] else ts[k + 1];
  }

  /** `removePlayer(p)` keeps the keys distinct. */
  lemma RemovedDistinct(ts: seq<Team>, p: string)
    requires DistinctIds(ts)
    ensures DistinctIds(Removed(ts, p))
  {
    var i := FirstWith(ts, p);
    if i < |ts| {
      var rest := SpliceOut(ts[i].players, p);
      var spliced := Spliced(ts, i, rest);
      if rest == [] {
        FindDistinct(spliced, i);
        assert Removed(ts, p) == spliced[..i] + spliced[i + 1..];
        RemoveDistinct(spliced, i);
      } else {
        assert Removed(ts, p) == spliced;
      }
    }
  }

  /** Splicing `p` out of team `i` takes one `p` out of the pool. */
  lemma SplicedPool(ts: seq<Team>, i: nat, p: string)
    requires i < |ts| && p in ts[i].players
    ensures Pool(Spliced(ts, i, SpliceOut(ts[i].players, p))) + multiset{p} == Pool(ts)
  {
    var rest := SpliceOut(ts[i].players, p);
    PoolUpdate(ts, i, Team(ts[i].id, rest));
    CancelOut(Pool(Spliced(ts, i, rest)), Pool(ts), multiset(rest), multiset{p});
  }

  /** Deleting an empty team leaves the pool as it was. */
  lemma DeletedPool(ts: seq<Team>, i: nat)
    requires DistinctIds(ts) && i < |ts| && ts[i].players == []
    ensures Pool(Delete(ts, ts[i].id)) == Pool(ts)
  {
    FindDistinct(ts, i);
    PoolRemove(ts, i);
  }

  /** `removePlayer(p)` takes one `p` out of the teams when some team lists them, and otherwise changes nothing. */
  lemma RemovedPool(ts: seq<Team>, p: string)
    requires DistinctIds(ts)
    ensures p in Pool(ts) ==> Pool(Removed(ts, p)) + multiset{p} == Pool(ts)
    ensures p !in Pool(ts) ==> Removed(ts, p) == ts
  {
    PoolMember(ts, p);
    var i := FirstWith(ts, p);
    if i < |ts| {
      var rest := SpliceOut(ts[i].players, p);
      SplicedPool(ts, i, p);
      if rest == [] {
        DeletedPool(Spliced(ts, i, rest), i);
      }
    }
  }

  /**
   * `removePlayer(p)` takes one `p` out of the teams when some team lists
   * them, and otherwise changes nothing; the keys stay distinct.
   */
  lemma RemovedSpec(ts: seq<Team>, p: string)
    requires DistinctIds(ts)
    ensures DistinctIds(Removed(ts, p))
    ensures p in Pool(ts) ==> Pool(Removed(ts, p)) + multiset{p} == Pool(ts)
    ensures p !in Pool(ts) ==> Removed(ts, p) == ts
  {
    RemovedDistinct(ts, p);
    RemovedPool(ts, p);
  }

  /** `removePlayer` keeps the keys distinct and each player in at most one team; it finds a team exactly when `p` is in one. */
  lemma RemovedValid(ts: seq<Team>, p: string)
    requires DistinctIds(ts) && OnePerPlayer(ts)
    ensures DistinctIds(Removed(ts, p)) && OnePerPlayer(Removed(ts, p))
    ensures p in Pool(ts) <==> FirstWith(ts, p) < |ts|
  {
    RemovedSpec(ts, p);
    RemovedGone(ts, p);
    PoolMember(ts, p);
  }

  /** `removePlayer` leaves no empty team behind when there was none. */
  lemma RemovedNoEmpty(ts: seq<Team>, p: string)
    requires DistinctIds(ts) && forall k :: 0 <= k < |ts| ==> ts[k].players != []
    ensures forall k :: 0 <= k < |Removed(ts, p)| ==> Removed(ts, p)[k].players != []
  {
    var i := FirstWith(ts, p);
    if i < |ts| {
      var rest := SpliceOut(ts[i].players, p);
      var spliced := Spliced(ts, i, rest);
      if rest == [] {
        FindDistinct(spliced, i);
        var r := spliced[..i] + spliced[i + 1..];
        assert Removed(ts, p) == r;
        forall k | 0 <= k < |r|
          ensures r[k].players != []
        {
          if k < i {
            assert r[k] == ts[k];
          } else {
            assert r[k] == ts[k + 1];
          }
        }
      } else {
        assert Removed(ts, p) == spliced;
        forall k | 0 <= k < |spliced|
          ensures spliced[k].players != []
        {
          if k != i {
            assert spliced[k] == ts[k];
          }
        }
      }
    }
  }

  /** `p` is in no team after `removePlayer(p)` when each player was in at most one. */
  lemma RemovedGone(ts: seq<Team>, p: string)
    requires DistinctIds(ts) && OnePerPlayer(ts)
    ensures Pool(Removed(ts, p))[p] == 0
    ensures forall q :: q != p ==> Pool(Removed(ts, p))[q] == Pool(ts)[q]
    ensures OnePerPlayer(Removed(ts, p))
  {
    RemovedSpec(ts, p);
  }

  /** The teams after `p` joins team `id`: appended to its players, or a new team `[p]`. */
  function Joined(ts: seq<Team>, p: string, id: int): seq<Team> {
    var item := Get(ts, id);
    if item.Some? then Put(ts, id, item.value + [p]) else Put(ts, id, [p])
  }

  /** Joining a team adds `p` once, to team `id`, and keeps the keys distinct. */
  lemma JoinedSpec(ts: seq<Team>, p: string, id: int)
    requires DistinctIds(ts)
    ensures var r := Joined(ts, p, id);
      && DistinctIds(r)
      && Pool(r) == Pool(ts) + multiset{p}
      && InTeam(r, p, id)
  {
    var k := Find(ts, id);
    if k < |ts| {
      var t := Team(id, ts[k].players + [p]);
      PoolUpdate(ts, k, t);
      assert multiset(t.players) == multiset(ts[k].players) + multiset{p};
      CancelIn(Pool(ts[k := t]), Pool(ts), multiset(ts[k].players), multiset{p});
      var r := Spliced(ts, k, ts[k].players + [p]);
      assert r[k].id == id && p in r[k].players;
    } else {
      PoolAppend(ts, Team(id, [p]));
      AppendFresh(ts, Team(id, [p]));
      var r := ts + [Team(id, [p])];
      assert r[|ts|].id == id && p in r[|ts|].players;
    }
  }

  /** A player in no team who joins team `id` is then in exactly one team, once, and it is `id`; nobody else moves. */
  lemma JoinFresh(ts: seq<Team>, p: string, id: int)
    requires DistinctIds(ts) && OnePerPlayer(ts) && Pool(ts)[p] == 0
    ensures var r := Joined(ts, p, id);
      && DistinctIds(r) && OnePerPlayer(r)
      && Pool(r)[p] == 1 && InTeam(r, p, id)
      && forall q :: q != p ==> Pool(r)[q] == Pool(ts)[q]
  {
    JoinedSpec(ts, p, id);
    assert forall q :: Pool(Joined(ts, p, id))[q] == Pool(ts)[q] + multiset{p}[q];
  }

  /** After removing `p` and letting them join team `id`, `p` is in exactly one team, once, and it is `id`; nobody else moves. */
  lemma MoveToTeam(ts: seq<Team>, p: string, id: int)
    requires DistinctIds(ts) && OnePerPlayer(ts)
    ensures var r := Joined(Removed(ts, p), p, id);
      && DistinctIds(r) && OnePerPlayer(r)
      && Pool(r)[p] == 1 && InTeam(r, p, id)
      && forall q :: q != p ==> Pool(r)[q] == Pool(ts)[q]
  {
    RemovedSpec(ts, p);
    RemovedGone(ts, p);
    JoinFresh(Removed(ts, p), p, id);
  }

  /** `playerToTeam`: the key of the first team listing `p`, or 0. */
  function TeamOf(ts: seq<Team>, p: string): (r: int)
    ensures FirstWith(ts, p) < |ts| ==> r == ts[FirstWith(ts, p)].id
    ensures FirstWith(ts, p) == |ts| ==> r == 0
  {
    var i := FirstWith(ts, p);
    if i < |ts| then ts[i].id else 0
  }

  /** A player of a team is reported on that team when each player is in at most one. */
  lemma TeamOfSpec(ts: seq<Team>, p: string, id: int)
    requires OnePerPlayer(ts) && InTeam(ts, p, id)
    ensures TeamOf(ts, p) == id
  {
    var k :| 0 <= k < |ts| && ts[k].id == id && p in ts[k].players;
    var i := FirstWith(ts, p);
    if i != k {
      TwoTeams(ts, p, i, k);
    }
  }

  /** Two different teams listing `p` put `p` in the pool twice. */
  lemma {:induction false} TwoTeams(ts: seq<Team>, p: string, i: nat, k: nat)
    requires i < |ts| && k < |ts| && i != k && p in ts[i].players && p in ts[k].players
    ensures Pool(ts)[p] >= 2
  {
    if i == 0 || k == 0 {
      var j := if i == 0 then k else i;
      assert p in ts[1..][j - 1].players;
      PoolMember(ts[1..], p);
    } else {
      TwoTeams(ts[1..], p, i - 1, k - 1);
    }
  }
}

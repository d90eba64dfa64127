/**
 * The room's vote tally (app/core/server/vote.ts). For each of the three
 * vote items, `data` holds a list of entries, each a value and the players
 * who voted for it; `ans` holds, for each item, the values that lead. A
 * value is modelled by its `toString()` form, which is what the sort
 * compares and, for the fixed values of `voteItems`, determines `===`.
 */
module Vote {
  import opened Wrappers

  /** `VoteItem`. */
  datatype Item = Mode | MapKind | Speed

  type Value = string

  /** An entry `[value, players]`. */
  datatype Entry = Entry(value: Value, players: seq<string>)

  type List = seq<Entry>

  /** `voteItems[item][0]`: the hexagon mode, the random map and speed 1. */
  function FirstValue(item: Item): Value {
    match item
    case Mode => "六边形"
    case MapKind => "随机地图"
    case Speed => "1"
  }

  /** The initial answers: the first allowed value of every item. */
  function InitialAnswers(): map<Item, seq<Value>> {
    map[Mode := [FirstValue(Mode)], MapKind := [FirstValue(MapKind)], Speed := [FirstValue(Speed)]]
  }

  // ---------------------------------------------------------------------
  // Ordering: the comparator of `sort`
  // ---------------------------------------------------------------------

  /** JavaScript's `<` on strings: lexicographic by character code. */
  predicate Lt(x: string, y: string) {
    if x == [] then y != []
    else y != [] && (x[0] < y[0] || (x[0] == y[0] && Lt(x[1..], y[1..])))
  }

  lemma {:induction false} LtIrreflexive(x: string)
    ensures !Lt(x, x)
  {
    if x != [] {
      LtIrreflexive(x[1..]);
    }
  }

  lemma {:induction false} LtTransitive(x: string, y: string, z: string)
    requires Lt(x, y) && Lt(y, z)
    ensures Lt(x, z)
  {
    if x != [] && x[0] == y[0] && y[0] == z[0] {
      LtTransitive(x[1..], y[1..], z[1..]);
    }
  }

  lemma {:induction false} LtTrichotomy(x: string, y: string)
    ensures Lt(x, y) || Lt(y, x) || x == y
  {
    if x != [] && y != [] && x[0] == y[0] {
      LtTrichotomy(x[1..], y[1..]);
      if x[1..] == y[1..] {
        assert x == [x[0]] + x[1..] && y == [y[0]] + y[1..];
      }
    }
  }

  /**
   * Entry `a` may come before entry `b`: the comparator returns the
   * difference of the vote counts, larger first, and otherwise 1 exactly
   * when `a`'s value is greater than `b`'s.
   */
  predicate Ranks(a: Entry, b: Entry) {
    |a.players| > |b.players| || (|a.players| == |b.players| && !Lt(b.value, a.value))
  }

  lemma RanksTotal(a: Entry, b: Entry)
    ensures Ranks(a, b) || Ranks(b, a)
  {
    LtTrichotomy(a.value, b.value);
    if Lt(a.value, b.value) && Lt(b.value, a.value) {
      LtTransitive(a.value, b.value, a.value);
      LtIrreflexive(a.value);
    }
  }

  lemma RanksTransitive(a: Entry, b: Entry, c: Entry)
    requires Ranks(a, b) && Ranks(b, c)
    ensures Ranks(a, c)
  {
    if |a.players| == |b.players| == |c.players| && Lt(c.value, a.value) {
      LtTrichotomy(a.value, b.value);
      if Lt(a.value, b.value) {
        LtTransitive(c.value, a.value, b.value);
      }
    }
  }

  /** Every entry ranks before every later one. */
  predicate Sorted(l: List) {
    forall i, j :: 0 <= i < j < |l| ==> Ranks(l[i], l[j])
  }

  /** Inserting an entry before the first entry it ranks before. */
  function Insert(e: Entry, l: List): (r: List)
    ensures multiset(r) == multiset(l) + multiset{e}
  {
    if l == [] then [e]
    else if Ranks(e, l[0]) then [e] + l
    else
      assert l == [l[0]] + l[1..];
      [l[0]] + Insert(e, l[1..])
  }

  /** Inserting into a sorted list keeps it sorted. */
  lemma {:induction false} InsertSorted(e: Entry, l: List)
    requires Sorted(l)
    ensures Sorted(Insert(e, l))
  {
    if l != [] {
      if Ranks(e, l[0]) {
        forall j | 0 <= j < |l|
          ensures Ranks(e, l[j])
        {
          if j > 0 {
            RanksTransitive(e, l[0], l[j]);
          }
        }
        assert forall j :: 0 < j < |[e] + l| ==> ([e] + l)[j] == l[j - 1];
      } else {
        InsertSorted(e, l[1..]);
        RanksTotal(e, l[0]);
        var rest := Insert(e, l[1..]);
        forall j | 0 <= j < |rest|
          ensures Ranks(l[0], rest[j])
        {
          assert rest[j] in multiset(rest);
          if rest[j] != e {
            assert rest[j] in multiset(l[1..]);
            var m :| 0 <= m < |l[1..]| && l[1..][m] == rest[j];
            assert l[m + 1] == rest[j];
          }
        }
        SortedCons(l[0], rest);
      }
    }
  }

  lemma SortedCons(x: Entry, rest: List)
    requires Sorted(rest) && forall j :: 0 <= j < |rest| ==> Ranks(x, rest[j])
    ensures Sorted([x] + rest)
  {
    assert forall j :: 0 < j < |[x] + rest| ==> ([x] + rest)[j] == rest[j - 1];
  }

  /** `arr.sort(comparator)`: each entry inserted into the sorted rest. */
  function SortList(l: List): (r: List)
    ensures multiset(r) == multiset(l)
  {
    if l == [] then []
    else
      assert l == [l[0]] + l[1..];
      Insert(l[0], SortList(l[1..]))
  }

  /** `sort` leaves every list ordered by the comparator. */
  lemma {:induction false} SortSorted(l: List)
    ensures Sorted(SortList(l))
  {
    if l != [] {
      SortSorted(l[1..]);
      InsertSorted(l[0], SortList(l[1..]));
    }
  }

  // ---------------------------------------------------------------------
  // Answers
  // ---------------------------------------------------------------------

  /** The values of the entries with exactly `n` votes, in order (`filter`). */
  function WithCount(l: List, n: nat): (r: seq<Value>)
    ensures forall v :: v in r <==> exists k :: 0 <= k < |l| && l[k].value == v && |l[k].players| == n
  {
    if l == [] then []
    else
      var rest := WithCount(l[1..], n);
      assert forall k :: 0 < k < |l| ==> l[k] == l[1..][k - 1];
      if |l[0].players| == n then [l[0].value] + rest else rest
  }

  /** `ans[item]` after `sort`: the values tied with the first entry, or the default when there are none. */
  function Answer(item: Item, l: List): (r: seq<Value>)
    ensures r != []
    ensures forall v :: v in r ==> (l == [] && v == FirstValue(item)) || exists k :: 0 <= k < |l| && l[k].value == v
  {
    if l == [] then [FirstValue(item)]
    else
      assert l[0].value in WithCount(l, |l[0].players|);
      WithCount(l, |l[0].players|)
  }

  /** The answers for every item. */
  function Answers(data: map<Item, List>): map<Item, seq<Value>> {
    map item: Item :: Answer(item, if item in data then data[item] else [])
  }

  /**
   * On a sorted list: the default when there are no entries; otherwise the
   * first entry's value comes first and the answer holds exactly the values
   * of the entries with the most votes.
   */
  lemma AnswerSpec(item: Item, l: List)
    requires Sorted(l)
    ensures l == [] ==> Answer(item, l) == [FirstValue(item)]
    ensures l != [] ==> |Answer(item, l)| > 0 && Answer(item, l)[0] == l[0].value
    ensures l != [] ==> forall j :: 0 <= j < |l| ==> |l[j].players| <= |l[0].players|
    ensures l != [] ==> forall v :: v in Answer(item, l) <==> exists k :: 0 <= k < |l| && l[k].value == v && |l[k].players| == |l[0].players|
  {
    if l != [] {
      forall j | 0 < j < |l|
        ensures |l[j].players| <= |l[0].players|
      {
        assert Ranks(l[0], l[j]);
      }
    }
  }

  // ---------------------------------------------------------------------
  // Votes of one player
  // ---------------------------------------------------------------------

  /** How often `p` occurs among the voters of `l`. */
  function Votes(l: List, p: string): nat {
    if l == [] then 0 else multiset(l[0].players)[p] + Votes(l[1..], p)
  }

  lemma {:induction false} VotesAppend(a: List, b: List, p: string)
    ensures Votes(a + b, p) == Votes(a, p) + Votes(b, p)
  {
    if a != [] {
      VotesAppend(a[1..], b, p);
      assert (a + b)[0] == a[0] && (a + b)[1..] == a[1..] + b;
    } else {
      assert a + b == b;
    }
  }

  /** The votes of `p` in a list, split around entry `i`. */
  lemma VotesAt(l: List, i: nat, p: string)
    requires i < |l|
    ensures Votes(l, p) == Votes(l[..i], p) + multiset(l[i].players)[p] + Votes(l[i + 1..], p)
  {
    assert l == l[..i] + [l[i]] + l[i + 1..];
    VotesAppend(l[..i] + [l[i]], l[i + 1..], p);
    VotesAppend(l[..i], [l[i]], p);
  }

  /** Votes do not depend on the order of the entries. */
  lemma {:induction false} VotesInsert(e: Entry, l: List, p: string)
    ensures Votes(Insert(e, l), p) == multiset(e.players)[p] + Votes(l, p)
  {
    if l != [] && !Ranks(e, l[0]) {
      VotesInsert(e, l[1..], p);
    }
  }

  lemma {:induction false} VotesSort(l: List, p: string)
    ensures Votes(SortList(l), p) == Votes(l, p)
  {
    if l != [] {
      VotesSort(l[1..], p);
      VotesInsert(l[0], SortList(l[1..]), p);
    }
  }

  /** Two entries holding `p` count two votes. */
  lemma VotesTwo(l: List, p: string, i: nat, k: nat)
    requires i < k < |l| && p in l[i].players && p in l[k].players
    ensures Votes(l, p) >= 2
  {
    VotesAt(l, i, p);
    VotesAt(l[i + 1..], k - i - 1, p);
  }

  /** The first entry holding a vote of `p` (`findIndex`). */
  function FindPlayer(l: List, p: string): (r: Option<nat>)
    ensures r.Some? ==> r.value < |l| && p in l[r.value].players && forall k :: 0 <= k < r.value ==> p !in l[k].players
    ensures r.None? ==> forall k :: 0 <= k < |l| ==> p !in l[k].players
  {
    if l == [] then None
    else if p in l[0].players then Some(0)
    else match FindPlayer(l[1..], p)
      case None => None
      case Some(k) => Some(k + 1)
  }

  /** `p` has a vote in `l` exactly when `findIndex` finds one. */
  lemma {:induction false} FindPlayerVotes(l: List, p: string)
    ensures FindPlayer(l, p).Some? <==> Votes(l, p) > 0
  {
    if l != [] {
      FindPlayerVotes(l[1..], p);
    }
  }

  /** The first entry for `v` (`findIndex`). */
  function FindValue(l: List, v: Value): (r: Option<nat>)
    ensures r.Some? ==> r.value < |l| && l[r.value].value == v
    ensures r.None? ==> forall k :: 0 <= k < |l| ==> l[k].value != v
  {
    if l == [] then None
    else if l[0].value == v then Some(0)
    else match FindValue(l[1..], v)
      case None => None
      case Some(k) => Some(k + 1)
  }

  /** `players.splice(players.indexOf(p), 1)`: the first occurrence of `p` removed. */
  function RemoveOne(players: seq<string>, p: string): (r: seq<string>)
    requires p in players
    ensures multiset(r) == multiset(players) - multiset{p}
  {
    if players[0] == p then
      assert players == [p] + players[1..];
      players[1..]
    else
      assert players == [players[0]] + players[1..];
      [players[0]] + RemoveOne(players[1..], p)
  }

  /** Withdraw the vote of `p` from entry `i`, dropping the entry once nobody votes for it. */
  function Withdraw(l: List, i: nat, p: string): (r: List)
    requires i < |l| && p in l[i].players
    ensures Votes(r, p) + 1 == Votes(l, p)
  {
    var players := RemoveOne(l[i].players, p);
    VotesAt(l, i, p);
    if |players| == 0 then
      VotesAppend(l[..i], l[i + 1..], p);
      l[..i] + l[i + 1..]
    else
      var r := l[i := Entry(l[i].value, players)];
      VotesAt(r, i, p);
      assert r[..i] == l[..i] && r[i + 1..] == l[i + 1..];
      r
  }

  /** The votes of `p` and `q != p` in one entry. */
  lemma WithdrawOthers(l: List, i: nat, p: string, q: string)
    requires i < |l| && p in l[i].players && q != p
    ensures Votes(Withdraw(l, i, p), q) == Votes(l, q)
  {
    var players := RemoveOne(l[i].players, p);
    VotesAt(l, i, q);
    if |players| == 0 {
      VotesAppend(l[..i], l[i + 1..], q);
    } else {
      var r := l[i := Entry(l[i].value, players)];
      VotesAt(r, i, q);
      assert r[..i] == l[..i] && r[i + 1..] == l[i + 1..];
    }
  }

  /** The vote of `p` withdrawn from the first entry holding it, if any. */
  function RemoveFromList(l: List, p: string): List {
    match FindPlayer(l, p)
    case None => l
    case Some(i) => Withdraw(l, i, p)
  }

  /** A vote of `p` for `v`: added to the entry for `v`, or a new entry `[v, [p]]` at the end. */
  function Cast(l: List, v: Value, p: string): List {
    match FindValue(l, v)
    case None => l + [Entry(v, [p])]
    case Some(k) => l[k := Entry(v, l[k].players + [p])]
  }

  /** `p` already votes `v`: the entry `findIndex` finds for `p` has the value `v`. */
  predicate Revotes(l: List, v: Value, p: string) {
    FindPlayer(l, p).Some? && l[FindPlayer(l, p).value].value == v
  }

  /** The effect of `add` on an existing list: the old vote is withdrawn; if it was for `v`, that is all. */
  function AddToList(l: List, v: Value, p: string): List {
    if Revotes(l, v, p) then RemoveFromList(l, p) else Cast(RemoveFromList(l, p), v, p)
  }

  /** `data` after `add`, before sorting. */
  function AddToData(data: map<Item, List>, item: Item, v: Value, p: string): map<Item, List> {
    if item in data then data[item := AddToList(data[item], v, p)] else data[item := [Entry(v, [p])]]
  }

  /** `data` after `remove`, before sorting: each item loses the vote of `p`, and an item left without entries is unset. */
  function RemoveFromData(data: map<Item, List>, p: string): map<Item, List> {
    map item | item in data && !(FindPlayer(data[item], p).Some? && |RemoveFromList(data[item], p)| == 0) :: RemoveFromList(data[item], p)
  }

  /** Whether `remove` finds any vote of `p`. */
  predicate HasVoted(data: map<Item, List>, p: string) {
    exists item :: item in data && FindPlayer(data[item], p).Some?
  }

  /** Every list of `data` sorted. */
  function SortData(data: map<Item, List>): map<Item, List> {
    map item | item in data :: SortList(data[item])
  }

  // ---------------------------------------------------------------------
  // Invariants
  // ---------------------------------------------------------------------

  /** At most one vote per player per item. */
  ghost predicate OneVote(data: map<Item, List>) {
    forall item, p :: item in data ==> Votes(data[item], p) <= 1
  }

  /** No entry without voters. */
  predicate NoEmpty(l: List) {
    forall k :: 0 <= k < |l| ==> |l[k].players| > 0
  }

  ghost predicate NoEmptyEntries(data: map<Item, List>) {
    forall item :: item in data ==> NoEmpty(data[item])
  }

  lemma NoEmptySort(l: List)
    requires NoEmpty(l)
    ensures NoEmpty(SortList(l))
  {
    var r := SortList(l);
    forall k | 0 <= k < |r|
      ensures |r[k].players| > 0
    {
      assert r[k] in multiset(r);
      var j :| 0 <= j < |l| && l[j] == r[k];
    }
  }

  lemma NoEmptyWithdraw(l: List, i: nat, p: string)
    requires i < |l| && p in l[i].players && NoEmpty(l)
    ensures NoEmpty(Withdraw(l, i, p))
  {
    var r := Withdraw(l, i, p);
    if |RemoveOne(l[i].players, p)| == 0 {
      forall k | 0 <= k < |r|
        ensures |r[k].players| > 0
      {
        if k < i {
          assert r[k] == l[k];
        } else {
          assert r[k] == l[k + 1];
        }
      }
    }
  }

  /** Removing the only vote of `p` leaves none, keeps every other player's votes and leaves no empty entry. */
  lemma RemoveFromListSpec(l: List, p: string)
    requires Votes(l, p) <= 1 && NoEmpty(l)
    ensures Votes(RemoveFromList(l, p), p) == 0 && NoEmpty(RemoveFromList(l, p))
    ensures forall q :: q != p ==> Votes(RemoveFromList(l, p), q) == Votes(l, q)
  {
    FindPlayerVotes(l, p);
    match FindPlayer(l, p) {
      case None =>
      case Some(i) =>
        NoEmptyWithdraw(l, i, p);
        forall q | q != p
          ensures Votes(RemoveFromList(l, p), q) == Votes(l, q)
        {
          WithdrawOthers(l, i, p, q);
        }
    }
  }

  /** With a single vote, `p` votes `v` exactly when `findIndex` finds an entry for `v`. */
  lemma RevotesSpec(l: List, v: Value, p: string)
    requires Votes(l, p) <= 1
    ensures Revotes(l, v, p) <==> exists k :: 0 <= k < |l| && l[k].value == v && p in l[k].players
  {
    if exists k :: 0 <= k < |l| && l[k].value == v && p in l[k].players {
      var k :| 0 <= k < |l| && l[k].value == v && p in l[k].players;
      var i := FindPlayer(l, p).value;
      if k > i {
        VotesTwo(l, p, i, k);
      }
    }
  }

  /** Casting a vote of a player without one: one vote, for `v`, every other player's votes kept. */
  lemma CastSpec(l: List, v: Value, p: string)
    requires Votes(l, p) == 0 && NoEmpty(l)
    ensures Votes(Cast(l, v, p), p) == 1 && NoEmpty(Cast(l, v, p))
    ensures forall q :: q != p ==> Votes(Cast(l, v, p), q) == Votes(l, q)
    ensures exists k :: 0 <= k < |Cast(l, v, p)| && Cast(l, v, p)[k].value == v && p in Cast(l, v, p)[k].players
  {
    var r := Cast(l, v, p);
    match FindValue(l, v) {
      case None =>
        forall q
          ensures Votes(r, q) == Votes(l, q) + (if q == p then 1 else 0)
        {
          VotesAppend(l, [Entry(v, [p])], q);
        }
        assert r[|l|].value == v && p in r[|l|].players;
      case Some(k) =>
        assert r[..k] == l[..k] && r[k + 1..] == l[k + 1..];
        forall q
          ensures Votes(r, q) == Votes(l, q) + (if q == p then 1 else 0)
        {
          VotesAt(l, k, q);
          VotesAt(r, k, q);
        }
        assert r[k].value == v && p in r[k].players;
    }
  }

  /** After `add(item, v, p)`: if `p` had voted `v` for `item`, the vote is gone; otherwise `p` votes `v` and nothing else. */
  lemma AddToListSpec(l: List, v: Value, p: string)
    requires Votes(l, p) <= 1 && NoEmpty(l)
    ensures NoEmpty(AddToList(l, v, p))
    ensures forall q :: q != p ==> Votes(AddToList(l, v, p), q) == Votes(l, q)
    ensures (exists k :: 0 <= k < |l| && l[k].value == v && p in l[k].players) ==> Votes(AddToList(l, v, p), p) == 0
    ensures !(exists k :: 0 <= k < |l| && l[k].value == v && p in l[k].players) ==>
      Votes(AddToList(l, v, p), p) == 1 && exists k :: 0 <= k < |AddToList(l, v, p)| && AddToList(l, v, p)[k].value == v && p in AddToList(l, v, p)[k].players
  {
    RevotesSpec(l, v, p);
    RemoveFromListSpec(l, p);
    if !Revotes(l, v, p) {
      CastSpec(RemoveFromList(l, p), v, p);
    }
  }

  // ---------------------------------------------------------------------
  // Whole tally
  // ---------------------------------------------------------------------

  /** With no votes at all, the answers are the initial ones. */
  lemma InitialIsAnswers()
    ensures Answers(map[]) == InitialAnswers()
  {
  }

  /** After sorting, every item's list is ordered, so `AnswerSpec` describes every answer. */
  lemma SortDataSorted(data: map<Item, List>)
    ensures forall item :: item in SortData(data) ==> Sorted(SortData(data)[item])
  {
    forall item | item in data
      ensures Sorted(SortData(data)[item])
    {
      SortSorted(data[item]);
    }
  }

  /** Some entry of `l` for the value `v` lists `p`. */
  predicate Holds(l: List, v: Value, p: string) {
    exists k :: 0 <= k < |l| && l[k].value == v && p in l[k].players
  }

  /** Sorting keeps an entry for `v` listing `p`. */
  lemma HoldsSort(l: List, v: Value, p: string)
    requires Holds(l, v, p)
    ensures Holds(SortList(l), v, p)
  {
    var k :| 0 <= k < |l| && l[k].value == v && p in l[k].players;
    assert l[k] in multiset(l);
    assert l[k] in multiset(SortList(l));
  }

  /** The list `add` leaves for `item`, before sorting, and what it holds. */
  lemma AddedList(data: map<Item, List>, item: Item, v: Value, p: string) returns (nl: List)
    requires OneVote(data) && NoEmptyEntries(data)
    ensures AddToData(data, item, v, p) == data[item := nl]
    ensures NoEmpty(nl)
    ensures forall q :: q != p ==> Votes(nl, q) == if item in data then Votes(data[item], q) else 0
    ensures (item in data && Holds(data[item], v, p)) ==> Votes(nl, p) == 0
    ensures !(item in data && Holds(data[item], v, p)) ==> Votes(nl, p) == 1 && Holds(nl, v, p)
  {
    if item in data {
      nl := AddToList(data[item], v, p);
      AddToListSpec(data[item], v, p);
    } else {
      nl := [Entry(v, [p])];
      assert Votes(nl, p) == 1;
      assert nl[0].value == v && p in nl[0].players;
      forall q | q != p
        ensures Votes(nl, q) == 0
      {
      }
    }
  }

  /** Sorting the lists of `data` keeps every count and every non-empty entry. */
  lemma SortDataKeeps(data: map<Item, List>)
    ensures forall item, q :: item in data ==> Votes(SortData(data)[item], q) == Votes(data[item], q)
    ensures NoEmptyEntries(data) ==> NoEmptyEntries(SortData(data))
  {
    forall item, q | item in data
      ensures Votes(SortData(data)[item], q) == Votes(data[item], q)
    {
      VotesSort(data[item], q);
    }
    forall item | item in data && NoEmpty(data[item])
      ensures NoEmpty(SortData(data)[item])
    {
      NoEmptySort(data[item]);
    }
  }

  /** Sorting keeps one vote per player per item. */
  lemma OneVoteSort(data: map<Item, List>)
    requires OneVote(data)
    ensures OneVote(SortData(data))
  {
    SortDataKeeps(data);
  }

  /** `add` keeps one vote per player per item and no empty entry. */
  lemma AddKeeps(data: map<Item, List>, item: Item, v: Value, p: string)
    requires OneVote(data) && NoEmptyEntries(data)
    ensures OneVote(SortData(AddToData(data, item, v, p)))
    ensures NoEmptyEntries(SortData(AddToData(data, item, v, p)))
  {
    var nl := AddedList(data, item, v, p);
    var added := data[item := nl];
    assert OneVote(added) by {
      forall other, q | other in added
        ensures Votes(added[other], q) <= 1
      {
        if other != item {
          assert added[other] == data[other];
        } else if q != p {
          assert added[other] == nl;
        }
      }
    }
    assert NoEmptyEntries(added);
    OneVoteSort(added);
    SortDataKeeps(added);
  }

  /**
   * What `add` does to the votes: voting again for the value one holds
   * withdraws the vote; any other vote becomes the player's only vote for
   * the item; other players and other items keep their votes.
   */
  lemma AddSpec(data: map<Item, List>, item: Item, v: Value, p: string)
    requires OneVote(data) && NoEmptyEntries(data)
    ensures var after := SortData(AddToData(data, item, v, p));
      && item in after
      && (forall other, q :: other in data && (other != item || q != p) ==> other in after && Votes(after[other], q) == Votes(data[other], q))
      && ((item in data && Holds(data[item], v, p)) ==> Votes(after[item], p) == 0)
      && (!(item in data && Holds(data[item], v, p)) ==> Votes(after[item], p) == 1 && Holds(after[item], v, p))
  {
    var nl := AddedList(data, item, v, p);
    var added := data[item := nl];
    SortDataKeeps(added);
    if !(item in data && Holds(data[item], v, p)) {
      HoldsSort(nl, v, p);
    }
  }

  /** Whether `remove` finds a vote: `p` has some vote in some item. */
  lemma HasVotedSpec(data: map<Item, List>, p: string)
    ensures HasVoted(data, p) <==> exists item :: item in data && Votes(data[item], p) > 0
  {
    forall item | item in data {
      FindPlayerVotes(data[item], p);
    }
  }

  /** `remove` leaves `p` without votes, keeps everybody else's, and keeps the invariants. */
  lemma RemoveSpec(data: map<Item, List>, p: string)
    requires OneVote(data) && NoEmptyEntries(data)
    ensures var after := SortData(RemoveFromData(data, p));
      && OneVote(after) && NoEmptyEntries(after)
      && (forall item :: item in after ==> item in data && Votes(after[item], p) == 0)
      && (forall item, q :: q != p && item in data ==> Votes(if item in after then after[item] else [], q) == Votes(data[item], q))
  {
    var removed := RemoveFromData(data, p);
    forall item | item in data
      ensures Votes(RemoveFromList(data[item], p), p) == 0 && NoEmpty(RemoveFromList(data[item], p))
      ensures forall q :: q != p ==> Votes(RemoveFromList(data[item], p), q) == Votes(data[item], q)
    {
      RemoveFromListSpec(data[item], p);
    }
    SortDataKeeps(removed);
  }

  class VoteManager {
    var data: map<Item, List>
    var ans: map<Item, seq<Value>>

    /** A new manager: no votes, and the first allowed value of every item as its answer. */
    constructor()
      ensures data == map[] && ans == InitialAnswers()
    {
      data := map[];
      ans := InitialAnswers();
    }

    /** `sort`: every list ordered by the comparator, then the answers read off the lists. */
    method Sort()
      modifies this
      ensures data == SortData(old(data)) && ans == Answers(data)
    {
      data := SortData(data);
      ans := Answers(data);
    }

    /** `remove`: the votes of `player` withdrawn; true exactly when there was one, and only then are the lists sorted again. */
    method Remove(player: string) returns (updated: bool)
      modifies this
      ensures updated == HasVoted(old(data), player)
      ensures updated ==> data == SortData(RemoveFromData(old(data), player)) && ans == Answers(data)
      ensures !updated ==> data == old(data) && ans == old(ans)
    {
      updated := HasVoted(data, player);
      if updated {
        data := RemoveFromData(data, player);
        Sort();
      }
    }

    /** `add`: a vote of `player` for `value`, withdrawing their previous vote for `item`; then `sort`. */
    method Add(item: Item, value: Value, player: string)
      modifies this
      ensures data == SortData(AddToData(old(data), item, value, player)) && ans == Answers(data)
    {
      data := AddToData(data, item, value, player);
      Sort();
    }
  }

  // ---------------------------------------------------------------------
  // The answer as written
  // ---------------------------------------------------------------------

  /** A JavaScript array element of `ans[item]`: a vote value, or a list of player names. */
  datatype Element = Text(text: string) | Names(names: seq<string>)

  /** As written, `sort` stores `choices[0]`, the first entry `[value, players]` itself, as `ans[item]`. */
  function AnswerAsWritten(item: Item, l: List): (r: seq<Element>)
    ensures l == [] ==> r == [Text(FirstValue(item))]
    ensures l != [] ==> |r| == 2 && Names(l[0].players) in r
  {
    if l == [] then [Text(FirstValue(item))] else [Text(l[0].value), Names(l[0].players)]
  }

  /**
   * One vote for the maze map: as written the answer, from which `sample`
   * draws the room's map, holds the voters' names beside the value; the
   * answer the filter computes holds the value alone.
   */
  lemma AnswerAsWrittenHoldsNames()
    ensures Names(["alice"]) in AnswerAsWritten(MapKind, [Entry("迷宫地图", ["alice"])])
    ensures Answer(MapKind, [Entry("迷宫地图", ["alice"])]) == ["迷宫地图"]
  {
  }
}

/**
 * A game room (app/core/server/room.ts): its teams and ready players before
 * a game, and the map, seats and teams of the game under way. The JavaScript
 * `Map`s of teams are sequences of `Team` entries in insertion order (see the
 * `Teams` module), a `Set` of players is a `set` or, where its insertion
 * order matters, a sequence, and `colors` is the list of seats in colour
 * order.
 */
module Room {
  import opened Wrappers
  import opened Matrices
  import opened ServerMap
  import opened Teams
  import opened Battle
  import ClientGm
  import Vote

  /** `ratedRooms`: the rooms whose games are rated. */
  const RATED_ROOMS := ["161"]

  /** One entry of `colors`: the colour of a land and the player who plays it. */
  datatype Seat = Seat(color: int, player: string)

  // ---------------------------------------------------------------------
  // Players and colours
  // ---------------------------------------------------------------------

  /** `exportPlayers`: the players of all teams, team by team. */
  function ExportPlayers(ts: seq<Team>): (r: seq<string>)
    ensures multiset(r) == Pool(ts)
  {
    if ts == [] then [] else ts[0].players + ExportPlayers(ts[1..])
  }

  /** `Set.delete` on an insertion-ordered set of players. */
  function Without(s: seq<string>, x: string): seq<string> {
    if s == [] then []
    else if s[0] == x then Without(s[1..], x)
    else [s[0]] + Without(s[1..], x)
  }

  /** Deleting `x` keeps exactly the other members, and changes nothing when `x` is absent. */
  lemma {:induction false} WithoutSpec(s: seq<string>, x: string)
    ensures forall y :: y in Without(s, x) <==> y in s && y != x
    ensures x !in s ==> Without(s, x) == s
  {
    if s != [] {
      WithoutSpec(s[1..], x);
      assert s == [s[0]] + s[1..];
    }
  }

  /** The index of the first seat of `p`, or `|colors|`. */
  function FirstSeat(colors: seq<Seat>, p: string): (r: nat)
    ensures r <= |colors|
    ensures r < |colors| ==> colors[r].player == p
    ensures forall k :: 0 <= k < r ==> colors[k].player != p
  {
    if colors == [] then 0 else if colors[0].player == p then 0 else 1 + FirstSeat(colors[1..], p)
  }

  /** The colour `playerToColor` reports: that of the first seat of `p`, or 0 for a spectator. */
  function ColorOf(colors: seq<Seat>, p: string): int {
    var i := FirstSeat(colors, p);
    if i < |colors| then colors[i].color else 0
  }

  /** With one seat per player, a seated player gets the colour of their seat, and anyone else 0. */
  lemma ColorOfSpec(colors: seq<Seat>, p: string)
    requires forall k, l :: 0 <= k < l < |colors| ==> colors[k].player != colors[l].player
    ensures forall k :: 0 <= k < |colors| && colors[k].player == p ==> ColorOf(colors, p) == colors[k].color
    ensures (forall k :: 0 <= k < |colors| ==> colors[k].player != p) ==> ColorOf(colors, p) == 0
  {
  }

  /** The `toggleReady` change: a ready player is no longer ready, anyone else becomes ready. */
  function Toggle(ready: set<string>, p: string): (r: set<string>)
    ensures p in r <==> p !in ready
    ensures forall q :: q != p ==> (q in r <==> q in ready)
  {
    if p in ready then ready - {p} else ready + {p}
  }

  /** Toggling twice changes nothing. */
  lemma ToggleTwice(ready: set<string>, p: string)
    ensures Toggle(Toggle(ready, p), p) == ready
  {
  }

  // ---------------------------------------------------------------------
  // addPlayer
  // ---------------------------------------------------------------------

  /** The teams the player joins from: `removePlayer`'s result, simplified when a new team id is needed. */
  function Base(ts: seq<Team>, p: string, team: Option<int>, ongoing: bool): seq<Team> {
    if team.None? && !ongoing then Simplified(Removed(ts, p)) else Removed(ts, p)
  }

  /** The team `addPlayer` puts `p` in: the one given, else their team of the game under way, else a new one. */
  function TargetTeam(ts: seq<Team>, p: string, team: Option<int>, ongoing: bool, teamsInGame: seq<Team>): int {
    if team.Some? then team.value
    else if ongoing then TeamOf(teamsInGame, p)
    else |NonZeroIds(Base(ts, p, team, ongoing))| + 1
  }

  /** The teams after `addPlayer`. */
  function AddedTeams(ts: seq<Team>, p: string, team: Option<int>, ongoing: bool, teamsInGame: seq<Team>): seq<Team> {
    Joined(Base(ts, p, team, ongoing), p, TargetTeam(ts, p, team, ongoing, teamsInGame))
  }

  /**
   * After `addPlayer`, `p` is in exactly one team, once, and it is the
   * target team; nobody else moves; the keys stay distinct; and a new team
   * id is the smallest positive one not in use.
   */
  lemma AddedSpec(ts: seq<Team>, p: string, team: Option<int>, ongoing: bool, teamsInGame: seq<Team>)
    requires DistinctIds(ts) && OnePerPlayer(ts)
    ensures var r := AddedTeams(ts, p, team, ongoing, teamsInGame);
      var target := TargetTeam(ts, p, team, ongoing, teamsInGame);
      && DistinctIds(r) && OnePerPlayer(r)
      && Pool(r)[p] == 1 && InTeam(r, p, target)
      && forall q :: q != p ==> Pool(r)[q] == Pool(ts)[q]
    ensures team.None? && !ongoing ==> SmallestFree(Base(ts, p, team, ongoing), TargetTeam(ts, p, team, ongoing, teamsInGame))
  {
    RemovedSpec(ts, p);
    RemovedGone(ts, p);
    var removed := Removed(ts, p);
    var base := Base(ts, p, team, ongoing);
    if team.None? && !ongoing {
      SimplifiedSpec(removed);
      SmallestFreeNumbered(base);
    }
    assert Pool(base) == Pool(removed) && DistinctIds(base);
    JoinFresh(base, p, TargetTeam(ts, p, team, ongoing, teamsInGame));
  }

  /** `addPlayer` keeps the keys distinct and each player in at most one team. */
  lemma AddedValid(ts: seq<Team>, p: string, team: Option<int>, ongoing: bool, teamsInGame: seq<Team>)
    requires DistinctIds(ts) && OnePerPlayer(ts)
    ensures DistinctIds(AddedTeams(ts, p, team, ongoing, teamsInGame)) && OnePerPlayer(AddedTeams(ts, p, team, ongoing, teamsInGame))
  {
    AddedSpec(ts, p, team, ongoing, teamsInGame);
  }

  // ---------------------------------------------------------------------
  // winCheck
  // ---------------------------------------------------------------------

  /** The team of a player's colour; `None` when `gameTeams` has no entry for it. */
  function Side(colors: seq<Seat>, gameTeams: map<int, int>, p: string): Option<int> {
    Lookup(gameTeams, ColorOf(colors, p))
  }

  /** The state of the `winCheck` loop: still open with the winner so far, or ended by two different teams. */
  datatype Scan = Open(winner: Option<int>) | Split

  /** One player of the `winCheck` loop. */
  function ScanStep(s: Scan, team: Option<int>): Scan {
    match s
    case Split => Split
    case Open(winner) => if winner.None? then Open(team) else if winner != team then Split else s
  }

  /** The state after the first `n` players. */
  function ScanPrefix(colors: seq<Seat>, gameTeams: map<int, int>, ps: seq<string>, n: nat): Scan
    requires n <= |ps|
  {
    if n == 0 then Open(None) else ScanStep(ScanPrefix(colors, gameTeams, ps, n - 1), Side(colors, gameTeams, ps[n - 1]))
  }

  /** What `winCheck` returns for the players `ps` in the order of `gamingPlayers`. */
  function Winner(colors: seq<Seat>, gameTeams: map<int, int>, ps: seq<string>): Option<int> {
    match ScanPrefix(colors, gameTeams, ps, |ps|)
    case Open(winner) => winner
    case Split => None
  }

  /** Once two teams are seen, the scan stays ended. */
  lemma {:induction false} SplitStays(colors: seq<Seat>, gameTeams: map<int, int>, ps: seq<string>, i: nat, n: nat)
    requires i <= n <= |ps| && ScanPrefix(colors, gameTeams, ps, i) == Split
    ensures ScanPrefix(colors, gameTeams, ps, n) == Split
  {
    if n > i {
      SplitStays(colors, gameTeams, ps, i, n - 1);
    }
  }

  /** An open scan has seen no team at all, or one team that every player with a team so far is on. */
  lemma {:induction false} ScanOpen(colors: seq<Seat>, gameTeams: map<int, int>, ps: seq<string>, n: nat)
    requires n <= |ps| && ScanPrefix(colors, gameTeams, ps, n).Open?
    ensures var w := ScanPrefix(colors, gameTeams, ps, n).winner;
      && (w.None? ==> forall k :: 0 <= k < n ==> Side(colors, gameTeams, ps[k]).None?)
      && (w.Some? ==> exists k :: 0 <= k < n && Side(colors, gameTeams, ps[k]) == w)
      && (w.Some? ==> forall k :: 0 <= k < n && Side(colors, gameTeams, ps[k]).Some? ==> Side(colors, gameTeams, ps[k]) == w)
  {
    if n > 0 {
      ScanOpen(colors, gameTeams, ps, n - 1);
    }
  }

  /**
   * A winner is the team of some playing player, and every playing player
   * with a team is on it: two players on different teams give no winner.
   */
  lemma WinnerSpec(colors: seq<Seat>, gameTeams: map<int, int>, ps: seq<string>)
    ensures var r := Winner(colors, gameTeams, ps);
      && (r.Some? ==> exists k :: 0 <= k < |ps| && Side(colors, gameTeams, ps[k]) == r)
      && (r.Some? ==> forall k :: 0 <= k < |ps| && Side(colors, gameTeams, ps[k]).Some? ==> Side(colors, gameTeams, ps[k]) == r)
  {
    if ScanPrefix(colors, gameTeams, ps, |ps|).Open? {
      ScanOpen(colors, gameTeams, ps, |ps|);
    }
  }

  /** When every player so far is on team `t`, the scan is open with `t`. */
  lemma {:induction false} ScanOneTeam(colors: seq<Seat>, gameTeams: map<int, int>, ps: seq<string>, n: nat, t: int)
    requires 0 < n <= |ps| && forall k :: 0 <= k < n ==> Side(colors, gameTeams, ps[k]) == Some(t)
    ensures ScanPrefix(colors, gameTeams, ps, n) == Open(Some(t))
  {
    if n > 1 {
      ScanOneTeam(colors, gameTeams, ps, n - 1, t);
    }
  }

  /** When all playing players are on team `t`, `t` wins. */
  lemma WinnerOneTeam(colors: seq<Seat>, gameTeams: map<int, int>, ps: seq<string>, t: int)
    requires |ps| > 0 && forall k :: 0 <= k < |ps| ==> Side(colors, gameTeams, ps[k]) == Some(t)
    ensures Winner(colors, gameTeams, ps) == Some(t)
  {
    ScanOneTeam(colors, gameTeams, ps, |ps|, t);
  }

  // ---------------------------------------------------------------------
  // handleMove
  // ---------------------------------------------------------------------

  /** The clash of a movement from `from` to `to` on `grid`: allied when both colours map to the same team. */
  function Clashed(grid: Grid, gameTeams: map<int, int>, from: Pos, to: Pos, half: bool): Clash
    requires Has(grid, from) && Has(grid, to)
  {
    var f, t := grid[from.x][from.y], grid[to.x][to.y];
    Move(f, t, Lookup(gameTeams, f.color) == Lookup(gameTeams, t.color), half)
  }

  /** The grid with both ends of a movement written back. */
  function Placed(grid: Grid, from: Pos, to: Pos, c: Clash): (r: Grid)
    requires Has(grid, from) && Has(grid, to) && from != to
    ensures |r| == |grid| && forall a :: 0 <= a < |grid| ==> |r[a]| == |grid[a]|
    ensures r[from.x][from.y] == c.from && r[to.x][to.y] == c.to
    ensures forall a, b :: 0 <= a < |grid| && 0 <= b < |grid[a]| && Pos(a, b) != from && Pos(a, b) != to ==> r[a][b] == grid[a][b]
  {
    var g := grid[from.x := grid[from.x][from.y := c.from]];
    g[to.x := g[to.x][to.y := c.to]]
  }

  /**
   * When a movement takes a general, the victim keeps no land on the map:
   * the general's cell is now a city of the attacker, and every other land
   * of the victim's, apart from the mover's own cell, is the attacker's with
   * its army halved, rounded up.
   */
  lemma GeneralTaken(grid: Grid, h: int, w: int, gameTeams: map<int, int>, from: Pos, to: Pos, half: bool)
    requires Shaped(grid, h, w) && Has(grid, from) && Has(grid, to) && from != to
    requires ClientGm.InBounds(to, h, w)
    requires Clashed(grid, gameTeams, from, to, half).fallen.Some?
    ensures var f, t := grid[from.x][from.y], grid[to.x][to.y];
      var c := Clashed(grid, gameTeams, from, to, half);
      var placed := Placed(grid, from, to, c);
      var s := Surrender(t.color, f.color);
      && c.fallen == Some(t.color) && t.kind == General && f.color != t.color
      && SweptAt(placed, h, w, s, to.x, to.y) == Tile(f.color, City, c.to.amount)
      && (forall a, b :: 0 <= a < |grid| && 0 <= b < |grid[a]| && ClientGm.InBounds(Pos(a, b), h, w) ==> SweptAt(placed, h, w, s, a, b).color != t.color)
      && (forall a, b :: 0 <= a < |grid| && 0 <= b < |grid[a]| && ClientGm.InBounds(Pos(a, b), h, w) && Pos(a, b) != from && Pos(a, b) != to && grid[a][b].color == t.color ==>
            var r := SweptAt(placed, h, w, s, a, b);
            r.color == f.color && r.kind == grid[a][b].kind && grid[a][b].amount <= 2 * r.amount < grid[a][b].amount + 2)
  {
    var f, t := grid[from.x][from.y], grid[to.x][to.y];
    var c := Clashed(grid, gameTeams, from, to, half);
    var placed := Placed(grid, from, to, c);
    forall a, b | 0 <= a < |grid| && 0 <= b < |grid[a]| && ClientGm.InBounds(Pos(a, b), h, w)
      ensures SweptAt(placed, h, w, Surrender(t.color, f.color), a, b).color != t.color
    {
      SurrenderSpec(t.color, f.color, placed[a][b]);
    }
    forall a, b | 0 <= a < |grid| && 0 <= b < |grid[a]| && ClientGm.InBounds(Pos(a, b), h, w) && Pos(a, b) != from && Pos(a, b) != to && grid[a][b].color == t.color
      ensures var r := SweptAt(placed, h, w, Surrender(t.color, f.color), a, b);
        r.color == f.color && r.kind == grid[a][b].kind && grid[a][b].amount <= 2 * r.amount < grid[a][b].amount + 2
    {
      SurrenderSpec(t.color, f.color, placed[a][b]);
    }
  }

  // ---------------------------------------------------------------------
  // The room
  // ---------------------------------------------------------------------

  class Room {
    const id: string
    const rated: bool
    var gm: Map
    var votes: Vote.VoteManager
    var teams: seq<Team>
    var readyPlayers: set<string>
    var ongoing: bool
    var colors: seq<Seat>
    var teamsInGame: seq<Team>
    var gameTeams: map<int, int>
    var gamingPlayers: seq<string>
    var turns: int
    var playerMaps: map<string, MaybeMap>

    /** The map is well formed, team keys are distinct (as in any `Map`) and each player is in at most one team. */
    ghost predicate Valid()
      reads this, gm
    {
      gm.Valid() && DistinctIds(teams) && OnePerPlayer(teams)
    }

    /**
     * A new room: an empty map of the default size 0 by 0 filled with the
     * default land `blank`, no teams, no game, and rated exactly when its id
     * is one of `RATED_ROOMS`.
     */
    constructor(id: string, blank: Tile)
      ensures this.id == id && rated == (id in RATED_ROOMS)
      ensures fresh(gm) && gm.width == 0 && gm.height == 0
      ensures fresh(votes) && votes.data == map[]
      ensures teams == [] && readyPlayers == {} && !ongoing && colors == [] && teamsInGame == []
      ensures gameTeams == map[] && gamingPlayers == [] && turns == 0 && playerMaps == map[]
      ensures Valid()
    {
      this.id := id;
      rated := id in RATED_ROOMS;
      gm := new Map(0, 0, blank);
      votes := new Vote.VoteManager();
      teams := [];
      readyPlayers := {};
      ongoing := false;
      colors := [];
      teamsInGame := [];
      gameTeams := map[];
      gamingPlayers := [];
      turns := 0;
      playerMaps := map[];
    }

    /** `simplifyTeams`: nothing while a game is on; otherwise the teams `Simplified` describes. */
    method SimplifyTeams()
      requires Valid()
      modifies this`teams
      ensures Valid()
      ensures teams == if ongoing then old(teams) else Simplified(old(teams))
      ensures readyPlayers == old(readyPlayers) && gamingPlayers == old(gamingPlayers) && playerMaps == old(playerMaps)
    {
      if ongoing {
        return;
      }
      var ts := teams;
      var newTeams: seq<Team> := [];
      var teamCnt := 1;
      var i := 0;
      while i < |ts|
        invariant 0 <= i <= |ts|
        invariant newTeams == SimplifyPrefix(ts, i) && teamCnt == Counter(ts, i)
      {
        var t := ts[i];
        SimplifySnoc(ts, i, i + 1);
        if t.players != [] {
          SimplifyFresh(ts, i);
          if t.id == 0 {
            newTeams := Put(newTeams, t.id, t.players);
          } else {
            newTeams := Put(newTeams, teamCnt, t.players);
            teamCnt := teamCnt + 1;
          }
        }
        i := i + 1;
      }
      teams := newTeams;
      SimplifiedValid(ts);
    }

    /**
     * `getNewTeamId`: after simplifying, the smallest positive key that no
     * team has; with no game on, one more than the number of numbered teams.
     */
    method GetNewTeamId() returns (newId: int)
      requires Valid()
      modifies this`teams
      ensures Valid()
      ensures teams == if ongoing then old(teams) else Simplified(old(teams))
      ensures readyPlayers == old(readyPlayers) && gamingPlayers == old(gamingPlayers) && playerMaps == old(playerMaps)
      ensures SmallestFree(teams, newId)
      ensures !ongoing ==> newId == |NonZeroIds(teams)| + 1
    {
      SimplifyTeams();
      var i := 1;
      while HasId(teams, i)
        invariant i >= 1 && forall k :: 1 <= k < i ==> HasId(teams, k)
        decreases MaxId(teams) + 1 - i
      {
        i := i + 1;
      }
      newId := i;
      if !ongoing {
        SimplifiedNewId(old(teams));
        SmallestFreeUnique(teams, newId, |NonZeroIds(teams)| + 1);
      }
    }

    /** The loop of `removePlayer`: the first team whose players include `player`, or `|ts|`. */
    static method FindPlayer(ts: seq<Team>, player: string) returns (i: nat)
      ensures i == FirstWith(ts, player)
    {
      i := 0;
      while i < |ts| && IndexOf(ts[i].players, player) == -1
        invariant 0 <= i <= |ts|
        invariant forall k :: 0 <= k < i ==> player !in ts[k].players
      {
        i := i + 1;
      }
    }

    /**
     * The team part of `removePlayer`: the first team listing `player` loses
     * them, and goes when that leaves it empty; `found` says whether there
     * was such a team.
     */
    static method RemoveFromTeams(ts: seq<Team>, player: string) returns (r: seq<Team>, found: bool)
      ensures found == (FirstWith(ts, player) < |ts|)
      ensures r == Removed(ts, player)
    {
      var i := FindPlayer(ts, player);
      found := i < |ts|;
      r := ts;
      if found {
        var t := ts[i];
        var index := IndexOf(t.players, player);
        var rest := t.players[..index] + t.players[index + 1..];
        assert rest == SpliceOut(t.players, player);
        r := Spliced(ts, i, rest);
        if rest == [] {
          r := Delete(r, t.id);
        }
      }
    }

    /**
     * `removePlayer`: the player leaves the playing players and the saved
     * maps, and the first team listing them loses them (and goes when it
     * becomes empty); the result says whether some team listed them.
     */
    method RemovePlayer(player: string) returns (found: bool)
      requires Valid()
      modifies this`teams, this`gamingPlayers, this`playerMaps
      ensures Valid()
      ensures found <==> player in Pool(old(teams))
      ensures teams == Removed(old(teams), player)
      ensures gamingPlayers == Without(old(gamingPlayers), player)
      ensures playerMaps == old(playerMaps) - {player}
      ensures readyPlayers == old(readyPlayers)
    {
      var ts := teams;
      var newTeams;
      newTeams, found := RemoveFromTeams(ts, player);
      RemovedValid(ts, player);
      teams, gamingPlayers, playerMaps := newTeams, Without(gamingPlayers, player), playerMaps - {player};
    }

    /** The team part of `addPlayer`: `player` is appended to team `t`, which is made when missing. */
    static method JoinTeam(ts: seq<Team>, player: string, t: int) returns (r: seq<Team>)
      ensures r == Joined(ts, player, t)
    {
      var item := Get(ts, t);
      if item.Some? {
        r := Put(ts, t, item.value + [player]);
      } else {
        r := Put(ts, t, [player]);
      }
    }

    /**
     * `addPlayer`: the player leaves whatever team they were in and joins
     * the team `TargetTeam` names, as `AddedTeams` describes. Joining team 0
     * (the spectators) also clears their ready flag and reports whether it
     * was set.
     */
    method AddPlayer(player: string, team: Option<int>) returns (ready: Option<bool>, ghost joined: int)
      requires Valid()
      modifies this`teams, this`gamingPlayers, this`playerMaps, this`readyPlayers
      ensures Valid()
      ensures joined == TargetTeam(old(teams), player, team, ongoing, teamsInGame)
      ensures teams == AddedTeams(old(teams), player, team, ongoing, teamsInGame)
      ensures ready == if joined == 0 then Some(player in old(readyPlayers)) else None
      ensures readyPlayers == if joined == 0 then old(readyPlayers) - {player} else old(readyPlayers)
      ensures gamingPlayers == Without(old(gamingPlayers), player) && playerMaps == old(playerMaps) - {player}
    {
      var wasIn := RemovePlayer(player);
      var t: int;
      if team.Some? {
        t := team.value;
      } else if ongoing {
        t := TeamOf(teamsInGame, player);
      } else {
        t := GetNewTeamId();
      }
      var newTeams := JoinTeam(teams, player, t);
      AddedValid(old(teams), player, team, ongoing, teamsInGame);
      if t == 0 {
        ready := Some(player in readyPlayers);
        teams, readyPlayers := newTeams, readyPlayers - {player};
      } else {
        ready := None;
        teams := newTeams;
      }
      joined := t;
    }

    /** `toggleReady`. */
    method ToggleReady(player: string)
      modifies this`readyPlayers
      ensures readyPlayers == Toggle(old(readyPlayers), player)
    {
      if player in readyPlayers {
        readyPlayers := readyPlayers - {player};
      } else {
        readyPlayers := readyPlayers + {player};
      }
    }

    /** `playerToColor`: the colour of the player's first seat, or 0. */
    method PlayerToColor(player: string) returns (color: int)
      ensures color == ColorOf(colors, player)
    {
      var i := 0;
      while i < |colors|
        invariant 0 <= i <= |colors|
        invariant forall k :: 0 <= k < i ==> colors[k].player != player
      {
        if colors[i].player == player {
          assert FirstSeat(colors, player) == i;
          return colors[i].color;
        }
        i := i + 1;
      }
      return 0;
    }

    /** `winCheck`: the one team every playing player is on, if there is one. */
    method WinCheck() returns (winner: Option<int>)
      ensures winner == Winner(colors, gameTeams, gamingPlayers)
    {
      winner := None;
      var i := 0;
      while i < |gamingPlayers|
        invariant 0 <= i <= |gamingPlayers|
        invariant ScanPrefix(colors, gameTeams, gamingPlayers, i) == Open(winner)
      {
        var color := PlayerToColor(gamingPlayers[i]);
        var team := Lookup(gameTeams, color);
        if winner.None? {
          winner := team;
        } else if winner != team {
          SplitStays(colors, gameTeams, gamingPlayers, i + 1, |gamingPlayers|);
          return None;
        }
        i := i + 1;
      }
    }

    /**
     * `checkMovement`, with the neighbour test on the map's `neighbours`:
     * both ends checked, the target accessible, the source the mover's with
     * an army, and the target a neighbour of the source.
     */
    predicate CheckMovement(from: Pos, to: Pos, color: int)
      reads this, gm
      requires gm.Valid()
      ensures CheckMovement(from, to, color) <==>
        && gm.Check(from) && gm.Check(to) && gm.Accessible(to)
        && gm.Get(from).color == color && gm.Get(from).amount >= 1
        && to in gm.Neighbours(from)
      ensures CheckMovement(from, to, color) ==> from != to
    {
      MovementOkSpec(gm.gm, gm.height, gm.width, from, to, color);
      MovementOk(gm.gm, gm.height, gm.width, from, to, color)
    }

    /** Every cell of the map's rows `1..=height` and columns `1..=width` swept by `s`, in row-major order. */
    method SweepLands(s: Sweep)
      requires gm.Valid()
      modifies gm
      ensures gm.Valid() && gm.height == old(gm.height) && gm.width == old(gm.width)
      ensures forall a, b :: 0 <= a < |old(gm.gm)| && 0 <= b < |old(gm.gm)[a]| ==> gm.gm[a][b] == SweptAt(old(gm.gm), gm.height, gm.width, s, a, b)
    {
      var grid, h, w := gm.gm, gm.height, gm.width;
      SweepInit(grid, h, w, s);
      var i := 1;
      while i <= h
        invariant 1 <= i <= Count(h) || (i == 1 && h < 1)
        invariant gm.height == h && gm.width == w
        invariant SweptBefore(gm.gm, grid, h, w, s, i, 0)
      {
        var j := 1;
        while j <= w
          invariant 1 <= j <= Count(w) || (j == 1 && w < 1)
          invariant gm.height == h && gm.width == w
          invariant SweptBefore(gm.gm, grid, h, w, s, i, j)
        {
          var p := Pos(i, j);
          SweepStep(gm.gm, grid, h, w, s, i, j, j + 1);
          gm.Set(p, SweepTile(s, gm.Get(p)));
          j := j + 1;
        }
        SweepRow(gm.gm, grid, h, w, s, i, j, i + 1);
        i := i + 1;
      }
      SweepDone(gm.gm, grid, h, w, s, i);
    }

    /**
     * `handleMove`: both ends of the movement take the values `Move` gives
     * them; when a general falls, every land of its colour goes over to the
     * mover's colour and the fallen colour is returned. When both ends are
     * the same cell, the two updates of that one land cancel out.
     */
    method HandleMove(from: Pos, to: Pos, half: bool) returns (dead: Option<int>)
      requires gm.Valid() && Has(gm.gm, from) && Has(gm.gm, to)
      modifies gm
      ensures gm.Valid() && gm.height == old(gm.height) && gm.width == old(gm.width)
      ensures from == to ==> gm.gm == old(gm.gm) && dead == None
      ensures from != to ==>
        var g := old(gm.gm);
        var c := Clashed(g, gameTeams, from, to, half);
        var placed := Placed(g, from, to, c);
        && dead == c.fallen
        && (c.fallen.None? ==> gm.gm == placed)
        && (c.fallen.Some? ==> forall a, b :: 0 <= a < |g| && 0 <= b < |g[a]| ==>
              gm.gm[a][b] == SweptAt(placed, gm.height, gm.width, Surrender(c.fallen.value, g[from.x][from.y].color), a, b))
    {
      if from == to {
        return None;
      }
      var fromLand, toLand := gm.Get(from), gm.Get(to);
      var c := Move(fromLand, toLand, Lookup(gameTeams, fromLand.color) == Lookup(gameTeams, toLand.color), half);
      gm.Set(from, c.from);
      gm.Set(to, c.to);
      dead := c.fallen;
      if c.fallen.Some? {
        SweepLands(Surrender(c.fallen.value, fromLand.color));
      }
    }

    /** `addArmy`: every land grows as `Grow(turns)` says. */
    method AddArmy()
      requires gm.Valid()
      modifies gm
      ensures gm.Valid() && gm.height == old(gm.height) && gm.width == old(gm.width)
      ensures forall a, b :: 0 <= a < |old(gm.gm)| && 0 <= b < |old(gm.gm)[a]| ==> gm.gm[a][b] == SweptAt(old(gm.gm), gm.height, gm.width, Grow(turns), a, b)
    {
      SweepLands(Grow(turns));
    }
  }
}

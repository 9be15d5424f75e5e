/** The lobby and role-assignment branches of the interaction handler in
    app.js, run against an in-memory copy of the three tables that
    database.js creates (active_games, joined_users, messages). Store keeps
    them in four fields: the role column assumed on joined_users is held
    apart from the rosters.

    Every handler is one atomic method of Store. What the handler sends
    back to Discord (ephemeral replies, message updates, follow-ups) is
    not modelled; the method returns Done or the reason it rejected the
    interaction, and changes the tables as the handler does, under the
    assumptions about the database.js functions stated beside each method. */
module Lobby {
  import opened Utils

  type UserId = string
  type GameId = string
  type Token = string

  /** The start_game button refuses rosters smaller than this (app.js:475). */
  const MinPlayers := 4
  /** The `players` option of /start is registered with this range (commands.js:39-40). */
  const MinMaxPlayers := 4
  const MaxMaxPlayers := 10

  /** One row of active_games. */
  datatype GameRow = GameRow(id: GameId, host: UserId, maxPlayers: int)

  /** The roles the start_game button hands out. */
  datatype Role = Investigator | Spy | Mole {
    /** The integer code passed to assignRoleToUser: investigator 1,
        spy 2, mole 3 (app.js:523, 527, 532). */
    function Code(): (c: int)
      ensures c == 1 <==> this == Investigator
      ensures c == 2 <==> this == Spy
      ensures c == 3 <==> this == Mole
    {
      match this
      case Investigator => 1
      case Spy => 2
      case Mole => 3
    }
  }

  /** Why a handler turned an interaction away. NoResponseToken is the
      silent `return` of /cancel when the stored token for the host is
      missing or empty (both are falsy in JavaScript);
      NoGameRow is the TypeError the buttons raise when active_games is
      empty and `activeGamesData[0]` is undefined. */
  datatype Rejection =
    | AlreadyHosting
    | NotHosting
    | NoResponseToken
    | AlreadyJoined
    | NoGameRow
    | LobbyFull
    | NotJoined
    | NotHost
    | NotEnoughPlayers

  datatype Outcome = Done | Rejected(reason: Rejection)

  // ---------------------------------------------------------------------
  // Queries on the active_games table
  // ---------------------------------------------------------------------

  /** `games.some((game) => game.host_user === user)`: walks the rows from
      the front and stops at the first the user hosts. */
  function HostsSomeGame(games: seq<GameRow>, user: UserId): (b: bool)
    ensures b <==> exists i :: 0 <= i < |games| && games[i].host == user
  {
    if games == [] then false
    else if games[0].host == user then true
    else
      assert forall i :: 1 <= i < |games| ==> games[i] == games[1..][i - 1];
      HostsSomeGame(games[1..], user)
  }

  /** `games.find((game) => game.host_user === host)`: the first row the host owns. */
  function HostIndex(games: seq<GameRow>, host: UserId): (k: nat)
    requires HostsSomeGame(games, host)
    ensures k < |games| && games[k].host == host
    ensures forall i :: 0 <= i < k ==> games[i].host != host
  {
    if games[0].host == host then 0
    else
      assert HostsSomeGame(games[1..], host) by {
        var i :| 0 <= i < |games| && games[i].host == host;
        assert games[1..][i - 1] == games[i];
      }
      1 + HostIndex(games[1..], host)
  }

  /** The row with the given id: what `getActiveGames(db, gameId)` would
      return if database.js used its second argument. */
  function Lookup(games: seq<GameRow>, id: GameId): (r: Option<GameRow>)
    ensures r.Some? <==> exists i :: 0 <= i < |games| && games[i].id == id
    ensures r.Some? ==> r.value in games && r.value.id == id
  {
    if games == [] then None
    else if games[0].id == id then Some(games[0])
    else
      var r := Lookup(games[1..], id);
      assert forall i :: 1 <= i < |games| ==> games[i] == games[1..][i - 1];
      r
  }

  predicate UniqueHosts(games: seq<GameRow>) {
    forall i, j :: 0 <= i < j < |games| ==> games[i].host != games[j].host
  }

  predicate UniqueIds(games: seq<GameRow>) {
    forall i, j :: 0 <= i < j < |games| ==> games[i].id != games[j].id
  }

  predicate MaxPlayersInRange(games: seq<GameRow>) {
    forall i :: 0 <= i < |games| ==> MinMaxPlayers <= games[i].maxPlayers <= MaxMaxPlayers
  }

  /** Deleting a host's row keeps the table's invariants and leaves the
      host with no game. */
  lemma RemoveHostRow(games: seq<GameRow>, k: nat)
    requires UniqueHosts(games) && UniqueIds(games) && MaxPlayersInRange(games) && k < |games|
    ensures var rest := RemoveAt(games, k);
            UniqueHosts(rest) && UniqueIds(rest) && MaxPlayersInRange(rest)
            && !HostsSomeGame(rest, games[k].host)
  {
    var rest := RemoveAt(games, k);
    forall i | 0 <= i < |rest| ensures rest[i].host != games[k].host {
      if i < k {
        assert rest[i] == games[i];
      } else {
        assert rest[i] == games[i + 1];
      }
    }
  }

  /** A table that holds only the clicked game: reading row 0 is reading
      that game, and "caller hosts some active game" is "caller hosts
      this game". */
  lemma SingleGameTable(games: seq<GameRow>, id: GameId, user: UserId)
    requires |games| == 1 && games[0].id == id
    ensures Lookup(games, id) == Some(games[0])
    ensures HostsSomeGame(games, user) <==> Lookup(games, id).value.host == user
  {
  }

  /** For every game k other than row 0 of a valid table: looking game k up
      by id finds game k, but row 0, which the buttons read, is a different
      game, and the host of row 0 passes the host check for game k without
      hosting it. */
  lemma FirstRowIsNotTheClickedGame(games: seq<GameRow>, k: nat)
    requires UniqueHosts(games) && UniqueIds(games) && 0 < k < |games|
    ensures Lookup(games, games[k].id) == Some(games[k])
    ensures games[0] != games[k]
    ensures HostsSomeGame(games, games[0].host) && games[0].host != games[k].host
  {
    var r := Lookup(games, games[k].id);
    assert r.value in games;
  }

  /** `deleteActiveGame`: the table without row k. */
  function RemoveAt(games: seq<GameRow>, k: nat): (r: seq<GameRow>)
    requires k < |games|
    ensures |r| == |games| - 1
    ensures forall i :: 0 <= i < k ==> r[i] == games[i]
    ensures forall i :: k <= i < |r| ==> r[i] == games[i + 1]
  {
    games[..k] + games[k + 1..]
  }

  // ---------------------------------------------------------------------
  // Rosters (joined_users of one game, in insertion order)
  // ---------------------------------------------------------------------

  /** The roster after `DELETE ... WHERE username = user`: every row of the
      user goes, the others keep their order. */
  function Without(roster: seq<UserId>, user: UserId): (r: seq<UserId>)
    ensures user !in r
    ensures forall u :: u in r <==> u in roster && u != user
    ensures |r| <= |roster|
  {
    if roster == [] then []
    else (if roster[0] == user then [] else [roster[0]]) + Without(roster[1..], user)
  }

  /** First position of x in s. */
  function IndexOf(s: seq<UserId>, x: UserId): (k: nat)
    requires x in s
    ensures k < |s| && s[k] == x
    ensures forall i :: 0 <= i < k ==> s[i] != x
  {
    if s[0] == x then 0 else 1 + IndexOf(s[1..], x)
  }

  /** In a sequence without repetitions every element's first position is its only one. */
  lemma IndexOfDistinct(s: seq<UserId>)
    ensures Distinct(s) ==> forall k :: 0 <= k < |s| ==> IndexOf(s, s[k]) == k
  {
  }

  /** On a roster without repetitions, leaving removes exactly the one
      position the user holds; everybody else keeps their place. */
  lemma {:induction false} WithoutDistinct(roster: seq<UserId>, user: UserId)
    requires Distinct(roster) && user in roster
    ensures var k := IndexOf(roster, user);
            Without(roster, user) == roster[..k] + roster[k + 1..]
    ensures |Without(roster, user)| == |roster| - 1
    ensures Distinct(Without(roster, user))
  {
    var k := IndexOf(roster, user);
    WithoutAt(roster, user);
    DistinctRemoveAt(roster, k);
  }

  lemma {:induction false} WithoutAt(roster: seq<UserId>, user: UserId)
    requires Distinct(roster) && user in roster
    ensures var k := IndexOf(roster, user);
            Without(roster, user) == roster[..k] + roster[k + 1..]
  {
    var rest := roster[1..];
    DistinctTail(roster);
    if roster[0] == user {
      WithoutAbsent(rest, user);
    } else {
      WithoutAt(rest, user);
      var k := IndexOf(roster, user);
      assert IndexOf(rest, user) == k - 1;
      assert roster[..k] == [roster[0]] + rest[..k - 1];
      assert roster[k + 1..] == rest[k..];
    }
  }

  lemma DistinctTail(s: seq<UserId>)
    requires Distinct(s) && s != []
    ensures Distinct(s[1..]) && s[0] !in s[1..]
  {
    var rest := s[1..];
    forall i, j | 0 <= i < j < |rest| ensures rest[i] != rest[j] {
      assert rest[i] == s[i + 1] && rest[j] == s[j + 1];
    }
    forall j | 0 <= j < |rest| ensures rest[j] != s[0] {
      assert rest[j] == s[j + 1];
    }
  }

  lemma DistinctRemoveAt(s: seq<UserId>, k: nat)
    requires Distinct(s) && k < |s|
    ensures Distinct(s[..k] + s[k + 1..])
  {
    var r := s[..k] + s[k + 1..];
    forall i, j | 0 <= i < j < |r| ensures r[i] != r[j] {
      var i' := if i < k then i else i + 1;
      var j' := if j < k then j else j + 1;
      assert r[i] == s[i'] && r[j] == s[j'];
    }
  }

  /** Removing a user who is not on the roster changes nothing. */
  lemma {:induction false} WithoutAbsent(roster: seq<UserId>, user: UserId)
    requires user !in roster
    ensures Without(roster, user) == roster
  {
    if roster != [] {
      assert user !in roster[1..];
      WithoutAbsent(roster[1..], user);
    }
  }

  /** Leave undoes Join: appending a newcomer and removing them again
      gives back the roster. */
  lemma {:induction false} LeaveUndoesJoin(roster: seq<UserId>, user: UserId)
    requires user !in roster
    ensures Without(roster + [user], user) == roster
  {
    if roster == [] {
      assert Without([user], user) == [] + Without([], user);
    } else {
      assert (roster + [user])[1..] == roster[1..] + [user];
      assert user !in roster[1..];
      LeaveUndoesJoin(roster[1..], user);
    }
  }

  // ---------------------------------------------------------------------
  // Role assignment (app.js:515-533)
  // ---------------------------------------------------------------------

  /** Position 0 of the shuffled roster is the spy, position 1 the mole,
      every later position an investigator; the code written for position k
      is the literal app.js passes there. */
  function RoleAt(k: nat): (r: Role)
    ensures r.Code() == (if k == 0 then 2 else if k == 1 then 3 else 1)
  {
    if k == 0 then Spy else if k == 1 then Mole else Investigator
  }

  /** The roles written for a shuffled roster: every member gets one, and
      on a roster without repetitions position k gets RoleAt(k). */
  function Assignment(shuffled: seq<UserId>): (m: map<UserId, Role>)
    ensures forall u :: u in m <==> u in shuffled
    ensures Distinct(shuffled) ==> forall k :: 0 <= k < |shuffled| ==> m[shuffled[k]] == RoleAt(k)
  {
    IndexOfDistinct(shuffled);
    map u | u in shuffled :: RoleAt(IndexOf(shuffled, u))
  }

  /** The users a role map gives role r. */
  function Holders(roles: map<UserId, Role>, r: Role): set<UserId> {
    set u | u in roles && roles[u] == r
  }

  /** Each member of a shuffled roster of n >= 2 distinct users gets
      exactly one role: one spy, one mole (a different user) and n - 2
      investigators. */
  lemma AssignmentRoles(shuffled: seq<UserId>)
    requires Distinct(shuffled) && |shuffled| >= 2
    ensures forall u :: u in Assignment(shuffled) <==> u in shuffled
    ensures Holders(Assignment(shuffled), Spy) == {shuffled[0]}
    ensures Holders(Assignment(shuffled), Mole) == {shuffled[1]}
    ensures shuffled[0] != shuffled[1]
    ensures |Holders(Assignment(shuffled), Investigator)| == |shuffled| - 2
  {
    var m := Assignment(shuffled);
    assert Holders(m, Spy) == {shuffled[0]} by {
      forall u | u in Holders(m, Spy) ensures u == shuffled[0] {
        var k := IndexOf(shuffled, u);
      }
    }
    assert Holders(m, Mole) == {shuffled[1]} by {
      forall u | u in Holders(m, Mole) ensures u == shuffled[1] {
        var k := IndexOf(shuffled, u);
      }
    }
    InvestigatorCount(shuffled);
  }

  /** The roles written after the first i positions of the shuffled roster
      have been dealt: only roster members hold a role, and each of the
      first i positions k holds RoleAt(k). */
  predicate DealtUpTo(shuffled: seq<UserId>, dealt: map<UserId, Role>, i: nat) {
    && (forall u :: u in dealt ==> u in shuffled)
    && (forall k :: 0 <= k < i && k < |shuffled| ==> shuffled[k] in dealt && dealt[shuffled[k]] == RoleAt(k))
  }

  /** Dealing position i to its role extends DealtUpTo by one position. */
  lemma DealtStep(shuffled: seq<UserId>, dealt: map<UserId, Role>, i: nat)
    requires Distinct(shuffled) && i < |shuffled|
    requires i == 0 ==> forall u :: u in dealt ==> u in shuffled
    requires i > 0 ==> DealtUpTo(shuffled, dealt, i)
    ensures DealtUpTo(shuffled, dealt[shuffled[i] := RoleAt(i)], i + 1)
  {
  }

  /** Writing the same key twice keeps only the second write. */
  lemma UpdateTwice(m: map<GameId, map<UserId, Role>>, g: GameId, a: map<UserId, Role>, b: map<UserId, Role>)
    ensures m[g := a][g := b] == m[g := b]
  {
  }

  /** Once every position is dealt, the role map is the assignment of the roster. */
  lemma DealtIsAssignment(shuffled: seq<UserId>, dealt: map<UserId, Role>)
    requires Distinct(shuffled)
    requires DealtUpTo(shuffled, dealt, |shuffled|)
    ensures dealt == Assignment(shuffled)
  {
    var m := Assignment(shuffled);
    forall u | u in m ensures u in dealt && dealt[u] == m[u] {
      var k := IndexOf(shuffled, u);
    }
  }

  lemma InvestigatorCount(shuffled: seq<UserId>)
    requires Distinct(shuffled) && |shuffled| >= 2
    ensures |Holders(Assignment(shuffled), Investigator)| == |shuffled| - 2
  {
    var m := Assignment(shuffled);
    var tail := shuffled[2..];
    assert Holders(m, Investigator) == set u | u in tail by {
      forall u | u in Holders(m, Investigator) ensures u in tail {
        var k := IndexOf(shuffled, u);
        assert tail[k - 2] == u;
      }
      forall u | u in tail ensures u in Holders(m, Investigator) {
        var j :| 0 <= j < |tail| && tail[j] == u;
        assert shuffled[j + 2] == u;
      }
    }
    DistinctTail(shuffled);
    DistinctTail(shuffled[1..]);
    assert shuffled[1..][1..] == tail;
    DistinctCardinality(tail);
  }

  // ---------------------------------------------------------------------
  // Invariants of the joined_users table
  // ---------------------------------------------------------------------

  /** Nobody is joined twice under one game id. */
  predicate RostersDistinct(rosters: map<GameId, seq<UserId>>) {
    forall g :: g in rosters ==> Distinct(rosters[g])
  }

  /** A role is stored only for a user joined under that game id. */
  predicate RolesWithinRosters(roles: map<GameId, map<UserId, Role>>, rosters: map<GameId, seq<UserId>>) {
    forall g :: g in roles ==> g in rosters && forall u :: u in roles[g] ==> u in rosters[g]
  }

  /** Deleting a game's joined users keeps both invariants. */
  lemma DropGame(rosters: map<GameId, seq<UserId>>, roles: map<GameId, map<UserId, Role>>, id: GameId)
    requires RostersDistinct(rosters) && RolesWithinRosters(roles, rosters)
    ensures RostersDistinct(rosters - {id}) && RolesWithinRosters(roles - {id}, rosters - {id})
  {
  }

  lemma RolesUpdateWithin(roles: map<GameId, map<UserId, Role>>, rosters: map<GameId, seq<UserId>>,
                          g: GameId, dealt: map<UserId, Role>)
    requires RolesWithinRosters(roles, rosters)
    requires g in rosters && forall u :: u in dealt ==> u in rosters[g]
    ensures RolesWithinRosters(roles[g := dealt], rosters)
  {
  }

  // ---------------------------------------------------------------------
  // The store and the handlers
  // ---------------------------------------------------------------------

  class Store {
    /** active_games, in insertion order; `getActiveGames` returns all of it. */
    var games: seq<GameRow>
    /** joined_users: the usernames joined under each game id, in insertion order. */
    var rosters: map<GameId, seq<UserId>>
    /** The role each joined user was dealt, per game id (a role column of
        joined_users, assumed). */
    var roles: map<GameId, map<UserId, Role>>
    /** messages: the response token of each host's /start interaction,
        keyed by host as the calls at app.js:139, 236 and 274 use it. */
    var messages: map<UserId, Token>

    /** What the handlers keep true of the tables: one game per host (the
        /start guard), unique game ids (generateUniqueGameId), the
        4..10 bound on max_players, no user joined twice under one id (the
        join guard), and roles only for users still joined. */
    ghost predicate Valid()
      reads this
    {
      && UniqueHosts(games)
      && UniqueIds(games)
      && MaxPlayersInRange(games)
      && RostersDistinct(rosters)
      && RolesWithinRosters(roles, rosters)
    }

    /** `getJoinedUsers(db, gameId)`: the rows joined under an id (none for
        an unknown id); in a valid store nobody appears twice. */
    function Roster(id: GameId): (r: seq<UserId>)
      reads this
      ensures id !in rosters ==> r == []
      ensures Valid() ==> Distinct(r)
    {
      if id in rosters then rosters[id] else []
    }

    function RolesOf(id: GameId): map<UserId, Role>
      reads this
    {
      if id in roles then roles[id] else map[]
    }

    /** An id that no row, roster or role refers to yet. */
    ghost predicate IsFreshId(id: GameId)
      reads this
    {
      id !in rosters && id !in roles && forall i :: 0 <= i < |games| ==> games[i].id != id
    }

    /** `createInitialTables` on a new database file: empty tables. On an
        existing file, `CREATE TABLE IF NOT EXISTS` keeps earlier rows;
        the handlers then need only that those rows satisfy Valid(). */
    constructor ()
      ensures Valid()
      ensures games == [] && rosters == map[] && roles == map[] && messages == map[]
    {
      games, rosters, roles, messages := [], map[], map[], map[];
    }

    /** The /start command (app.js:109-212): a host with no active game
        stores the token of the interaction, adds a game row with a new
        id built from the clock and a random suffix, and joins the game
        as its first player. */
    method Start(host: UserId, maxPlayers: int, token: Token, timestamp: nat, suffix: nat)
      returns (o: Outcome)
      requires Valid()
      requires MinMaxPlayers <= maxPlayers <= MaxMaxPlayers
      requires suffix < 1000 && IsFreshId(UniqueGameId(timestamp, suffix))
      modifies this
      ensures Valid()
      ensures o == Rejected(AlreadyHosting) <==> old(HostsSomeGame(games, host))
      ensures o == Done <==> !old(HostsSomeGame(games, host))
      ensures o != Done ==> unchanged(this)
      ensures o == Done ==>
        var id := UniqueGameId(timestamp, suffix);
        && games == old(games) + [GameRow(id, host, maxPlayers)]
        && rosters == old(rosters)[id := [host]]
        && roles == old(roles)
        && messages == old(messages)[host := token]
    {
      if HostsSomeGame(games, host) {
        return Rejected(AlreadyHosting);
      }
      messages := messages[host := token];
      var id := UniqueGameId(timestamp, suffix);
      assert Roster(id) + [host] == [host];
      games := games + [GameRow(id, host, maxPlayers)];
      rosters := rosters[id := Roster(id) + [host]];
      o := Done;
    }

    /** The /cancel command (app.js:214-283): the caller's game row, its
        joined users and the caller's stored token are deleted. A missing
        or empty token stops it silently before anything is deleted. */
    method Cancel(caller: UserId) returns (o: Outcome)
      requires Valid()
      modifies this
      ensures Valid()
      ensures o == Rejected(NotHosting) <==> !old(HostsSomeGame(games, caller))
      ensures o == Rejected(NoResponseToken) <==>
        old(HostsSomeGame(games, caller)) && (caller !in old(messages) || old(messages)[caller] == "")
      ensures o == Done <==>
        old(HostsSomeGame(games, caller)) && caller in old(messages) && old(messages)[caller] != ""
      ensures o != Done ==> unchanged(this)
      ensures o == Done ==>
        var k := HostIndex(old(games), caller);
        var id := old(games)[k].id;
        && games == RemoveAt(old(games), k)
        && rosters == old(rosters) - {id}
        && roles == old(roles) - {id}
        && messages == old(messages) - {caller}
      ensures o == Done ==> !HostsSomeGame(games, caller)
    {
      if !HostsSomeGame(games, caller) {
        return Rejected(NotHosting);
      }
      if caller !in messages || messages[caller] == "" {
        return Rejected(NoResponseToken);
      }
      var k := HostIndex(games, caller);
      var id := games[k].id;
      RemoveHostRow(games, k);
      DropGame(rosters, roles, id);
      games := RemoveAt(games, k);
      rosters := rosters - {id};
      roles := roles - {id};
      messages := messages - {caller};
      o := Done;
    }

    /** The join button (app.js:324-398). The capacity compared against is
        that of row 0 of active_games, whichever game that is; the user
        is appended under the clicked id even when no row carries it. */
    method Join(gameId: GameId, user: UserId) returns (o: Outcome)
      requires Valid()
      modifies this
      ensures Valid()
      ensures o == Rejected(AlreadyJoined) <==> user in old(Roster(gameId))
      ensures o == Rejected(NoGameRow) <==> user !in old(Roster(gameId)) && |old(games)| == 0
      ensures o == Rejected(LobbyFull) <==>
        user !in old(Roster(gameId)) && |old(games)| > 0
        && |old(Roster(gameId))| >= old(games)[0].maxPlayers
      ensures o == Done <==>
        user !in old(Roster(gameId)) && |old(games)| > 0
        && |old(Roster(gameId))| < old(games)[0].maxPlayers
      ensures o != Done ==> unchanged(this)
      ensures o == Done ==>
        && rosters == old(rosters)[gameId := old(Roster(gameId)) + [user]]
        && games == old(games) && roles == old(roles) && messages == old(messages)
      ensures o == Done ==> |Roster(gameId)| <= games[0].maxPlayers
    {
      var joined := Roster(gameId);
      if user in joined {
        return Rejected(AlreadyJoined);
      }
      if |games| == 0 {
        return Rejected(NoGameRow);
      }
      if |joined| >= games[0].maxPlayers {
        return Rejected(LobbyFull);
      }
      rosters := rosters[gameId := joined + [user]];
      o := Done;
      assert Distinct(joined + [user]) by {
        assert Distinct(joined);
        forall i, j | 0 <= i < j < |joined| + 1 ensures (joined + [user])[i] != (joined + [user])[j] {
          if j == |joined| {
            assert (joined + [user])[i] == joined[i];
          }
        }
      }
    }

    /** The leave button (app.js:400-452): the user's row under the
        clicked id is deleted, and with it the role stored on it. */
    method Leave(gameId: GameId, user: UserId) returns (o: Outcome)
      requires Valid()
      modifies this
      ensures Valid()
      ensures o == Rejected(NotJoined) <==> user !in old(Roster(gameId))
      ensures o == Rejected(NoGameRow) <==> user in old(Roster(gameId)) && |old(games)| == 0
      ensures o == Done <==> user in old(Roster(gameId)) && |old(games)| > 0
      ensures o != Done ==> unchanged(this)
      ensures o == Done ==>
        && rosters == old(rosters)[gameId := Without(old(Roster(gameId)), user)]
        && roles == (if gameId in old(roles) then old(roles)[gameId := old(roles)[gameId] - {user}] else old(roles))
        && games == old(games) && messages == old(messages)
      ensures o == Done ==>
        var before := old(Roster(gameId));
        var k := IndexOf(before, user);
        Roster(gameId) == before[..k] + before[k + 1..]
    {
      var joined := Roster(gameId);
      if user !in joined {
        return Rejected(NotJoined);
      }
      if |games| == 0 {
        return Rejected(NoGameRow);
      }
      WithoutDistinct(joined, user);
      rosters := rosters[gameId := Without(joined, user)];
      if gameId in roles {
        roles := roles[gameId := roles[gameId] - {user}];
      }
      o := Done;
    }

    /** `assignRoleToUser(db, gameId, user, code)`: the table keeps the Role,
        and `role.Code()` is the integer code app.js passes. Assumed to set
        the role column of that user's joined_users row under gameId. */
    method AssignRole(gameId: GameId, user: UserId, role: Role)
      modifies this
      ensures roles == old(roles)[gameId := old(RolesOf(gameId))[user := role]]
      ensures games == old(games) && rosters == old(rosters) && messages == old(messages)
    {
      roles := roles[gameId := RolesOf(gameId)[user := role]];
    }

    /** app.js:521-533: the spy, the mole, then one investigator per
        remaining position of the shuffled roster, each written with
        assignRoleToUser. Roles stored earlier for these users are overwritten. */
    method AssignRoles(gameId: GameId, shuffled: seq<UserId>)
      requires Distinct(shuffled) && |shuffled| >= 2
      requires forall u :: u in RolesOf(gameId) ==> u in shuffled
      modifies this
      ensures roles == old(roles)[gameId := Assignment(shuffled)]
      ensures games == old(games) && rosters == old(rosters) && messages == old(messages)
    {
      DealtStep(shuffled, RolesOf(gameId), 0);
      AssignRole(gameId, shuffled[0], Spy);
      DealtStep(shuffled, RolesOf(gameId), 1);
      AssignRole(gameId, shuffled[1], Mole);
      for i := 2 to |shuffled|
        invariant games == old(games) && rosters == old(rosters) && messages == old(messages)
        invariant roles == old(roles)[gameId := RolesOf(gameId)]
        invariant DealtUpTo(shuffled, RolesOf(gameId), i)
      {
        ghost var before := RolesOf(gameId);
        DealtStep(shuffled, before, i);
        AssignRole(gameId, shuffled[i], Investigator);
        UpdateTwice(old(roles), gameId, before, RolesOf(gameId));
      }
      DealtIsAssignment(shuffled, RolesOf(gameId));
    }

    /** app.js:514-533: shuffle the clicked game's roster with the
        supplied draws and deal the roles in shuffled order. */
    method DealRoles(gameId: GameId, picks: seq<int>)
      requires Valid()
      requires |Roster(gameId)| >= 2 && ValidPicks(picks, |Roster(gameId)|)
      modifies this
      ensures Valid()
      ensures roles == old(roles)[gameId := Assignment(Shuffled(old(Roster(gameId)), picks))]
      ensures games == old(games) && rosters == old(rosters) && messages == old(messages)
    {
      var users := Roster(gameId);
      var ids := new UserId[|users|](k requires 0 <= k < |users| => users[k]);
      assert ids[..] == users;
      var shuffledIds := ShuffleArray(ids, picks);
      var shuffled := shuffledIds[..];
      assert shuffled == Shuffled(users, picks);
      ShuffledRoster(users, picks);
      assert forall u :: u in RolesOf(gameId) ==> u in shuffled;
      AssignRoles(gameId, shuffled);
      RolesUpdateWithin(old(roles), rosters, gameId, Assignment(shuffled));
    }

    /** The start_game button (app.js:454-553). Only a user who hosts some
        active game may press it (not necessarily the clicked one); the
        clicked game's roster must hold at least four users; it is then
        shuffled with the supplied random draws, position 0 becomes the
        spy, position 1 the mole and the rest investigators. */
    method StartGame(gameId: GameId, clicker: UserId, picks: seq<int>) returns (o: Outcome)
      requires Valid()
      requires ValidPicks(picks, |Roster(gameId)|)
      modifies this
      ensures Valid()
      ensures o == Rejected(NoGameRow) <==> |old(games)| == 0
      ensures o == Rejected(NotHost) <==> |old(games)| > 0 && !old(HostsSomeGame(games, clicker))
      ensures o == Rejected(NotEnoughPlayers) <==>
        old(HostsSomeGame(games, clicker)) && |old(Roster(gameId))| < MinPlayers
      ensures o == Done <==> old(HostsSomeGame(games, clicker)) && |old(Roster(gameId))| >= MinPlayers
      ensures o != Done ==> unchanged(this)
      ensures games == old(games) && rosters == old(rosters) && messages == old(messages)
      ensures o == Done ==>
        roles == old(roles)[gameId := Assignment(Shuffled(old(Roster(gameId)), picks))]
      ensures o == Done ==>
        var dealt := roles[gameId];
        && (forall u :: u in dealt <==> u in Roster(gameId))
        && |Holders(dealt, Spy)| == 1
        && |Holders(dealt, Mole)| == 1
        && Holders(dealt, Spy) !! Holders(dealt, Mole)
        && |Holders(dealt, Investigator)| == |Roster(gameId)| - 2
    {
      if |games| == 0 {
        return Rejected(NoGameRow);
      }
      if !HostsSomeGame(games, clicker) {
        return Rejected(NotHost);
      }
      var users := Roster(gameId);
      if |users| < MinPlayers {
        return Rejected(NotEnoughPlayers);
      }
      DealRoles(gameId, picks);
      ShuffledRoster(users, picks);
      AssignmentRoles(Shuffled(users, picks));
      o := Done;
    }
  }

  /** The shuffled roster holds the same users, still without repetitions. */
  lemma ShuffledRoster(users: seq<UserId>, picks: seq<int>)
    requires Distinct(users) && ValidPicks(picks, |users|)
    ensures Distinct(Shuffled(users, picks)) && |Shuffled(users, picks)| == |users|
    ensures forall u :: u in Shuffled(users, picks) <==> u in users
  {
    var shuffled := Shuffled(users, picks);
    ShuffledDistinct(users, picks);
    forall u ensures u in shuffled <==> u in users {
      assert u in shuffled <==> u in multiset(shuffled);
      assert u in users <==> u in multiset(users);
    }
  }

  /** /start with a non-empty token followed by /cancel from the same host,
      with no stored token for that host beforehand, leaves the tables as
      they were. */
  method StartThenCancel(store: Store, host: UserId, maxPlayers: int, token: Token, timestamp: nat, suffix: nat)
    returns (started: Outcome, canceled: Outcome)
    requires store.Valid()
    requires MinMaxPlayers <= maxPlayers <= MaxMaxPlayers
    requires suffix < 1000 && store.IsFreshId(UniqueGameId(timestamp, suffix))
    requires !HostsSomeGame(store.games, host) && host !in store.messages
    requires token != ""
    modifies store
    ensures started == Done && canceled == Done
    ensures store.games == old(store.games) && store.rosters == old(store.rosters)
    ensures store.roles == old(store.roles) && store.messages == old(store.messages)
  {
    ghost var games0, rosters0, roles0, messages0 := store.games, store.rosters, store.roles, store.messages;
    started := store.Start(host, maxPlayers, token, timestamp, suffix);
    var id := UniqueGameId(timestamp, suffix);
    ghost var row := GameRow(id, host, maxPlayers);
    AppendedRowIsHostRow(games0, row);
    canceled := store.Cancel(host);
    RemoveAppended(games0, row);
    UndoInsert(rosters0, id, [host]);
    UndoInsert(messages0, host, token);
    assert roles0 - {id} == roles0;
  }

  /** A row appended for a host who owned none is the host's first row. */
  lemma AppendedRowIsHostRow(games: seq<GameRow>, row: GameRow)
    requires !HostsSomeGame(games, row.host)
    ensures HostsSomeGame(games + [row], row.host)
    ensures HostIndex(games + [row], row.host) == |games|
  {
    var t := games + [row];
    assert t[|games|] == row;
    forall i | 0 <= i < |games| ensures t[i].host != row.host {
      assert t[i] == games[i];
    }
  }

  /** Deleting the row just appended gives back the table. */
  lemma RemoveAppended(games: seq<GameRow>, row: GameRow)
    ensures RemoveAt(games + [row], |games|) == games
  {
  }

  /** Inserting a fresh key and deleting it again gives back the map. */
  lemma UndoInsert<K, V>(m: map<K, V>, k: K, v: V)
    requires k !in m
    ensures m[k := v] - {k} == m
  {
  }

  /** alice opens a lobby for at most aliceMax players, then bob one for bobMax. */
  method OpenTwoLobbies(aliceMax: int, bobMax: int) returns (store: Store, bobGame: GameId)
    requires MinMaxPlayers <= aliceMax <= MaxMaxPlayers && MinMaxPlayers <= bobMax <= MaxMaxPlayers
    ensures fresh(store) && store.Valid()
    ensures |store.games| == 2
    ensures store.games[0] == GameRow(UniqueGameId(1, 0), "alice", aliceMax)
    ensures store.games[1] == GameRow(bobGame, "bob", bobMax)
    ensures store.Roster(bobGame) == ["bob"]
  {
    store := new Store();
    var aliceGame := UniqueGameId(1, 0);
    bobGame := UniqueGameId(2, 0);
    assert aliceGame != bobGame by {
      if aliceGame == bobGame { GameIdInjective(1, 0, 2, 0); }
    }
    var o := store.Start("alice", aliceMax, "t1", 1, 0);
    assert "bob" != "alice" by { assert "bob"[0] != "alice"[0]; }
    assert store.IsFreshId(bobGame);
    o := store.Start("bob", bobMax, "t2", 2, 0);
  }

  /** Because the join button reads row 0 of active_games, bob's lobby
      fills up at alice's limit of 4 although bob asked for 10. */
  method JoinUsesTheFirstRowLimit() returns (o: Outcome)
    ensures o == Rejected(LobbyFull)
  {
    var store, bobGame := OpenTwoLobbies(4, 10);
    assert "carol" !in ["bob"] by { assert "carol"[0] != "bob"[0]; }
    o := store.Join(bobGame, "carol");
    assert "dave" !in ["bob", "carol"] by { assert "dave"[0] != "bob"[0] && "dave"[0] != "carol"[0]; }
    o := store.Join(bobGame, "dave");
    assert "erin" !in ["bob", "carol", "dave"] by {
      assert "erin"[0] != "bob"[0] && "erin"[0] != "carol"[0] && "erin"[0] != "dave"[0];
    }
    o := store.Join(bobGame, "erin");
    assert store.Roster(bobGame) == ["bob", "carol", "dave", "erin"];
    assert "frank" !in store.Roster(bobGame) by {
      assert "frank"[0] !in {"bob"[0], "carol"[0], "dave"[0], "erin"[0]};
    }
    o := store.Join(bobGame, "frank");
  }

  /** A host whose /start stored an empty token cannot cancel: `!token` is
      true for "" at app.js:240, so /cancel returns before deleting anything. */
  method CancelWithEmptyToken() returns (o: Outcome, store: Store)
    ensures o == Rejected(NoResponseToken)
    ensures |store.games| == 1 && store.games[0].host == "alice"
  {
    store := new Store();
    var started := store.Start("alice", 4, "", 1, 0);
    o := store.Cancel("alice");
  }

  /** The other direction of reading row 0: with alice's 10-player lobby
      first, bob's 4-player lobby takes a fifth player, so a roster can
      outgrow its own game's max_players. */
  method JoinOverfillsSmallLobby() returns (o: Outcome, store: Store, bobGame: GameId)
    ensures o == Done
    ensures |store.games| == 2 && store.games[1] == GameRow(bobGame, "bob", 4)
    ensures |store.Roster(bobGame)| == 5
  {
    store, bobGame := OpenTwoLobbies(10, 4);
    assert "carol" !in ["bob"] by { assert "carol"[0] != "bob"[0]; }
    o := store.Join(bobGame, "carol");
    assert "dave" !in ["bob", "carol"] by { assert "dave"[0] != "bob"[0] && "dave"[0] != "carol"[0]; }
    o := store.Join(bobGame, "dave");
    assert "erin" !in ["bob", "carol", "dave"] by {
      assert "erin"[0] != "bob"[0] && "erin"[0] != "carol"[0] && "erin"[0] != "dave"[0];
    }
    o := store.Join(bobGame, "erin");
    assert store.Roster(bobGame) == ["bob", "carol", "dave", "erin"];
    assert "frank" !in store.Roster(bobGame) by {
      assert "frank"[0] !in {"bob"[0], "carol"[0], "dave"[0], "erin"[0]};
    }
    o := store.Join(bobGame, "frank");
  }
}

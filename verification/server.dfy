/** The two-player game server: a registry of game sessions keyed by four-digit codes,
    drawn from a shuffled pool, and the connections taking part in them. Each request is
    handled as one atomic step; sockets are connection numbers and every write appends a
    message to the receiving connection's outbox. */
module Server {
  import opened Numerals
  import opened Sequences
  import opened Words
  import opened Config

  /** A client socket. */
  type Conn = nat

  /** What a player reports at the end of a game: won or not, the attempts used, the time
      in milliseconds, and whether the clock ran out. */
  datatype GameResult = GameResult(isWin: bool, attempts: int, time: int, isTimeOut: bool)

  /** One line of the result screen: a timeout, or success or failure with the attempts
      and the time (whose text form, seconds with three decimals, is not modelled). */
  datatype ScoreLine = TimedOut | Scored(isWin: bool, attempts: int, time: int)

  /** The replies the server writes. */
  datatype Message =
    | GameCodeMsg(gameCode: string)
    | JoinedMsg
    | SecretCodeMsg(secretCode: string)
    | ErrorMsg(message: string)
    | ResultsMsg(headline: string, own: ScoreLine, opponent: ScoreLine)
    | OpponentDisconnectedMsg

  /** What a client can send, as the handler reads it: an action with its argument (a
      code that is not a string reads as absent, a result that is not a `GameResult`
      fails the cast), any other action, or the end of the stream. */
  datatype Request =
    | CreateGame
    | JoinGame(gameCode: Option<string>)
    | SubmitResult(result: Option<GameResult>)
    | UnknownAction
    | Hangup

  const YOU_WIN: string := "You win!"
  const YOU_LOSE: string := "You lose"
  const DRAW: string := "Draw"
  const NOONE_WINS: string := "Noone wins"
  const INVALID_CODE_MESSAGE: string := "Invalid game code or game full"
  const NULL_CODE_MESSAGE: string := "Game code is null"

  // ---------------------------------------------------------------------------------
  // Results

  /** `generateResultMessage`: a timeout is shown as such whatever the other fields say. */
  function ScoreLineOf(result: GameResult): (line: ScoreLine)
    ensures line.TimedOut? <==> result.isTimeOut
    ensures line.Scored? ==> line.isWin == result.isWin && line.attempts == result.attempts
                             && line.time == result.time
  {
    if result.isTimeOut then TimedOut else Scored(result.isWin, result.attempts, result.time)
  }

  /** The headlines of `notifyPlayers` for the first and the second result: a player wins
      by winning when the other does not, or by winning faster; equal winning times draw;
      when nobody wins, nobody wins. */
  function Headlines(r1: GameResult, r2: GameResult): (h: (string, string))
    ensures h.0 == YOU_WIN <==> r1.isWin && (!r2.isWin || r1.time < r2.time)
    ensures h.1 == YOU_WIN <==> r2.isWin && (!r1.isWin || r2.time < r1.time)
    ensures h.0 == YOU_LOSE <==> h.1 == YOU_WIN
    ensures h.1 == YOU_LOSE <==> h.0 == YOU_WIN
    ensures h.0 == DRAW <==> r1.isWin && r2.isWin && r1.time == r2.time
    ensures h.0 == DRAW <==> h.1 == DRAW
    ensures h.0 == NOONE_WINS <==> !r1.isWin && !r2.isWin
    ensures h.0 == NOONE_WINS <==> h.1 == NOONE_WINS
  {
    if r1.isWin && r2.isWin then
      if r1.time < r2.time then (YOU_WIN, YOU_LOSE)
      else if r2.time < r1.time then (YOU_LOSE, YOU_WIN)
      else (DRAW, DRAW)
    else if r1.isWin then (YOU_WIN, YOU_LOSE)
    else if r2.isWin then (YOU_LOSE, YOU_WIN)
    else (NOONE_WINS, NOONE_WINS)
  }

  /** The outcome does not depend on which player submitted first. */
  lemma HeadlinesSymmetric(r1: GameResult, r2: GameResult)
    ensures Headlines(r2, r1) == (Headlines(r1, r2).1, Headlines(r1, r2).0)
  {
  }

  /** The message each player of a finished game gets: the headline, then their own
      score and the opponent's. */
  function ResultMessages(r1: GameResult, r2: GameResult): (m: (Message, Message))
    ensures m.0.ResultsMsg? && m.1.ResultsMsg?
    ensures m.0.own == m.1.opponent && m.1.own == m.0.opponent
    ensures m.0.own == ScoreLineOf(r1) && m.1.own == ScoreLineOf(r2)
    ensures (m.0.headline, m.1.headline) == Headlines(r1, r2)
  {
    var h := Headlines(r1, r2);
    (ResultsMsg(h.0, ScoreLineOf(r1), ScoreLineOf(r2)), ResultsMsg(h.1, ScoreLineOf(r2), ScoreLineOf(r1)))
  }

  // ---------------------------------------------------------------------------------
  // Connections

  /** What has been written to a connection so far. */
  function Inbox(outbox: map<Conn, seq<Message>>, c: Conn): seq<Message> {
    if c in outbox then outbox[c] else []
  }

  function Append(outbox: map<Conn, seq<Message>>, c: Conn, m: Message): map<Conn, seq<Message>> {
    outbox[c := Inbox(outbox, c) + [m]]
  }

  /** Writes each letter in order; a write to a closed connection throws, so the letters
      after it are not written. Returns the new outboxes and whether all were written. */
  function Deliver(outbox: map<Conn, seq<Message>>, closed: set<Conn>, letters: seq<(Conn, Message)>)
    : (map<Conn, seq<Message>>, bool)
    decreases |letters|
  {
    if letters == [] then (outbox, true)
    else if letters[0].0 in closed then (outbox, false)
    else Deliver(Append(outbox, letters[0].0, letters[0].1), closed, letters[1..])
  }

  /** The same message to each connection in turn. */
  function Letters(recipients: seq<Conn>, m: Message): (letters: seq<(Conn, Message)>)
    ensures |letters| == |recipients|
    ensures forall i :: 0 <= i < |recipients| ==> letters[i] == (recipients[i], m)
  {
    if recipients == [] then [] else [(recipients[0], m)] + Letters(recipients[1..], m)
  }

  /** Letters to open connections, at most one each, are all written: each recipient's
      outbox gains exactly its letter and every other outbox stays as it was. */
  lemma {:induction false} DeliverToOpen(outbox: map<Conn, seq<Message>>, closed: set<Conn>,
                                         letters: seq<(Conn, Message)>)
    requires forall i :: 0 <= i < |letters| ==> letters[i].0 !in closed
    requires forall i, j :: 0 <= i < j < |letters| ==> letters[i].0 != letters[j].0
    ensures Deliver(outbox, closed, letters).1
    ensures forall i :: 0 <= i < |letters| ==>
              Inbox(Deliver(outbox, closed, letters).0, letters[i].0) == Inbox(outbox, letters[i].0) + [letters[i].1]
    ensures forall c :: (forall i :: 0 <= i < |letters| ==> letters[i].0 != c) ==>
              Inbox(Deliver(outbox, closed, letters).0, c) == Inbox(outbox, c)
    decreases |letters|
  {
    if letters != [] {
      var next := Append(outbox, letters[0].0, letters[0].1);
      DeliverToOpen(next, closed, letters[1..]);
      forall i | 1 <= i < |letters|
        ensures Inbox(Deliver(outbox, closed, letters).0, letters[i].0) == Inbox(outbox, letters[i].0) + [letters[i].1]
      {
        assert letters[1..][i - 1] == letters[i];
      }
    }
  }

  /** A letter to a closed connection stops the delivery: not everything is written. */
  lemma {:induction false} DeliverToClosed(outbox: map<Conn, seq<Message>>, closed: set<Conn>,
                                           letters: seq<(Conn, Message)>, k: nat)
    requires k < |letters| && letters[k].0 in closed
    ensures !Deliver(outbox, closed, letters).1
    decreases k
  {
    if k > 0 && letters[0].0 !in closed {
      DeliverToClosed(Append(outbox, letters[0].0, letters[0].1), closed, letters[1..], k - 1);
    }
  }

  /** The same message broadcast to distinct open connections reaches every one of them
      and nobody else. */
  lemma BroadcastToOpen(outbox: map<Conn, seq<Message>>, closed: set<Conn>, recipients: seq<Conn>, m: Message)
    requires Distinct(recipients) && forall i :: 0 <= i < |recipients| ==> recipients[i] !in closed
    ensures Deliver(outbox, closed, Letters(recipients, m)).1
    ensures forall c :: Inbox(Deliver(outbox, closed, Letters(recipients, m)).0, c)
                        == Inbox(outbox, c) + (if c in recipients then [m] else [])
  {
    var letters := Letters(recipients, m);
    DeliverToOpen(outbox, closed, letters);
    forall c ensures Inbox(Deliver(outbox, closed, letters).0, c) == Inbox(outbox, c) + (if c in recipients then [m] else []) {
      if c in recipients {
        var i :| 0 <= i < |recipients| && recipients[i] == c;
        assert letters[i] == (c, m);
      }
    }
  }

  /** The sockets: what has been written to each connection and which are closed. */
  class Network {
    var outbox: map<Conn, seq<Message>>
    var closed: set<Conn>

    constructor ()
      ensures outbox == map[] && closed == {}
    {
      outbox := map[];
      closed := {};
    }

    /** `writeObject`: appends to an open connection; on a closed one it fails. */
    method Send(c: Conn, m: Message) returns (ok: bool)
      modifies this
      ensures ok <==> c !in old(closed)
      ensures outbox == if ok then Append(old(outbox), c, m) else old(outbox)
      ensures closed == old(closed)
    {
      ok := c !in closed;
      if ok {
        outbox := Append(outbox, c, m);
      }
    }

    /** `close`: closing twice is harmless. */
    method Close(c: Conn)
      modifies this
      ensures closed == old(closed) + {c}
      ensures outbox == old(outbox)
    {
      closed := closed + {c};
    }

    /** Writes the letters in order until one fails. */
    method SendAll(letters: seq<(Conn, Message)>) returns (ok: bool)
      modifies this
      ensures (outbox, ok) == Deliver(old(outbox), old(closed), letters)
      ensures closed == old(closed)
    {
      ok := true;
      var i := 0;
      while i < |letters| && ok
        invariant 0 <= i <= |letters| && closed == old(closed)
        invariant Deliver(old(outbox), closed, letters)
                  == if ok then Deliver(outbox, closed, letters[i..]) else (outbox, false)
        decreases |letters| - i
      {
        assert letters[i..][1..] == letters[i + 1..];
        ok := Send(letters[i].0, letters[i].1);
        i := i + 1;
      }
      assert ok ==> letters[i..] == [];
    }
  }

  // ---------------------------------------------------------------------------------
  // Sessions

  /** One game between at most two players, and the results they submit. Both maps keep
      insertion order, as Kotlin's `mutableMapOf` does. */
  class GameSession {
    var players: seq<Conn>
    var resultOrder: seq<Conn>
    var results: map<Conn, GameResult>

    /** At most two distinct players; `resultOrder` lists the keys of `results`, each
        once. */
    ghost predicate Valid()
      reads this
    {
      && |players| <= 2 && Distinct(players)
      && Distinct(resultOrder) && results.Keys == Elements(resultOrder)
    }

    /** Only players have submitted results. */
    ghost predicate ResultsFromPlayers()
      reads this
    {
      forall c :: c in resultOrder ==> c in players
    }

    constructor ()
      ensures Valid() && ResultsFromPlayers()
      ensures players == [] && resultOrder == [] && results == map[]
    {
      players := [];
      resultOrder := [];
      results := map[];
    }

    /** `addPlayer`: admits the player while fewer than two are in; adding a player
        already in changes nothing but still succeeds. */
    method AddPlayer(c: Conn) returns (added: bool)
      requires Valid()
      modifies this
      ensures Valid()
      ensures added <==> |old(players)| < 2
      ensures players == if added && c !in old(players) then old(players) + [c] else old(players)
      ensures added ==> c in players
      ensures !added ==> unchanged(this)
      ensures resultOrder == old(resultOrder) && results == old(results)
    {
      if |players| < 2 {
        if c !in players {
          players := players + [c];
        }
        added := true;
      } else {
        added := false;
      }
    }

    /** `isReadyToStart`: the game holds two different connections; short of that it
        still has room for another player. */
    predicate IsReadyToStart()
      reads this
      ensures Valid() && IsReadyToStart() ==> |players| == 2 && players[0] != players[1]
      ensures Valid() && !IsReadyToStart() ==> |players| < 2
    {
      |players| == 2
    }

    /** `startGame`: the same secret code, the randomly drawn colours joined with spaces,
        to each player in turn. */
    method StartGame(net: Network, picks: seq<string>) returns (ok: bool)
      requires IsSecretDraw(picks)
      modifies net
      ensures (net.outbox, ok) == Deliver(old(net.outbox), old(net.closed), Letters(players, SecretCodeMsg(Join(picks, SPACE))))
      ensures net.closed == old(net.closed)
    {
      var secretCode := Join(picks, SPACE);
      ok := net.SendAll(Letters(players, SecretCodeMsg(secretCode)));
    }

    /** `submitResult`: one result per connection; a later one replaces the earlier. */
    method SubmitResult(c: Conn, result: GameResult)
      requires Valid()
      modifies this
      ensures Valid()
      ensures results == old(results)[c := result]
      ensures resultOrder == if c in old(resultOrder) then old(resultOrder) else old(resultOrder) + [c]
      ensures players == old(players)
    {
      ElementsOfSnoc(resultOrder, c);
      results := results[c := result];
      if c !in resultOrder {
        resultOrder := resultOrder + [c];
      }
    }

    /** `isComplete`: both results are in, that is two different connections have
        submitted. */
    predicate IsComplete()
      reads this
      ensures Valid() ==> (IsComplete() <==> |resultOrder| == 2)
    {
      DistinctIffElementsSize(resultOrder);
      |results| == 2
    }

    /** The letters of `notifyPlayers`: each submitter that is a player gets its result
        message, first submitter first. */
    function ResultLetters(): (letters: seq<(Conn, Message)>)
      requires Valid() && IsComplete()
      reads this
    {
      DistinctIffElementsSize(resultOrder);
      var c0, c1 := resultOrder[0], resultOrder[1];
      var m := ResultMessages(results[c0], results[c1]);
      (if c0 in players then [(c0, m.0)] else []) + (if c1 in players then [(c1, m.1)] else [])
    }

    /** `notifyPlayers`: writes the result messages. */
    method NotifyPlayers(net: Network) returns (ok: bool)
      requires Valid() && IsComplete()
      modifies net
      ensures (net.outbox, ok) == Deliver(old(net.outbox), old(net.closed), ResultLetters())
      ensures net.closed == old(net.closed)
    {
      ok := net.SendAll(ResultLetters());
    }

    /** `closeSession`: closes every player's socket. */
    method CloseSession(net: Network)
      modifies net
      ensures net.closed == old(net.closed) + Elements(players)
      ensures net.outbox == old(net.outbox)
    {
      var i := 0;
      while i < |players|
        invariant 0 <= i <= |players|
        invariant net.closed == old(net.closed) + Elements(players[..i])
        invariant net.outbox == old(net.outbox)
      {
        assert players[..i + 1] == players[..i] + [players[i]];
        ElementsOfSnoc(players[..i], players[i]);
        net.Close(players[i]);
        i := i + 1;
      }
      assert players[..i] == players;
    }
  }

  // ---------------------------------------------------------------------------------
  // Game codes

  const FIRST_CODE: int := 1000
  const LAST_CODE: int := 9999

  /** A game code: 1000 to 9999, so always four digits. */
  predicate IsCode(n: int) {
    FIRST_CODE <= n <= LAST_CODE
  }

  /** The initial pool: every code once, in some order. */
  ghost predicate IsCodePool(pool: seq<int>) {
    Distinct(pool) && forall n :: n in pool <==> IsCode(n)
  }

  /** Each game key is the decimal text of a code that is not in the pool. */
  ghost predicate KeysFromCodes(codeOf: map<string, int>, pool: seq<int>) {
    forall k {:trigger DecimalText(codeOf[k])} :: k in codeOf ==>
      IsCode(codeOf[k]) && codeOf[k] !in pool && DecimalText(codeOf[k]) == k
  }

  /** Codes in the pool are codes, each there once. */
  ghost predicate PoolValid(pool: seq<int>) {
    Distinct(pool) && forall n :: n in pool ==> IsCode(n)
  }

  /** Taking the first code of the pool gives a four-digit key that no game has; filing
      the new game under it keeps every key tied to a code outside the pool. */
  lemma TakeCode(codeOf: map<string, int>, pool: seq<int>)
    requires PoolValid(pool) && |pool| > 0 && KeysFromCodes(codeOf, pool)
    ensures DecimalText(pool[0]) !in codeOf
    ensures |DecimalText(pool[0])| == 4 && AllDigits(DecimalText(pool[0]))
    ensures PoolValid(pool[1..])
    ensures KeysFromCodes(codeOf[DecimalText(pool[0]) := pool[0]], pool[1..])
  {
    var n0 := pool[0];
    assert n0 in pool;
    FourDigitText(n0);
    TailMembers(pool);
    if DecimalText(n0) in codeOf {
      var m := codeOf[DecimalText(n0)];
      assert DecimalText(m) == DecimalText(n0);
      DecimalTextInjective(m, n0);
    }
    var next := codeOf[DecimalText(n0) := n0];
    forall k | k in next
      ensures IsCode(next[k]) && next[k] !in pool[1..] && DecimalText(next[k]) == k
    {
      if k != DecimalText(n0) {
        assert DecimalText(codeOf[k]) == k;
      }
    }
  }

  /** Without repetitions, the tail holds every element but the head. */
  lemma TailMembers<T>(s: seq<T>)
    requires Distinct(s) && |s| > 0
    ensures Distinct(s[1..])
    ensures forall x :: x in s[1..] <==> x in s && x != s[0]
  {
    forall x | x in s && x != s[0] ensures x in s[1..] {
      var i :| 0 <= i < |s| && s[i] == x;
      assert s[1..][i - 1] == x;
    }
  }

  /** A game key reads back, with `toInt`, as its code, which can go back to the end of
      the pool once the game is gone. */
  lemma ReturnCode(codeOf: map<string, int>, pool: seq<int>, k: string)
    requires PoolValid(pool) && KeysFromCodes(codeOf, pool) && k in codeOf
    ensures ParseInt(k) == Some(codeOf[k])
    ensures PoolValid(pool + [codeOf[k]])
    ensures KeysFromCodes(codeOf - {k}, pool + [codeOf[k]])
  {
    var n := codeOf[k];
    assert DecimalText(codeOf[k]) == k;
    ParseDecimalText(n);
    var rest := codeOf - {k};
    forall j | j in rest
      ensures IsCode(rest[j]) && rest[j] !in pool + [n] && DecimalText(rest[j]) == j
    {
      assert DecimalText(codeOf[j]) == j;
      if codeOf[j] == n {
        assert false;
      }
    }
  }

  // ---------------------------------------------------------------------------------
  // The server

  /** Every session is valid and its own object, and only players submitted to it. */
  ghost predicate SessionsOk(games: map<string, GameSession>)
    reads games.Values
  {
    && (forall k :: k in games ==> games[k].Valid() && games[k].ResultsFromPlayers())
    && (forall k1, k2 :: k1 in games && k2 in games && k1 != k2 ==> games[k1] != games[k2])
  }

  /** An open connection with a game code is a player of that game. */
  ghost predicate Membership(clients: map<Conn, string>, closed: set<Conn>, games: map<string, GameSession>)
    reads games.Values
  {
    forall c :: c in clients && c !in closed ==> clients[c] in games && c in games[clients[c]].players
  }

  /** Two results from players of a session mean the session has exactly those two
      players. */
  lemma CompleteSession(session: GameSession)
    requires session.Valid() && session.ResultsFromPlayers() && session.IsComplete()
    ensures |session.resultOrder| == 2 && |session.players| == 2
    ensures Elements(session.players) == Elements(session.resultOrder)
  {
    DistinctIffElementsSize(session.resultOrder);
    var r0, r1 := session.resultOrder[0], session.resultOrder[1];
    assert r0 in session.players && r1 in session.players && r0 != r1;
  }

  /** The random secret of `startGame`: `sequenceLength` of the default colours. */
  ghost predicate IsSecretDraw(picks: seq<string>) {
    |picks| == DEFAULT_SETTINGS.sequenceLength && forall i :: 0 <= i < |picks| ==> picks[i] in DEFAULT_SETTINGS.colorsList
  }

  /** `GameSession()` followed by `addPlayer` for the creator. */
  method NewSession(creator: Conn) returns (session: GameSession)
    ensures fresh(session)
    ensures session.Valid() && session.ResultsFromPlayers()
    ensures session.players == [creator] && session.resultOrder == [] && session.results == map[]
  {
    session := new GameSession();
    var added := session.AddPlayer(creator);
  }

  lemma SessionsOkAdd(games: map<string, GameSession>, code: string, session: GameSession)
    requires SessionsOk(games) && code !in games && session !in games.Values
    requires session.Valid() && session.ResultsFromPlayers()
    ensures SessionsOk(games[code := session])
  {
  }

  lemma SessionsOkRemove(games: map<string, GameSession>, code: string)
    requires SessionsOk(games)
    ensures SessionsOk(games - {code})
  {
  }

  /** A new game with its creator keeps every open connection in its game. */
  lemma MembershipAdd(clients: map<Conn, string>, closed: set<Conn>, games: map<string, GameSession>,
                      conn: Conn, code: string, session: GameSession)
    requires Membership(clients, closed, games) && code !in games && conn in session.players
    ensures Membership(clients[conn := code], closed, games[code := session])
  {
  }

  /** Joining an existing game keeps every open connection in its game. */
  lemma MembershipJoin(clients: map<Conn, string>, closed: set<Conn>, games: map<string, GameSession>,
                       conn: Conn, code: string)
    requires Membership(clients, closed, games) && code in games && conn in games[code].players
    ensures Membership(clients[conn := code], closed, games)
  {
  }

  /** Deleting a game after closing all its players, and forgetting the code of the
      connection that left, keeps every open connection in its game. */
  lemma MembershipClose(clients: map<Conn, string>, closed: set<Conn>, games: map<string, GameSession>,
                        conn: Conn, code: string)
    requires Membership(clients, closed, games) && code in games
    ensures Membership(clients - {conn}, closed + Elements(games[code].players) + {conn}, games - {code})
  {
  }

  class GameServer {
    var games: map<string, GameSession>
    var clients: map<Conn, string>
    var nextCodes: seq<int>
    const net: Network
    /** The code each game key was made from. */
    ghost var codeOf: map<string, int>

    /** The pool holds distinct codes, and each game is keyed by the text of a code that
        is not in the pool. */
    ghost predicate CodesValid()
      reads this
    {
      PoolValid(nextCodes) && codeOf.Keys == games.Keys && KeysFromCodes(codeOf, nextCodes)
    }

    ghost predicate Valid()
      reads this, net`closed, games.Values
    {
      CodesValid() && SessionsOk(games) && Membership(clients, net.closed, games)
    }

    /** A server with no games, whose pool is a shuffled list of all codes. */
    constructor (pool: seq<int>)
      requires IsCodePool(pool)
      ensures Valid() && fresh(net)
      ensures games == map[] && clients == map[] && nextCodes == pool
      ensures net.outbox == map[] && net.closed == {}
    {
      games := map[];
      clients := map[];
      nextCodes := pool;
      codeOf := map[];
      net := new Network();
    }

    /** `generateGameCode`: the first code of the pool, which leaves the pool. An empty
        pool has no first element, which the source reports by throwing. */
    method GenerateGameCode() returns (code: Option<string>)
      modifies this
      ensures old(nextCodes) != [] ==> code == Some(DecimalText(old(nextCodes)[0])) && nextCodes == old(nextCodes)[1..]
      ensures old(nextCodes) == [] ==> code == None && nextCodes == old(nextCodes)
      ensures games == old(games) && clients == old(clients) && codeOf == old(codeOf)
    {
      if nextCodes == [] {
        code := None;
      } else {
        code := Some(DecimalText(nextCodes[0]));
        nextCodes := nextCodes[1..];
      }
    }

    /** What `disconnectClient` for `conn` leaves behind, from the registry `clients0`,
        `games0`, `codes0` and the network `outbox0`, `closed0` before it: the connection
        is forgotten and closed, nothing is written, and if its game still existed that
        game is deleted, its code goes back to the end of the pool and all its players'
        sockets are closed. */
    ghost predicate Disconnected(conn: Conn, clients0: map<Conn, string>, games0: map<string, GameSession>,
                                 codes0: seq<int>, outbox0: map<Conn, seq<Message>>, closed0: set<Conn>)
      reads this, net, games0.Values
    {
      && clients == clients0 - {conn} && net.outbox == outbox0
      && (conn in clients0 && clients0[conn] in games0 ==>
            var gameCode := clients0[conn];
            && games == games0 - {gameCode} && ParseInt(gameCode).Some?
            && nextCodes == codes0 + [ParseInt(gameCode).value]
            && net.closed == closed0 + Elements(games0[gameCode].players) + {conn})
      && (!(conn in clients0 && clients0[conn] in games0) ==>
            games == games0 && nextCodes == codes0 && net.closed == closed0 + {conn})
    }

    /** `disconnectClient`: forgets the connection's game code; if that game still exists
        it closes every player's socket, deletes the game and returns its code to the
        pool. The "opponent disconnected" note is written after the sockets are closed,
        so it never arrives. Finally the connection itself is closed. Other players keep
        their game code. */
    method DisconnectClient(conn: Conn)
      requires Valid()
      modifies this, net
      ensures Valid()
      ensures Disconnected(conn, old(clients), old(games), old(nextCodes), old(net.outbox), old(net.closed))
    {
      if conn in clients && clients[conn] in games {
        CloseGame(conn);
      } else {
        clients := clients - {conn};
        net.Close(conn);
      }
    }

    /** `disconnectClient` for a connection whose game still exists. */
    method CloseGame(conn: Conn)
      requires Valid() && conn in clients && clients[conn] in games
      modifies this, net
      ensures Valid()
      ensures clients == old(clients) - {conn}
      ensures net.outbox == old(net.outbox)
      ensures games == old(games) - {old(clients[conn])}
      ensures ParseInt(old(clients[conn])).Some?
      ensures nextCodes == old(nextCodes) + [ParseInt(old(clients[conn])).value]
      ensures net.closed == old(net.closed) + Elements(old(games)[old(clients[conn])].players) + {conn}
    {
      var gameCode := clients[conn];
      var session := games[gameCode];
      MembershipClose(clients, net.closed, games, conn, gameCode);
      SessionsOkRemove(games, gameCode);
      clients := clients - {conn};
      ReleaseCode(gameCode);
      ShutSession(session, conn);
    }

    /** The socket part of closing a game: `closeSession`, the failed notes to the other
        players, and the leaving connection's own `close`. */
    method ShutSession(session: GameSession, conn: Conn)
      modifies net
      ensures net.outbox == old(net.outbox)
      ensures net.closed == old(net.closed) + Elements(session.players) + {conn}
    {
      session.CloseSession(net);
      NotifyOpponents(session, conn);
      net.Close(conn);
    }

    /** The registry part of closing a game: the game is deleted and `toInt` of its key
        goes back to the end of the pool. */
    method ReleaseCode(gameCode: string)
      requires CodesValid() && gameCode in games
      modifies this
      ensures CodesValid()
      ensures games == old(games) - {gameCode} && clients == old(clients)
      ensures ParseInt(gameCode).Some? && nextCodes == old(nextCodes) + [ParseInt(gameCode).value]
    {
      ReturnCode(codeOf, nextCodes, gameCode);
      games := games - {gameCode};
      nextCodes := nextCodes + [ParseInt(gameCode).value];
      codeOf := codeOf - {gameCode};
    }

    /** The loop that tries to tell every other player of a closed session that their
        opponent left: the sockets are already closed, so every write fails. */
    method NotifyOpponents(session: GameSession, conn: Conn)
      requires Elements(session.players) <= net.closed
      modifies net
      ensures net.outbox == old(net.outbox) && net.closed == old(net.closed)
    {
      var i := 0;
      while i < |session.players|
        invariant 0 <= i <= |session.players|
        invariant net.outbox == old(net.outbox) && net.closed == old(net.closed)
      {
        var player := session.players[i];
        if player != conn {
          var ok := net.Send(player, OpponentDisconnectedMsg);
          net.Close(player);
        }
        i := i + 1;
      }
    }

    /** `createGame`: a new game under a fresh code whose only player is the creator, who
        is told the code. An empty pool ends the connection. */
    method CreateGame(conn: Conn)
      requires Valid() && conn !in net.closed
      modifies this, net
      ensures Valid()
      ensures old(nextCodes) == [] ==>
                Disconnected(conn, old(clients), old(games), old(nextCodes), old(net.outbox), old(net.closed))
      ensures old(nextCodes) != [] ==>
                var code := DecimalText(old(nextCodes)[0]);
                && code !in old(games) && |code| == 4 && AllDigits(code)
                && code in games && games == old(games)[code := games[code]]
                && fresh(games[code]) && games[code].players == [conn]
                && games[code].resultOrder == [] && games[code].results == map[]
                && clients == old(clients)[conn := code]
                && nextCodes == old(nextCodes)[1..]
                && net.outbox == Append(old(net.outbox), conn, GameCodeMsg(code))
                && net.closed == old(net.closed)
    {
      if nextCodes == [] {
        // `first()` throws on the empty pool
        DisconnectClient(conn);
      } else {
        var code := OpenGame(conn);
        var ok := net.Send(conn, GameCodeMsg(code));
      }
    }

    /** The registry part of `createGame`: takes the first code of the pool and files a
        new session with the creator under its text. */
    method OpenGame(conn: Conn) returns (code: string)
      requires Valid() && nextCodes != []
      modifies this
      ensures Valid()
      ensures code == DecimalText(old(nextCodes)[0])
      ensures code !in old(games) && |code| == 4 && AllDigits(code)
      ensures code in games && games == old(games)[code := games[code]]
      ensures fresh(games[code]) && games[code].players == [conn]
      ensures games[code].resultOrder == [] && games[code].results == map[]
      ensures clients == old(clients)[conn := code]
      ensures nextCodes == old(nextCodes)[1..]
    {
      ghost var n := nextCodes[0];
      TakeCode(codeOf, nextCodes);
      var gameCode := GenerateGameCode();
      code := gameCode.value;
      var session := NewSession(conn);
      FileGame(conn, code, session, n);
    }

    /** Files a session under the code just taken from the pool and records the creator's
        game code. */
    method FileGame(conn: Conn, code: string, session: GameSession, ghost n: int)
      requires PoolValid(nextCodes) && codeOf.Keys == games.Keys
      requires KeysFromCodes(codeOf[code := n], nextCodes) && code !in games
      requires SessionsOk(games) && Membership(clients, net.closed, games) && session !in games.Values
      requires session.Valid() && session.ResultsFromPlayers() && conn in session.players
      modifies this
      ensures Valid()
      ensures games == old(games)[code := session] && clients == old(clients)[conn := code]
      ensures nextCodes == old(nextCodes)
    {
      SessionsOkAdd(games, code, session);
      MembershipAdd(clients, net.closed, games, conn, code, session);
      games := games[code := session];
      clients := clients[conn := code];
      codeOf := codeOf[code := n];
    }

    /** The session part of `joinGame`: `addPlayer` on the game under `gameCode`. */
    method AdmitPlayer(conn: Conn, gameCode: string) returns (added: bool)
      requires Valid() && gameCode in games
      modifies games[gameCode]
      ensures Valid()
      ensures added <==> |old(games[gameCode].players)| < 2
      ensures games[gameCode].players == if added && conn !in old(games[gameCode].players)
                                         then old(games[gameCode].players) + [conn]
                                         else old(games[gameCode].players)
      ensures added ==> conn in games[gameCode].players
      ensures !added ==> unchanged(games[gameCode])
      ensures games[gameCode].resultOrder == old(games[gameCode].resultOrder)
      ensures games[gameCode].results == old(games[gameCode].results)
    {
      var session := games[gameCode];
      added := session.AddPlayer(conn);
      assert SessionsOk(games) by {
        forall k | k in games && games[k] != session
          ensures games[k].Valid() && games[k].ResultsFromPlayers()
        {
        }
      }
    }

    /** `joinGame`: a missing code and an unknown code or full game are answered with an
        error and change nothing; otherwise the player is added, told so, and once the
        game has two players both are sent the same secret code. A failed write of the
        secret ends the joining connection. No other session changes. */
    method JoinGame(conn: Conn, gameCode: Option<string>, picks: seq<string>)
      requires Valid() && conn !in net.closed && IsSecretDraw(picks)
      modifies this, net, games.Values
      ensures Valid()
      ensures gameCode.None? ==>
                && unchanged(this) && unchanged(old(games).Values) && net.closed == old(net.closed)
                && net.outbox == Append(old(net.outbox), conn, ErrorMsg(NULL_CODE_MESSAGE))
      ensures gameCode.Some? && (gameCode.value !in old(games) || |old(games[gameCode.value].players)| == 2) ==>
                && unchanged(this) && unchanged(old(games).Values) && net.closed == old(net.closed)
                && net.outbox == Append(old(net.outbox), conn, ErrorMsg(INVALID_CODE_MESSAGE))
      ensures gameCode.Some? && gameCode.value in old(games) && |old(games[gameCode.value].players)| < 2 ==>
                var session := old(games[gameCode.value]);
                && session.players == (if conn in old(session.players) then old(session.players)
                                       else old(session.players) + [conn])
                && session.resultOrder == old(session.resultOrder) && session.results == old(session.results)
                && (forall s :: s in old(games).Values && s != session ==> unchanged(s))
                && Entered(conn, gameCode.value, session, picks,
                           old(clients), old(games), old(nextCodes), old(net.outbox), old(net.closed))
    {
      if gameCode.None? {
        Refuse(conn, NULL_CODE_MESSAGE);
        return;
      }
      var code := gameCode.value;
      if code !in games || |games[code].players| == 2 {
        // `addPlayer` turns away a third player
        Refuse(conn, INVALID_CODE_MESSAGE);
        return;
      }
      Admit(conn, code, picks);
    }

    /** A join to an existing game with room: `addPlayer` succeeds and the rest of the
        join follows. */
    method Admit(conn: Conn, gameCode: string, picks: seq<string>)
      requires Valid() && conn !in net.closed && IsSecretDraw(picks)
      requires gameCode in games && |games[gameCode].players| < 2
      modifies this, net, games[gameCode]
      ensures Valid()
      ensures var session := old(games[gameCode]);
              && session.players == (if conn in old(session.players) then old(session.players)
                                     else old(session.players) + [conn])
              && session.resultOrder == old(session.resultOrder) && session.results == old(session.results)
              && Entered(conn, gameCode, session, picks,
                         old(clients), old(games), old(nextCodes), old(net.outbox), old(net.closed))
    {
      var added := AdmitPlayer(conn, gameCode);
      assert clients == old(clients) && games == old(games) && nextCodes == old(nextCodes);
      assert net.outbox == old(net.outbox) && net.closed == old(net.closed);
      Enter(conn, gameCode, picks);
    }

    /** An error reply to a join request. */
    method Refuse(conn: Conn, message: string)
      requires conn !in net.closed
      modifies net
      ensures net.closed == old(net.closed)
      ensures net.outbox == Append(old(net.outbox), conn, ErrorMsg(message))
    {
      var ok := net.Send(conn, ErrorMsg(message));
    }

    /** What a successful join of `conn` to the game under `gameCode` leaves behind, once
        `session` holds the player, from the registry `clients0`, `games0`, `codes0` and
        the network `outbox0`, `closed0` before the join: the player's code is recorded
        and `joined` is written; a game that now has two players is started, sending both
        the same secret, and a failed write of the secret ends the joining connection and
        with it the game. */
    ghost predicate Entered(conn: Conn, gameCode: string, session: GameSession, picks: seq<string>,
                            clients0: map<Conn, string>, games0: map<string, GameSession>, codes0: seq<int>,
                            outbox0: map<Conn, seq<Message>>, closed0: set<Conn>)
      requires IsSecretDraw(picks)
      reads this, net, session
    {
      var joined := Append(outbox0, conn, JoinedMsg);
      var secret := Letters(session.players, SecretCodeMsg(Join(picks, SPACE)));
      && (|session.players| < 2 ==>
            && clients == clients0[conn := gameCode] && games == games0 && nextCodes == codes0
            && net.outbox == joined && net.closed == closed0)
      && (|session.players| == 2 && Deliver(joined, closed0, secret).1 ==>
            && clients == clients0[conn := gameCode] && games == games0 && nextCodes == codes0
            && net.outbox == Deliver(joined, closed0, secret).0 && net.closed == closed0)
      && (|session.players| == 2 && !Deliver(joined, closed0, secret).1 ==>
            && clients == clients0[conn := gameCode] - {conn} && games == games0 - {gameCode}
            && ParseInt(gameCode).Some? && nextCodes == codes0 + [ParseInt(gameCode).value]
            && net.outbox == Deliver(joined, closed0, secret).0
            && net.closed == closed0 + Elements(session.players) + {conn})
    }

    /** The rest of a successful `joinGame`: the player's game code is recorded, the
        player is told, and a game that now has two players is started. */
    method Enter(conn: Conn, gameCode: string, picks: seq<string>)
      requires Valid() && conn !in net.closed && IsSecretDraw(picks)
      requires gameCode in games && conn in games[gameCode].players
      modifies this, net
      ensures Valid()
      ensures Entered(conn, gameCode, old(games[gameCode]), picks,
                      old(clients), old(games), old(nextCodes), old(net.outbox), old(net.closed))
    {
      var session := games[gameCode];
      MembershipJoin(clients, net.closed, games, conn, gameCode);
      clients := clients[conn := gameCode];
      var ok := net.Send(conn, JoinedMsg);
      if session.IsReadyToStart() {
        Begin(conn, gameCode, picks);
      }
    }

    /** `startGame` for a game that just got its second player. */
    method Begin(conn: Conn, gameCode: string, picks: seq<string>)
      requires Valid() && IsSecretDraw(picks)
      requires conn in clients && clients[conn] == gameCode && gameCode in games
      modifies this, net
      ensures Valid()
      ensures var secret := Letters(old(games[gameCode].players), SecretCodeMsg(Join(picks, SPACE)));
              var delivered := Deliver(old(net.outbox), old(net.closed), secret);
              && (delivered.1 ==> unchanged(this) && net.outbox == delivered.0 && net.closed == old(net.closed))
              && (!delivered.1 ==>
                    && clients == old(clients) - {conn} && games == old(games) - {gameCode}
                    && ParseInt(gameCode).Some? && nextCodes == old(nextCodes) + [ParseInt(gameCode).value]
                    && net.outbox == delivered.0
                    && net.closed == old(net.closed) + Elements(old(games[gameCode].players)) + {conn})
    {
      var session := games[gameCode];
      var ok := session.StartGame(net, picks);
      if !ok {
        // the write to a closed player throws and the handler disconnects
        DisconnectClient(conn);
      }
    }

    /** The session part of `submitResult`, for a connection whose game exists. */
    method RecordResult(conn: Conn, gameCode: string, result: GameResult)
      requires Valid() && gameCode in games && conn in games[gameCode].players
      modifies games[gameCode]
      ensures Valid()
      ensures games[gameCode].results == old(games[gameCode].results)[conn := result]
      ensures games[gameCode].resultOrder == if conn in old(games[gameCode].resultOrder)
                                             then old(games[gameCode].resultOrder)
                                             else old(games[gameCode].resultOrder) + [conn]
      ensures games[gameCode].players == old(games[gameCode].players)
    {
      var session := games[gameCode];
      session.SubmitResult(conn, result);
      assert SessionsOk(games) by {
        forall k | k in games && games[k] != session
          ensures games[k].Valid() && games[k].ResultsFromPlayers()
        {
        }
      }
    }

    /** What finishing the complete game `session` under `gameCode` leaves behind, from
        the registry `clients0`, `games0`, `codes0` and the network `outbox0`, `closed0`
        before it: the game has two players and both their sockets end closed. If both
        result messages were written, both players are disconnected, the game is gone
        and, if both still had its code, exactly it was deleted and its code is back in
        the pool. If a write failed, the submitting connection is disconnected, which
        deletes the game and returns its code all the same. */
    ghost predicate Finished(conn: Conn, gameCode: string, session: GameSession,
                             clients0: map<Conn, string>, games0: map<string, GameSession>, codes0: seq<int>,
                             outbox0: map<Conn, seq<Message>>, closed0: set<Conn>)
      requires session.Valid() && session.IsComplete()
      reads this, net, session
    {
      var delivered := Deliver(outbox0, closed0, session.ResultLetters());
      && |session.players| == 2
      && session.players[0] in net.closed && session.players[1] in net.closed
      && (delivered.1 ==>
            && net.outbox == delivered.0
            && clients == clients0 - {session.players[0], session.players[1]}
            && gameCode !in games
            && (&& session.players[0] in clients0 && clients0[session.players[0]] == gameCode
                && session.players[1] in clients0 && clients0[session.players[1]] == gameCode ==>
                  && games == games0 - {gameCode} && ParseInt(gameCode).Some?
                  && nextCodes == codes0 + [ParseInt(gameCode).value]))
      && (!delivered.1 ==>
            && conn in net.closed && clients == clients0 - {conn}
            && games == games0 - {gameCode} && ParseInt(gameCode).Some?
            && nextCodes == codes0 + [ParseInt(gameCode).value])
    }

    /** The end of `submitResult` once both results are in: both players are sent the
        outcome, then both are disconnected. A failed write ends the submitting
        connection instead. */
    method FinishGame(conn: Conn, session: GameSession, ghost gameCode: string)
      requires Valid() && session.Valid() && session.ResultsFromPlayers() && session.IsComplete()
      requires conn in session.players && gameCode in games && games[gameCode] == session
      requires conn in clients && clients[conn] == gameCode
      modifies this, net
      ensures Valid()
      ensures Finished(conn, gameCode, session, old(clients), old(games), old(nextCodes), old(net.outbox), old(net.closed))
    {
      CompleteSession(session);
      assert conn in {session.players[0], session.players[1]};
      var ok := session.NotifyPlayers(net);
      CloseAfterResults(ok, conn, session.players[0], session.players[1], gameCode);
    }

    /** After the result messages: both players are disconnected when both were written,
        otherwise the handler's `finally` disconnects the submitting connection. */
    method CloseAfterResults(ok: bool, conn: Conn, first: Conn, second: Conn, ghost gameCode: string)
      requires Valid()
      modifies this, net
      ensures Valid()
      ensures net.outbox == old(net.outbox)
      ensures ok ==> first in net.closed && second in net.closed && clients == old(clients) - {first, second}
      ensures !ok ==> conn in net.closed && clients == old(clients) - {conn}
      ensures !ok && conn in old(clients) && old(clients[conn]) == gameCode && gameCode in old(games) ==>
                && games == old(games) - {gameCode} && ParseInt(gameCode).Some?
                && nextCodes == old(nextCodes) + [ParseInt(gameCode).value]
                && Elements(old(games)[gameCode].players) <= net.closed
      ensures ok && first in old(clients) && second in old(clients) && old(clients[first]) == gameCode
              && old(clients[second]) == gameCode && gameCode in old(games) ==>
                && games == old(games) - {gameCode} && ParseInt(gameCode).Some?
                && nextCodes == old(nextCodes) + [ParseInt(gameCode).value]
      ensures ok && conn in {first, second} && conn in old(clients) && old(clients[conn]) == gameCode ==>
                gameCode !in games
    {
      if ok {
        DisconnectBoth(first, second, gameCode);
      } else {
        DisconnectClient(conn);
      }
    }

    /** `disconnectClient` for both players of a finished game, in order. */
    method DisconnectBoth(first: Conn, second: Conn, ghost gameCode: string)
      requires Valid()
      modifies this, net
      ensures Valid()
      ensures first in net.closed && second in net.closed
      ensures clients == old(clients) - {first, second} && net.outbox == old(net.outbox)
      ensures first in old(clients) && second in old(clients) && old(clients[first]) == gameCode
              && old(clients[second]) == gameCode && gameCode in old(games) ==>
                && games == old(games) - {gameCode} && ParseInt(gameCode).Some?
                && nextCodes == old(nextCodes) + [ParseInt(gameCode).value]
      ensures (first in old(clients) && old(clients[first]) == gameCode)
              || (second in old(clients) && old(clients[second]) == gameCode) ==>
                gameCode !in games
    {
      ghost var pending := first in clients && second in clients && clients[first] == gameCode
                           && clients[second] == gameCode && gameCode in games;
      ghost var secondHolds := second != first && second in clients && clients[second] == gameCode;
      ghost var clients0 := clients;
      DisconnectClient(first);
      assert pending ==> gameCode !in games && (second != first ==> clients[second] == gameCode);
      assert secondHolds ==> second in clients && clients[second] == gameCode;
      DisconnectClient(second);
      assert clients == clients0 - {first} - {second};
      assert clients0 - {first} - {second} == clients0 - {first, second};
    }

    /** `submitResult`: a connection without a game is ignored; a result that is not a
        `GameResult` ends the connection; otherwise the result is filed, replacing an
        earlier one from the same player, and a second result finishes the game. */
    method SubmitResult(conn: Conn, result: Option<GameResult>)
      requires Valid() && conn !in net.closed
      modifies this, net, games.Values
      ensures Valid()
      ensures conn !in old(clients) ==> unchanged(this, net) && unchanged(old(games).Values)
      ensures conn in old(clients) && result.None? ==>
                conn in net.closed && clients == old(clients) - {conn} && unchanged(old(games).Values)
      ensures conn in old(clients) && result.Some? ==> Submitted(conn, old(clients[conn]), old(games[clients[conn]]), result.value)
      ensures conn in old(clients) && result.Some? ==>
                forall s :: s in old(games.Values) && s != old(games[clients[conn]]) ==> unchanged(s)
    {
      if conn !in clients {
        return;
      }
      if result.None? {
        // the cast of the result fails and the handler disconnects
        DisconnectClient(conn);
        return;
      }
      Submit(conn, clients[conn], result.value);
    }

    /** What a result from a player of the game under `gameCode` leaves behind: the
        result is filed; a game still waiting for a result changes nothing else, and a
        complete game is finished. */
    twostate predicate Submitted(conn: Conn, gameCode: string, session: GameSession, result: GameResult)
      reads this, net, session
    {
      && session.Valid() && session.players == old(session.players)
      && session.results == old(session.results)[conn := result]
      && session.resultOrder == (if conn in old(session.resultOrder) then old(session.resultOrder)
                                 else old(session.resultOrder) + [conn])
      && (!session.IsComplete() ==> unchanged(this, net))
      && (session.IsComplete() ==>
            Finished(conn, gameCode, session, old(clients), old(games), old(nextCodes), old(net.outbox), old(net.closed)))
    }

    /** `submitResult` for a connection whose game code is `gameCode`. */
    method Submit(conn: Conn, gameCode: string, result: GameResult)
      requires Valid() && conn !in net.closed && conn in clients && clients[conn] == gameCode
      modifies this, net, games.Values
      ensures Valid()
      ensures Submitted(conn, gameCode, old(games[gameCode]), result)
      ensures forall s :: s in old(games.Values) && s != old(games[gameCode]) ==> unchanged(s)
    {
      var session := games[gameCode];
      RecordResult(conn, gameCode, result);
      Conclude(conn, session, gameCode);
    }

    /** After a result is filed: a complete game is finished, an incomplete one is left
        as it is. */
    method Conclude(conn: Conn, session: GameSession, ghost gameCode: string)
      requires Valid() && session.Valid() && session.ResultsFromPlayers()
      requires conn in session.players && gameCode in games && games[gameCode] == session
      requires conn in clients && clients[conn] == gameCode
      modifies this, net
      ensures Valid()
      ensures !session.IsComplete() ==> unchanged(this, net)
      ensures session.IsComplete() ==>
                Finished(conn, gameCode, session, old(clients), old(games), old(nextCodes), old(net.outbox), old(net.closed))
    {
      if session.IsComplete() {
        FinishGame(conn, session, gameCode);
      }
    }

    /** One turn of the connection's handler loop: the request is read and handled under
        the server lock. A closed connection, the end of the stream, a request that is
        not a map and any other action all end in `disconnectClient`. */
    method Dispatch(conn: Conn, request: Request, picks: seq<string>)
      requires Valid() && IsSecretDraw(picks)
      modifies this, net, games.Values
      ensures Valid()
      ensures conn in old(net.closed) || request.Hangup? || request.UnknownAction? ==>
                && conn in net.closed && clients == old(clients) - {conn} && net.outbox == old(net.outbox)
                && unchanged(old(games).Values)
      ensures conn !in old(net.closed) && request.CreateGame? && old(nextCodes) != [] ==>
                var code := DecimalText(old(nextCodes)[0]);
                && code !in old(games) && code in games && games[code].players == [conn]
                && clients == old(clients)[conn := code] && nextCodes == old(nextCodes)[1..]
                && net.outbox == Append(old(net.outbox), conn, GameCodeMsg(code))
                && unchanged(old(games).Values)
      ensures conn !in old(net.closed) && request.JoinGame? && request.gameCode.None? ==>
                && unchanged(this) && unchanged(old(games).Values) && net.closed == old(net.closed)
                && net.outbox == Append(old(net.outbox), conn, ErrorMsg(NULL_CODE_MESSAGE))
      ensures conn !in old(net.closed) && request.SubmitResult? && conn !in old(clients) ==>
                unchanged(this, net) && unchanged(old(games).Values)
    {
      if conn in net.closed {
        // reading from a closed socket throws and the handler disconnects
        DisconnectClient(conn);
        return;
      }
      match request
      case CreateGame => CreateGame(conn);
      case JoinGame(gameCode) => JoinGame(conn, gameCode, picks);
      case SubmitResult(result) => SubmitResult(conn, result);
      case UnknownAction => DisconnectClient(conn);
      case Hangup => DisconnectClient(conn);
    }
  }

  /** A fresh server on which a has created a game. */
  method CreateStep(pool: seq<int>, a: Conn) returns (server: GameServer, code: string, session: GameSession)
    requires IsCodePool(pool)
    ensures fresh(server) && fresh(server.net) && fresh(session)
    ensures server.Valid()
    ensures |pool| > 0 && IsCode(pool[0]) && code == DecimalText(pool[0])
    ensures server.games == map[code := session] && server.clients == map[a := code]
    ensures server.nextCodes == pool[1..] && server.net.closed == {}
    ensures session.players == [a] && session.resultOrder == [] && session.results == map[]
    ensures server.net.outbox == map[a := [GameCodeMsg(code)]]
  {
    server := new GameServer(pool);
    assert FIRST_CODE in pool;
    assert pool[0] in pool;
    assert Inbox(server.net.outbox, a) == [];
    server.CreateGame(a);
    code := DecimalText(pool[0]);
    session := server.games[code];
    assert [] + [GameCodeMsg(code)] == [GameCodeMsg(code)];
  }

  /** b joins a's game with its code; both are sent the secret. */
  method JoinStep(server: GameServer, code: string, session: GameSession, a: Conn, b: Conn, picks: seq<string>)
    requires server.Valid() && IsSecretDraw(picks) && a != b
    requires server.games == map[code := session]
    requires server.net.closed == {} && server.net.outbox == map[a := [GameCodeMsg(code)]]
    requires session.players == [a]
    modifies server, server.net, session
    ensures Inbox(server.net.outbox, a) == [GameCodeMsg(code), SecretCodeMsg(Join(picks, SPACE))]
    ensures Inbox(server.net.outbox, b) == [JoinedMsg, SecretCodeMsg(Join(picks, SPACE))]
  {
    var secret := SecretCodeMsg(Join(picks, SPACE));
    ghost var joined := Append(server.net.outbox, b, JoinedMsg);
    assert Inbox(joined, a) == [GameCodeMsg(code)] && Inbox(joined, b) == [JoinedMsg];
    BroadcastToOpen(joined, {}, [a, b], secret);
    assert code in server.games && server.games[code] == session;
    assert |session.players| < 2 && b !in session.players && [a] + [b] == [a, b];
    server.JoinGame(b, Some(code), picks);
    assert session.players == [a, b];
    assert server.net.outbox == Deliver(joined, {}, Letters([a, b], secret)).0;
  }

  /** A match opened on a fresh server: a creates a game and is told its code, which is
      the first code of the pool; b joins with that code and is told so; then both are
      sent the same secret. */
  method OpenMatchScenario(pool: seq<int>, picks: seq<string>, a: Conn, b: Conn)
    returns (code: string, inboxA: seq<Message>, inboxB: seq<Message>)
    requires IsCodePool(pool) && IsSecretDraw(picks) && a != b
    ensures |pool| > 0 && code == DecimalText(pool[0])
    ensures inboxA == [GameCodeMsg(code), SecretCodeMsg(Join(picks, SPACE))]
    ensures inboxB == [JoinedMsg, SecretCodeMsg(Join(picks, SPACE))]
  {
    var server, session;
    server, code, session := CreateStep(pool, a);
    JoinStep(server, code, session, a, b, picks);
    inboxA, inboxB := Inbox(server.net.outbox, a), Inbox(server.net.outbox, b);
  }
}

/** The string logic of src/game/online_lobby.rs: the server links, the
    game id taken from a pasted invitation link, the guard and the reply
    handling of the game-info lookup, and the key filter of the lobby's
    event stream. The network calls themselves are not modelled: the reply
    of the lookup is a parameter. */
module OnlineLobby {
  import opened Crossterm
  import opened Wrappers

  /** The server's HTTP and websocket roots. */
  const HLINK: string := "https://othellojs.onrender.com"
  const WLINK: string := "wss://othellojs.onrender.com"

  /** api_link!(post). */
  function ApiLink(post: string): (url: string)
    ensures |url| == |HLINK| + |post|
    ensures url[..|HLINK|] == HLINK && url[|HLINK|..] == post
  {
    HLINK + post
  }

  /** Different paths give different links. */
  lemma ApiLinkInjective(p: string, q: string)
    requires ApiLink(p) == ApiLink(q)
    ensures p == q
  {
    assert p == ApiLink(p)[|HLINK|..];
  }

  /** api_link!(pre, post): the websocket root for "w", the HTTP root for
      any other prefix; the link ends with the path. */
  function ApiLinkPre(pre: string, post: string): (url: string)
    ensures |url| >= |post| && url[|url| - |post|..] == post
    ensures |url| >= |WLINK| && (url[..|WLINK|] == WLINK <==> pre == "w")
    ensures pre != "w" ==> url == ApiLink(post)
  {
    if pre == "w" then WLINK + post
    else
      // The two roots differ in their first letter.
      assert (HLINK + post)[..|WLINK|][0] == 'h' != WLINK[0];
      HLINK + post
  }

  /** The invitation link copied to the clipboard for a game. */
  function JoinLink(id: string): string {
    ApiLink("/join-game/" + id)
  }

  /** The websocket used to join a game's lobby. */
  function SocketLink(id: string): string {
    ApiLinkPre("w", "/api/join-game/" + id)
  }

  /** The lookup of a game's lobby. */
  function InfoLink(id: string): string {
    ApiLink("/api/game-info/" + id)
  }

  /** Each link starts at its server root and ends with the game id. */
  lemma LinksOfId(id: string)
    ensures JoinLink(id)[..|HLINK|] == HLINK && InfoLink(id)[..|HLINK|] == HLINK
    ensures SocketLink(id)[..|WLINK|] == WLINK
    ensures JoinLink(id)[|JoinLink(id)| - |id|..] == id && InfoLink(id)[|InfoLink(id)| - |id|..] == id
    ensures SocketLink(id)[|SocketLink(id)| - |id|..] == id
  {
  }

  // ---------------------------------------------------------------------------
  // extract_game_id

  /** str::trim_end_matches("/"): every trailing '/' removed. */
  function TrimEnd(s: string): (t: string)
    ensures |t| <= |s| && t == s[..|t|]
    ensures |t| == 0 || t[|t| - 1] != '/'
    ensures forall i :: |t| <= i < |s| ==> s[i] == '/'
  {
    if |s| > 0 && s[|s| - 1] == '/' then TrimEnd(s[..|s| - 1]) else s
  }

  /** str::split("/"), collected: the pieces between the slashes, with an
      empty piece for each slash at an end or next to another. */
  function Split(s: string): (parts: seq<string>)
    ensures |parts| >= 1
  {
    if |s| == 0 then [""]
    else
      var init := Split(s[..|s| - 1]);
      if s[|s| - 1] == '/' then init + [""]
      else init[..|init| - 1] + [init[|init| - 1] + [s[|s| - 1]]]
  }

  /** The pieces put back together with '/' between them. */
  function Join(parts: seq<string>): string
    requires |parts| >= 1
  {
    if |parts| == 1 then parts[0] else Join(parts[..|parts| - 1]) + "/" + parts[|parts| - 1]
  }

  /** No piece holds a '/'. */
  lemma {:induction false} SplitPieces(s: string)
    ensures forall k :: 0 <= k < |Split(s)| ==> '/' !in Split(s)[k]
  {
    if |s| > 0 {
      SplitPieces(s[..|s| - 1]);
    }
  }

  /** Joining the pieces gives the string back. */
  lemma {:induction false} SplitJoin(s: string)
    ensures Join(Split(s)) == s
  {
    if |s| > 0 {
      var p, c := s[..|s| - 1], s[|s| - 1];
      assert p + [c] == s;
      SplitJoin(p);
      SplitJoinStep(p, c);
    }
  }

  lemma SplitJoinStep(p: string, c: char)
    requires Join(Split(p)) == p
    ensures Join(Split(p + [c])) == p + [c]
  {
    var init := Split(p);
    assert (p + [c])[..|p|] == p;
    if c == '/' {
      assert Split(p + [c]) == init + [""];
      JoinEmptyLast(init);
    } else {
      assert Split(p + [c]) == init[..|init| - 1] + [init[|init| - 1] + [c]];
      JoinLast(init, c);
    }
  }

  /** An empty last piece adds a '/'. */
  lemma JoinEmptyLast(parts: seq<string>)
    requires |parts| >= 1
    ensures Join(parts + [""]) == Join(parts) + "/"
  {
    assert (parts + [""])[..|parts|] == parts;
  }

  /** Extending the last piece extends the joined string. */
  lemma JoinLast(parts: seq<string>, c: char)
    requires |parts| >= 1
    ensures Join(parts[..|parts| - 1] + [parts[|parts| - 1] + [c]]) == Join(parts) + [c]
  {
    var n := |parts|;
    var last := parts[n - 1];
    var q := parts[..n - 1] + [last + [c]];
    if n == 1 {
      assert q == [last + [c]];
    } else {
      var front := Join(parts[..n - 1]) + "/";
      assert q[..n - 1] == parts[..n - 1];
      assert Join(q) == front + (last + [c]);
      assert Join(parts) == front + last;
      assert front + (last + [c]) == (front + last) + [c];
    }
  }

  /** The last piece of a split is the longest slash-free end of the
      string: before it comes nothing or a '/'. */
  lemma {:induction false} LastOfSplit(s: string)
    ensures var last := Split(s)[|Split(s)| - 1];
      |last| <= |s| && last == s[|s| - |last|..] && '/' !in last
      && (|last| < |s| ==> s[|s| - |last| - 1] == '/')
  {
    if |s| > 0 {
      LastOfSplit(s[..|s| - 1]);
      var init := Split(s[..|s| - 1]);
      var c := s[|s| - 1];
      if c != '/' {
        var last := init[|init| - 1];
        assert Split(s)[|Split(s)| - 1] == last + [c];
        assert s == s[..|s| - 1] + [c];
      }
    }
  }

  /** The game id of a link: after all trailing '/' are stripped, the text
      after the last '/' (the whole text when there is none). The Vec's
      last element always exists. */
  function GameIdOf(link: string): (id: string)
    ensures '/' !in id
    ensures var t := TrimEnd(link);
      |id| <= |t| && id == t[|t| - |id|..] && (|id| < |t| ==> t[|t| - |id| - 1] == '/')
  {
    LastOfSplit(TrimEnd(link));
    var parts := Split(TrimEnd(link));
    parts[|parts| - 1]
  }

  /** The characterisation above has one solution: a slash-free end of t
      that is either all of t or comes right after a '/'. */
  lemma SlashFreeEndUnique(t: string, a: string, b: string)
    requires '/' !in a && |a| <= |t| && a == t[|t| - |a|..] && (|a| < |t| ==> t[|t| - |a| - 1] == '/')
    requires '/' !in b && |b| <= |t| && b == t[|t| - |b|..] && (|b| < |t| ==> t[|t| - |b| - 1] == '/')
    ensures a == b
  {
  }

  /** A link without any '/' is the id itself. */
  lemma NoSlashKeptWhole(link: string)
    requires '/' !in link
    ensures GameIdOf(link) == link
  {
    assert TrimEnd(link) == link;
    SlashFreeEndUnique(link, GameIdOf(link), link);
  }

  /** An empty link, or one made only of '/', gives the empty id. */
  lemma AllSlashesEmpty(link: string)
    requires forall i :: 0 <= i < |link| ==> link[i] == '/'
    ensures GameIdOf(link) == ""
  {
    assert |TrimEnd(link)| == 0;
  }

  /** The link the game's creator shares, with any number of trailing
      slashes, gives back the game's id. */
  lemma JoinLinkRoundTrip(id: string, slashes: nat)
    requires |id| > 0 && '/' !in id
    ensures GameIdOf(JoinLink(id) + seq(slashes, _ => '/')) == id
  {
    var link := JoinLink(id) + seq(slashes, _ => '/');
    var t := JoinLink(id);
    TrimSlashes(t, slashes);
    assert t[|t| - |id|..] == id;
    assert t[|t| - |id| - 1] == '/';
    SlashFreeEndUnique(t, GameIdOf(link), id);
  }

  lemma {:induction false} TrimSlashes(t: string, slashes: nat)
    requires |t| > 0 && t[|t| - 1] != '/'
    ensures TrimEnd(t + seq(slashes, _ => '/')) == t
  {
    if slashes > 0 {
      var s := t + seq(slashes, _ => '/');
      assert s[..|s| - 1] == t + seq(slashes - 1, _ => '/');
      TrimSlashes(t, slashes - 1);
    } else {
      assert t + seq(0, _ => '/') == t;
    }
  }

  /** Extracting again from a stored id changes nothing. */
  lemma ExtractIdempotent(link: string)
    ensures GameIdOf(GameIdOf(link)) == GameIdOf(link)
  {
    NoSlashKeptWhole(GameIdOf(link));
  }

  // ---------------------------------------------------------------------------
  // to_keycode

  /** Online::to_keycode: the code of a key event read without error. */
  function ToKeycode(e: Option<Result<Event, string>>): (k: Option<KeyCode>)
    ensures k.Some? <==> e.Some? && e.value.Ok? && e.value.value.Key?
    ensures k.Some? ==> k.value == e.value.value.key.code
  {
    match e
    case Some(Ok(Key(ke))) => Some(ke.code)
    case _ => None
  }

  // ---------------------------------------------------------------------------
  // The player's online state

  /** The decoded reply of the game-info request, or how getting it
      failed. */
  datatype Reply =
    | SendFailed(reason: string)
    | Undecodable(reason: string)
    | Info(lobbyName: Option<string>, isLobbyFull: Option<bool>, err: bool, msg: string)

  /** The fields is_game_exist unwraps are present where it unwraps them. */
  predicate Unwrappable(reply: Reply) {
    reply.Info? && !reply.err ==>
      reply.isLobbyFull.Some? && (!reply.isLobbyFull.value ==> reply.lobbyName.Some?)
  }

  /** The answer is_game_exist gives for a reply. */
  function Lookup(reply: Reply): Result<bool, string>
    requires Unwrappable(reply)
  {
    match reply
    case SendFailed(reason) => Err(reason)
    case Undecodable(reason) => Err(reason)
    case Info(_, full, err, msg) =>
      if err then Err(msg) else if full.value then Err("lobby full!") else Ok(true)
  }

  /** Ok only for a reply without error and with room in the lobby; the
      answer is never Ok(false). */
  lemma LookupOk(reply: Reply)
    requires Unwrappable(reply)
    ensures Lookup(reply).Ok? <==> reply.Info? && !reply.err && !reply.isLobbyFull.value
    ensures Lookup(reply) != Ok(false)
  {
  }

  /** The player's online state: name, side, ids, and the lobby's name as
      the server reported it. */
  class Online {
    var playerName: string
    var side: char
    var playerId: string
    var gameId: string
    var lobbyName: string

    /** Online::new (with Lobby::new's empty name). */
    constructor ()
      ensures playerName == "" && side == '\0' && playerId == "" && gameId == "" && lobbyName == ""
    {
      playerName, side, playerId, gameId, lobbyName := "", '\0', "", "", "";
    }

    /** Online::extract_game_id. */
    method ExtractGameId(link: string)
      modifies this
      ensures gameId == GameIdOf(link)
      ensures playerName == old(playerName) && side == old(side) && playerId == old(playerId)
      ensures lobbyName == old(lobbyName)
    {
      var parts := Split(TrimEnd(link));
      gameId := parts[|parts| - 1];
    }

    /** Online::is_game_exist, with the server's reply passed in: the link
      it would request (none when the id is empty) and its answer; the
      lobby's name is kept when the game can be joined. */
    method IsGameExist(reply: Reply) returns (r: Result<bool, string>, requested: Option<string>)
      requires Unwrappable(reply)
      modifies this
      ensures gameId == "" ==> r == Err("invalid link.") && requested == None && lobbyName == old(lobbyName)
      ensures gameId != "" ==> r == Lookup(reply) && requested == Some(InfoLink(gameId))
      ensures gameId != "" && r.Ok? ==> lobbyName == reply.lobbyName.value
      ensures gameId != "" && r.Err? ==> lobbyName == old(lobbyName)
      ensures gameId == old(gameId) && playerName == old(playerName) && side == old(side)
      ensures playerId == old(playerId)
    {
      if gameId == "" {
        return Err("invalid link."), None;
      }
      requested := Some(InfoLink(gameId));
      match reply {
        case SendFailed(reason) =>
          return Err(reason), requested;
        case Undecodable(reason) =>
          return Err(reason), requested;
        case Info(name, full, err, msg) =>
          if err {
            return Err(msg), requested;
          } else if full.value {
            return Err("lobby full!"), requested;
          } else {
            lobbyName := name.value;
            return Ok(true), requested;
          }
      }
    }
  }
}

/** What the book compiler reads from a game (create_polyglot.py, `LichessGame`):
    its PGN headers and, for every ply of the main line, the Zobrist key of the
    position before the move, the move and the side to move. Replaying the board
    and hashing it are done by python-chess and arrive here as given values. */
module Games {
  import opened Bytes
  import opened Moves

  datatype Ply = Ply(key: u64, move: Move, turn: Color)

  datatype Game = Game(headers: map<string, string>, plies: seq<Ply>)

  /** `game.headers.get(name, default)`. */
  function HeaderGet(headers: map<string, string>, name: string, default: string): (v: string)
    ensures name !in headers ==> v == default
  {
    if name in headers then headers[name] else default
  }

  /** `LichessGame.result`: the Result header, "*" when it is missing. */
  function GameResult(g: Game): (r: string)
    ensures "Result" in g.headers ==> r == g.headers["Result"]
    ensures "Result" !in g.headers ==> r == "*"
  {
    HeaderGet(g.headers, "Result", "*")
  }

  /** `LichessGame.score`: what one ply of a game with this result earns for the side
      to move: 2 when that side won, 1 on a draw, 0 otherwise. */
  function Score(result: string, turn: Color): (s: nat)
  {
    if result == "1-0" then (if turn == White then 2 else 0)
    else if result == "0-1" then (if turn == Black then 2 else 0)
    else if result == "1/2-1/2" then 1
    else 0
  }

  /** The winner of a game is the side whose plies score 2; a draw gives every ply 1;
      a lost side, an unfinished game ("*") or a missing header give 0. */
  lemma ScoreCases(result: string, turn: Color)
    ensures Score(result, turn) <= 2
    ensures Score(result, turn) == 2 <==> (result == "1-0" && turn == White) || (result == "0-1" && turn == Black)
    ensures Score(result, turn) == 1 <==> result == "1/2-1/2"
    ensures Score(result, turn) == 0 <==>
              !(result == "1-0" && turn == White) && !(result == "0-1" && turn == Black) && result != "1/2-1/2"
  {
  }

  /** `str.lower()` on ASCII letters; every other character is left as it is. */
  function Lower(s: string): (r: string)
    ensures |r| == |s|
  {
    if s == [] then ""
    else [if 'A' <= s[0] <= 'Z' then (s[0] as int + 32) as char else s[0]] + Lower(s[1..])
  }

  /** `game.headers.get("Variant", "").lower() == variant`. */
  predicate IsVariant(g: Game, variant: string)
  {
    Lower(HeaderGet(g.headers, "Variant", "")) == variant
  }

  /** The plies a book takes from a game: at most the first `limit`. */
  function OpeningPlies(g: Game, limit: nat): (ps: seq<Ply>)
    ensures |ps| <= limit && |ps| <= |g.plies| && ps == g.plies[..|ps|]
    ensures |ps| == |g.plies| || |ps| == limit
  {
    if |g.plies| <= limit then g.plies else g.plies[..limit]
  }
}

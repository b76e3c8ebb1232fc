/** `build_polyglot_book` of filter_and_build.py: the accumulation loop of the book
    compiler for Three-Check games, with the scoring rule written inline and the
    ply counted by `enumerate`, over the same `Book`. */
module ThreeCheckBuild {
  import opened Wrappers
  import opened Bytes
  import opened Hex
  import opened Moves
  import opened Dicts
  import opened Games
  import opened BookTable
  import opened BookRecords
  import opened Polyglot

  /** The only variant whose games this script reads. */
  const ThreeCheck: string := "three-check"

  /** The weight one ply adds (filter_and_build.py:45-50), written out in the loop
      instead of calling `LichessGame.score`; it is the same rule. */
  method InlineScore(result: string, turn: Color) returns (gain: nat)
    ensures gain == Score(result, turn)
  {
    gain := 0;
    if result == "1-0" {
      gain := if turn == White then 2 else 0;
    } else if result == "0-1" {
      gain := if turn == Black then 2 else 0;
    } else if result == "1/2-1/2" {
      gain := 1;
    }
  }

  /** The body of the ply loop (filter_and_build.py:40-51): the ply's move is
      credited with the score its side earns. */
  method CreditPly(book: Book, ghost start: Table, plies: seq<Ply>, ply: nat, result: string)
    requires book.Valid() && ply < |plies|
    requires book.Contents == AddPlies(start, plies[..ply], result)
    modifies book.Repr
    ensures book.Valid() && fresh(book.Repr - old(book.Repr))
    ensures book.Contents == AddPlies(start, plies[..ply + 1], result)
  {
    var p := plies[ply];
    var gain := InlineScore(result, p.turn);
    AddPliesStep(start, plies, ply, result);
    book.Accumulate(FormatZobristKeyHex(p.key), p.move, gain);
  }

  /** The ply loop of `build_polyglot_book` (filter_and_build.py:37-51): each of the
      first `MAX_BOOK_PLIES` plies credits its move with the score of `result` for the
      side that played it; the loop stops at the limit. */
  method CreditOpening(book: Book, plies: seq<Ply>, result: string)
    requires book.Valid()
    modifies book.Repr
    ensures book.Valid() && fresh(book.Repr - old(book.Repr))
    ensures book.Contents == AddPlies(old(book.Contents), plies[..if |plies| <= MaxBookPlies then |plies| else MaxBookPlies], result)
  {
    ghost var start := book.Contents;
    var ply := 0;
    while ply < |plies|
      invariant 0 <= ply <= |plies| && ply <= MaxBookPlies
      invariant book.Valid()
      invariant fresh(book.Repr - old(book.Repr))
      invariant book.Contents == AddPlies(start, plies[..ply], result)
    {
      if ply >= MaxBookPlies {
        break;
      }
      CreditPly(book, start, plies, ply, result);
      ply := ply + 1;
    }
    assert ply == if |plies| <= MaxBookPlies then |plies| else MaxBookPlies;
  }

  /** One game of the loop of `build_polyglot_book` (filter_and_build.py:32-51): a game
      whose Variant header is not "three-check" is skipped; otherwise the Result header
      is read once and each of the first `MAX_BOOK_PLIES` plies credits its move with
      2 for the winner's plies, 1 on a draw and nothing else. */
  method AddThreeCheckGame(book: Book, game: Game)
    requires book.Valid()
    modifies book.Repr
    ensures book.Valid() && fresh(book.Repr - old(book.Repr))
    ensures book.Contents == AddGame(old(book.Contents), game, ThreeCheck)
  {
    if Lower(HeaderGet(game.headers, "Variant", "")) == ThreeCheck {
      var result := HeaderGet(game.headers, "Result", "*");
      CreditOpening(book, game.plies, result);
      assert OpeningPlies(game, MaxBookPlies) == game.plies[..if |game.plies| <= MaxBookPlies then |game.plies| else MaxBookPlies];
    }
  }

  /** `build_polyglot_book`: every game is read into one book, which is normalised and
      saved once, after the last game. */
  method BuildPolyglotBook(games: seq<Game>) returns (r: Result<seq<byte>, SaveError>)
    ensures r == SaveSpec(NormalizeTable(AddGames(Empty(), games, ThreeCheck)))
  {
    var book := new Book();
    var gi := 0;
    while gi < |games|
      invariant 0 <= gi <= |games|
      invariant book.Valid() && fresh(book.Repr)
      invariant book.Contents == AddGames(Empty(), games[..gi], ThreeCheck)
    {
      AddGamesStep(Empty(), games, gi, ThreeCheck);
      AddThreeCheckGame(book, games[gi]);
      gi := gi + 1;
    }
    assert games[..gi] == games;
    book.NormalizeWeights();
    r := book.SaveAsPolyglot();
  }
}

# Polyglot opening-book compiler, modelled in Dafny

This project models the offline opening-book compiler of the repository. The compiler reads finished
games and builds a two-level table: hexadecimal Zobrist key of a position → UCI text of a move →
integer weight. It then rescales each position's weights to 0..10000 and writes the table as a
Polyglot opening book. That book is a flat file of 16-byte records: key (8 bytes), move index
(2 bytes), weight (2 bytes) and a zero "learn" field (4 bytes), all big-endian, sorted.

The model has three parts.

- `create_polyglot.py` is the main part.
  - `BookPosition` and `Book` are classes whose dicts the methods update in place (`polyglot.dfy`).
    Each method is proved against a value model of the table (`table.dfy`, `records.dfy`).
  - `format_zobrist_key_hex`, `LichessGame.result` / `score` and the move-index arithmetic are pure
    functions (`hex.dfy`, `games.dfy`, `moves.dfy`).
  - The global sort of the records is modelled by a stable insertion sort (`sorting.dfy`). A stable
    sort on a given key has exactly one possible output (`RecordSort.StableSortUnique`), so this
    gives the same list as CPython's `list.sort`.
- `filter_and_build.py`: the Three-Check accumulation loop, with its inline scoring rule, over the
  same `Book` class (`filter_build.dfy`). The script uses `MAX_BOOK_PLIES`, `Book` and
  `get_zobrist_key_hex` without defining or importing them. It is modelled as running with the
  definitions of create_polyglot.py (lines 5, 11-12 and 26-60).
- `fetch_and_build.py`: `check_rating` and the blank-line grouping loop of `fetch_games`, lifted to
  work on a list of already decoded lines (`fetch_build.dfy`). The Python string operations they use
  are in `pgn_text.dfy`: `splitlines`, `strip`, `startswith`, `split('"')[1]` and `int()`.

Python dicts iterate in insertion order, and that order decides the order of the records before
sorting. So every dict is modelled as its key sequence plus a map (`dicts.dfy`).

Every exception the code can raise is a `Result` error, not a precondition:
- `bytes.fromhex` on a bad key;
- a `BookMove` of positive weight whose `move` is still `None`;
- a weight that does not fit `to_bytes(2)`;
- `IndexError` or `ValueError` while reading a rating tag.

It is also proved that a book built from games and then normalised never hits any of the save
errors (`BookRecords.NormalizedBookSaves`).

## Notes on the code

- **Secondary sort key.** The code sorts by `(e[:8], e[10:12])`, and bytes 10–12 of a record are
  the weight, not the move. So within one key, records come in ascending weight order, not move
  order, and ties keep the order the moves were first seen. `BookRecords.SavedOrder` states this
  order, and `BookRecords.SecondaryKeyIsWeight` shows a lighter record placed before a heavier one
  that has a smaller move index. The primary order is by the key read as an unsigned big-endian
  number, which is the order Polyglot readers binary-search on.
- **Unbounded weights.** Python integers do not overflow, so an accumulated weight is an
  unbounded natural number here; nothing saturates or wraps. Only the save step bounds it, through
  `to_bytes(2)`.
- **Zero weights.** A move whose weight is 0 gets no record: one that never scored, and one whose
  normalised weight floors to 0. No weight is raised to 1.
- **Promotion codes.** `move.promotion` is a python-chess piece type (knight 2 … king 6), so the
  `promotion - 1` field is 1..5. A king promotion is possible in Antichess, which makes the largest
  move index 24575.
- **No drop moves.** The code has no case for a move without an origin square (a piece dropped
  from the hand). Neither variant it reads has such moves.

## Model

| member | source | states |
|---|---|---|
| `Hex.FormatZobristKeyHex` | create_polyglot.py:8-9 | the key text is exactly 16 characters, each a lowercase hexadecimal digit (zero padded) |
| `Hex.KeyHexRoundTrip` | create_polyglot.py:44 | `bytes.fromhex(format_zobrist_key_hex(k))` succeeds and is the 8-byte big-endian encoding of k |
| `Hex.KeyHexInjective` | create_polyglot.py:11-12 | distinct Zobrist keys give distinct position keys, so two hashes are never merged into one position |
| `Bytes.BytesRoundTrip` | create_polyglot.py:52-54 | reading back the big-endian bytes of `to_bytes(n, "big")` gives the value |
| `Bytes.LexLeIsNumericOrder` | create_polyglot.py:57 | for byte strings of one length, Python's `bytes` order is the order of their unsigned big-endian values |
| `Moves.MoveIndex` | create_polyglot.py:49-51 | the move index `to + (from << 6) + ((promotion - 1) << 12)` is at most 24575, so it always fits 2 bytes |
| `Moves.MoveIndexRoundTrip` | create_polyglot.py:49-51 | bits 0–5 give back the destination, bits 6–11 the origin and bits 12–14 the promotion |
| `Moves.MoveIndexInjective` | create_polyglot.py:49-51 | distinct moves (from/to 0..63, promotion 2..6 or none) have distinct move indices |
| `Moves.PawnPromotionCollides` | create_polyglot.py:50-51 | a pawn "promotion" would share the plain move's index, which is why promotion type 1 is excluded |
| `Games.GameResult` | create_polyglot.py:66-67 | the Result header, or "*" when the header is missing |
| `Games.ScoreCases` | create_polyglot.py:69-78 | the score is 2 exactly when the side to move won ("1-0" with White, "0-1" with Black), 1 exactly on "1/2-1/2", 0 otherwise, never above 2 |
| `Games.OpeningPlies` | create_polyglot.py:94-96 | a game contributes a prefix of its plies: all of them, or exactly the first `MAX_BOOK_PLIES` |
| `BookTable.GetPositionGetOrCreate` | create_polyglot.py:30-31 | `get_position` leaves a present key as it is, adds a missing key last with an empty position, and a repeated call changes nothing |
| `BookTable.GetMoveGetOrCreate` | create_polyglot.py:23-24 | `get_move` leaves a present move as it is, adds a missing one last with weight 0 and no move, and a repeated call changes nothing |
| `BookTable.AddPlyChangesOneEntry` | create_polyglot.py:97-101 | one ply creates or fetches exactly its (key, uci) entry, stores the move, adds exactly the score, and leaves every other entry and the key order unchanged |
| `BookTable.AddPliesRecordsEveryPly` | create_polyglot.py:98-100 | every processed ply leaves an entry for its (key, uci), also when it scored 0 |
| `BookTable.AddPliesExtends` | create_polyglot.py:94-103 | accumulating a game's plies only adds: no key, entry or weight is removed or lowered |
| `BookTable.AddGamesExtends` | create_polyglot.py:83-103 | over any sequence of games, entries are never removed and weights never decrease |
| `BookTable.OtherVariantIgnored` | create_polyglot.py:88-89 | a game whose lower-cased Variant header is not the book's variant leaves the book unchanged |
| `BookTable.LaterPliesIgnored` | create_polyglot.py:95-96 | plies from index `MAX_BOOK_PLIES` on have no effect, whatever they are |
| `BookTable.AddPliesWeight` | create_polyglot.py:94-103 | the book's total weight grows by exactly the sum of the processed plies' scores |
| `BookTable.AddGameWeight` | create_polyglot.py:88-103 | a game of the variant adds the scores of its first 20 plies to the total; any other game adds 0 |
| `BookTable.AddGamesWellFormed` | create_polyglot.py:83-103 | accumulating any games keeps both dict levels well formed: each key listed once, in insertion order |
| `BookTable.AddGamesConsistent` | create_polyglot.py:83-103 | a book built from legal games has only hexadecimal Zobrist keys, and each entry holds the move whose UCI text is its key |
| `BookTable.NormalizeTable` | create_polyglot.py:33-38 | normalising adds and removes no position and no move, and keeps both orders |
| `BookTable.ZeroTotalUnchanged` | create_polyglot.py:36 | a position whose weights sum to 0 is left unchanged |
| `BookTable.NormalizedWeights` | create_polyglot.py:36-38 | each rescaled weight is at most 10000, w1 ≤ w2 stays w1' ≤ w2', and w1' < w2' only if w1 < w2 |
| `BookTable.NormalizedSumBound` | create_polyglot.py:35-38 | the rescaled weights of a position sum to at most 10000 |
| `BookTable.NormalizeWellFormed` | create_polyglot.py:33-38 | normalising keeps both dict levels well formed |
| `BookTable.NormalizeConsistent` | create_polyglot.py:33-38 | normalising keeps the book's key/move invariant |
| `BookTable.NormalizeSixAndTwo` | create_polyglot.py:38 | raw weights 6 and 2 in one position become 7500 and 2500 |
| `Polyglot.BookPosition.constructor` | create_polyglot.py:19-21 | a new position has no moves |
| `Polyglot.BookPosition.GetMove` | create_polyglot.py:23-24 | the position becomes `setdefault(uci, BookMove())` of the old one, and the entry returned is the one stored under uci |
| `Polyglot.BookPosition.Credit` | create_polyglot.py:99-101 | the position's entry for uci is fetched or created, gets the move and gains the score |
| `Polyglot.BookPosition.TotalWeight` | create_polyglot.py:35 | the loop computes the sum of the position's weights |
| `Polyglot.BookPosition.RescaleWeights` | create_polyglot.py:37-38 | the loop replaces every weight by floor(w·10000/total), keeping moves and order |
| `Polyglot.BookPosition.Normalize` | create_polyglot.py:35-38 | the position is normalised against the total taken before any weight changes |
| `Polyglot.Book.constructor` | create_polyglot.py:26-28 | a new book has no positions |
| `Polyglot.Book.GetPosition` | create_polyglot.py:30-31 | returns the position object under the key: the existing one, or a fresh one inserted last; no other position changes |
| `Polyglot.Book.Accumulate` | create_polyglot.py:97-101 | the book becomes the one-ply accumulation of its old contents |
| `Polyglot.Book.CreditOpening` | create_polyglot.py:93-103 | the ply loop credits exactly the first min(n, 20) plies, in order, and then breaks |
| `Polyglot.Book.AddGame` | create_polyglot.py:88-103 | one game is accumulated when its Variant header matches and ignored otherwise |
| `Polyglot.Book.NormalizeWeights` | create_polyglot.py:33-38 | the loop over positions leaves the book equal to the normalised old book |
| `Polyglot.Book.AppendPositionRecords` | create_polyglot.py:45-55 | appends one position's records in move order, or returns the first move's encoding error |
| `Polyglot.Book.CollectRecords` | create_polyglot.py:42-55 | `entries` before sorting is the records of every position in key order, or the first error |
| `Polyglot.Book.SaveAsPolyglot` | create_polyglot.py:40-60 | the bytes written are the sorted records back to back, or the first error; the book is only read |
| `Polyglot.WriteRecords` | create_polyglot.py:58-59 | the file is the records concatenated in order |
| `Polyglot.BuildBookFile` | create_polyglot.py:80-106 | the file is the save of the normalised book built from every "antichess" game; normalising and saving happen once, after the last game |
| `BookRecords.EntryRecord` | create_polyglot.py:46-55 | a move gets a record exactly when its weight is positive; encoding fails exactly when it has no move or a weight ≥ 65536 |
| `BookRecords.RecordLayout` | create_polyglot.py:44-55 | a record is 16 bytes: bytes 0–8 read back as the key, 8–10 as the move, 10–12 as the weight, and the last four are zero |
| `BookRecords.FlattenRecords` | create_polyglot.py:58-59 | the file is 16·n bytes long, and record i sits at offset 16·i |
| `BookRecords.SaveSucceeds` | create_polyglot.py:44-53 | saving succeeds exactly when every key is hexadecimal and every positive-weight move has its move set and a weight below 65536 |
| `BookRecords.SaveErrorIsGenuine` | create_polyglot.py:44-53 | a failed save names a key or entry that really is bad |
| `BookRecords.SaveCount` | create_polyglot.py:45-47 | the number of records equals the number of moves with positive weight |
| `BookRecords.SavedRecords` | create_polyglot.py:43-55 | in a book built from games, the written records are exactly the records of its positive-weight moves, each 16 bytes long |
| `BookRecords.SavedOrder` | create_polyglot.py:57 | records are in non-decreasing unsigned key order, and within one key in non-decreasing weight order |
| `BookRecords.SavedTiesKeepOrder` | create_polyglot.py:57 | records with equal sort keys keep the order they were collected in |
| `BookRecords.SecondaryKeyIsWeight` | create_polyglot.py:57 | two records of one key are ordered by weight, not by move index |
| `BookRecords.NormalizedBookSaves` | create_polyglot.py:105-106 | a book built from games and then normalised always saves without an exception |
| `BookRecords.EmptyInputEmptyFile` | create_polyglot.py:80-106 | with no games, the file holds zero records |
| `RecordSort.SortRecords` | create_polyglot.py:57 | the sorted list is a permutation of `entries` |
| `RecordSort.SortRecordsSorted` | create_polyglot.py:57 | the sorted list is in non-decreasing order of `(e[:8], e[10:12])` |
| `RecordSort.SortRecordsStable` | create_polyglot.py:57 | the sort is stable: for every sort key, the records with that key keep their relative order |
| `RecordSort.StableSortUnique` | create_polyglot.py:57 | every sorted sequence that keeps the input order of the records with each sort key equals `SortRecords`, so any stable sort on `(e[:8], e[10:12])` writes the same file |
| `ThreeCheckBuild.InlineScore` | filter_and_build.py:45-50 | the inline increment is +2 when the side to move won, +1 on a draw, +0 otherwise, which is the same rule as `LichessGame.score` |
| `ThreeCheckBuild.CreditPly` | filter_and_build.py:40-51 | one ply accumulates its inline score into its (key, uci) entry |
| `ThreeCheckBuild.CreditOpening` | filter_and_build.py:37-51 | only plies 0..19 from `enumerate` contribute, and the loop breaks at the first ply ≥ 20 |
| `ThreeCheckBuild.AddThreeCheckGame` | filter_and_build.py:32-51 | a game whose lower-cased Variant is not "three-check" is skipped; otherwise the Result header is read once and the opening plies are accumulated |
| `ThreeCheckBuild.BuildPolyglotBook` | filter_and_build.py:24-56 | the file is the save of the normalised book built from every Three-Check game; normalising and saving happen once, after the last game |
| `RatingFilter.TagValue` | fetch_and_build.py:38 | reading a tag fails exactly when the line has no `"` or the quoted text is not an integer |
| `RatingFilter.ReadRatingLine` | fetch_and_build.py:37-40 | a `[WhiteElo ` line sets w, a `[BlackElo ` line sets b, any other line changes nothing |
| `RatingFilter.CheckRating` | fetch_and_build.py:34-41 | the loop over lines agrees with the scan of `splitlines()` starting from w = b = 0 |
| `RatingFilter.ScanReadsWhite` | fetch_and_build.py:36-38 | w is the value on the last `[WhiteElo ` line, or 0 when there is none |
| `RatingFilter.ScanReadsBlack` | fetch_and_build.py:39-40 | b is the value on the last `[BlackElo ` line, or 0 when there is none |
| `RatingFilter.ScanFailsOnBadTag` | fetch_and_build.py:36-40 | the scan raises exactly when some tag line's quoted value is missing or not an integer |
| `RatingFilter.CheckRatingMeaning` | fetch_and_build.py:41 | `check_rating` is true iff both ratings read are at least `min_rating` |
| `RatingFilter.MissingTagRejected` | fetch_and_build.py:35-41 | with `min_rating` > 0, a game missing either tag is never accepted |
| `RatingFilter.FetchGames` | fetch_and_build.py:17-30 | the grouping loop returns the stripped texts that pass `check_rating`, taken from every blank-line-terminated group and a non-empty trailing group, or the first error |
| `RatingFilter.GroupingKeepsText` | fetch_and_build.py:23-28 | grouping drops and reorders no line: the groups joined are the non-blank lines, each followed by "\n" |
| `RatingFilter.KeptInOrder` | fetch_and_build.py:23-30 | kept games are a subsequence of the stripped groups in input order, and never more than the groups |
| `RatingFilter.KeptIffPassing` | fetch_and_build.py:23-30 | a text is kept iff it is the stripped form of a group that passes `check_rating` |
| `RatingFilter.KeptMeansAllRead` | fetch_and_build.py:24-30 | when games are returned, `check_rating` raised on no group |
| `PgnText.SplitJoinLines` | fetch_and_build.py:36 | `splitlines()` of lines each written with "\n" gives the lines back |
| `PgnText.StripTrims` | fetch_and_build.py:25 | `strip()` removes only leading and trailing whitespace, and leaves no whitespace at either end |
| `PgnText.QuotedFieldOfTag` | fetch_and_build.py:38 | `split('"')[1]` of a tag line `[Name "v"]` is v |
| `PgnText.ParseIntString` | fetch_and_build.py:38 | `int(str(n)) == n`, so ratings written as decimals read back as written |

## Left out

- Zobrist hashing, board replay and PGN parsing (`chess.polyglot.zobrist_hash`, `board.push`, `board.turn`, `chess.pgn.read_game`, `mainline_moves`) are python-chess library code. A game is given as its headers plus, for each ply, the 64-bit key of the position before the move, the move and the side to move.
- Polyglot.BookPosition.RescaleWeights: computes the integer floor(w·10000/total). The source's float `int(w / total * 10000)` can come out one lower in rare rounding cases.
- Games.Lower: `str.lower()` is modelled on ASCII letters only. Non-ASCII capitals in a Variant header are not folded.
- PgnText.ParseInt: `int()` is modelled on ASCII digits only. Python also accepts other Unicode decimal digits.
- A `BookMove` is an object in the source and an `Entry` value in the position's map here. `bm.move = move; bm.weight += …` on the returned object is modelled by `Credit` writing the updated entry back under the same UCI key. No other alias of a `BookMove` exists in the source.
- File I/O: opening, writing and closing files, and the progress `print`s. Saving returns the file's bytes instead. When saving raises, the model returns the error and does not model the empty file that `open(path, 'wb')` has already left.
- Network I/O: `requests.get`, `iter_lines`, byte decoding, `fetch_games` of filter_and_build.py (lines 2-21), `save_pgn`, `time.sleep` and the `__main__` blocks. The grouping loop takes the decoded lines as input. `iter_lines` never yields `None`, so the `None` skip is not modelled.
- koth.py is not part of this model. It is a thin wrapper over python-chess's own book writer, plus network I/O.
- book_make.cpp is not part of this model. It checks `argc` and calls a function whose source is not available.
- The "learn" field has no meaning here. It is always written as four zero bytes.
- Drop moves (a piece placed from the hand) are not modelled. Neither Antichess nor Three-Check has them.

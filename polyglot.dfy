/** The mutable book of create_polyglot.py: `BookMove`, `BookPosition` and `Book` as
    objects updated in place, each proved against the value model of `BookTable`,
    `normalize_weights` and `save_as_polyglot` as loops, and `build_book_file`. */
module Polyglot {
  import opened Wrappers
  import opened Bytes
  import opened Hex
  import opened Moves
  import opened Dicts
  import opened Games
  import opened BookTable
  import opened BookRecords
  import opened RecordSort

  /** One position (`BookPosition`): `moves`, a dict from UCI text to the position's
      `BookMove`s, kept as its insertion order `ucis` and the map. The ghost `key` is
      the position's own key in the book. */
  class BookPosition {
    var ucis: seq<string>
    var moves: map<string, Entry>
    ghost const key: string

    /** The position as a value. */
    ghost function View(): PositionTable
      reads this
    {
      Dict(ucis, moves)
    }

    constructor (ghost key: string)
      ensures View() == Empty() && this.key == key
    {
      ucis := [];
      moves := map[];
      this.key := key;
    }

    /** `get_move(uci)`: `self.moves.setdefault(uci, BookMove())`. */
    method GetMove(uci: string) returns (bm: Entry)
      modifies this
      ensures View() == BookTable.GetMove(old(View()), uci)
      ensures bm == moves[uci]
    {
      if uci !in moves {
        moves := moves[uci := FreshEntry];
        ucis := ucis + [uci];
      }
      bm := moves[uci];
    }

    /** The body of the ply loop on this position (create_polyglot.py:99-101): the
        entry of uci is fetched or created, gets the move and gains the score s. */
    method Credit(uci: string, m: Move, s: nat)
      modifies this
      ensures View() == CreditMove(old(View()), uci, m, s)
    {
      var bm := GetMove(uci);
      moves := moves[uci := Entry(bm.weight + s, Some(m))];
    }

    /** `sum(bm.weight for bm in pos.moves.values())`. */
    method TotalWeight() returns (total: nat)
      requires Dicts.Valid(View())
      ensures total == SumWeights(View())
    {
      total := 0;
      var i := 0;
      while i < |ucis|
        invariant 0 <= i <= |ucis|
        invariant total == SumBy(ucis[..i], moves, (e: Entry) => e.weight)
      {
        assert ucis[..i + 1][..i] == ucis[..i];
        total := total + moves[ucis[i]].weight;
        i := i + 1;
      }
      assert ucis[..i] == ucis;
    }

    /** The inner loop of `normalize_weights`: every weight becomes its share of total
        on the 0..MAX_BOOK_WEIGHT scale. */
    method RescaleWeights(total: nat)
      requires Dicts.Valid(View()) && total > 0
      modifies this
      ensures View() == Dict(old(ucis), RescaledItems(old(moves), total))
    {
      var i := 0;
      while i < |ucis|
        invariant 0 <= i <= |ucis| && ucis == old(ucis) && moves.Keys == old(moves).Keys
        invariant forall j | 0 <= j < i ::
          moves[ucis[j]] == Entry(Rescale(old(moves)[ucis[j]].weight, total), old(moves)[ucis[j]].move)
        invariant forall j | i <= j < |ucis| :: moves[ucis[j]] == old(moves)[ucis[j]]
      {
        var bm := moves[ucis[i]];
        moves := moves[ucis[i] := Entry(bm.weight * MaxBookWeight / total, bm.move)];
        i := i + 1;
      }
      forall u | u in moves ensures moves[u] == RescaledItems(old(moves), total)[u] {
        var j :| 0 <= j < |ucis| && ucis[j] == u;
      }
    }

    /** One position of `normalize_weights` (create_polyglot.py:35-38): the total is
        taken first, and only a positive total rescales the weights. */
    method Normalize()
      requires Dicts.Valid(View())
      modifies this
      ensures View() == NormalizePosition(old(View()))
    {
      var total := TotalWeight();
      if total > 0 {
        RescaleWeights(total);
      }
    }
  }

  /** The book (`Book`): `positions`, a dict from hexadecimal Zobrist key to
      `BookPosition`, kept as its insertion order `keys` and the map. `Contents` is the
      book as a value. */
  class Book {
    var keys: seq<string>
    var positions: map<string, BookPosition>
    ghost var Contents: Table
    ghost var Repr: set<object>

    /** The book's value is well formed, and each position object belongs to the book, is
        owned by its key and holds the book's entry for that key. */
    ghost predicate Valid()
      reads this, Repr
    {
      && this in Repr
      && WellFormed(Contents)
      && Contents.keys == keys && Contents.items.Keys == positions.Keys
      && (forall k | k in positions ::
            && positions[k] in Repr && positions[k].key == k
            && positions[k].View() == Contents.items[k])
    }

    constructor ()
      ensures Valid() && fresh(Repr) && Contents == Empty()
    {
      keys := [];
      positions := map[];
      Contents := Empty();
      Repr := {this};
    }

    /** `get_position(key)`: `self.positions.setdefault(key, BookPosition())`. */
    method GetPosition(key: string) returns (pos: BookPosition)
      requires Valid()
      modifies this
      ensures Valid() && fresh(Repr - old(Repr))
      ensures key in positions && pos == positions[key]
      ensures key in old(positions) ==> positions == old(positions)
      ensures key !in old(positions) ==> fresh(pos) && positions == old(positions)[key := pos]
      ensures Contents == BookTable.GetPosition(old(Contents), key)
    {
      if key !in positions {
        var p := new BookPosition(key);
        positions := positions[key := p];
        keys := keys + [key];
        Repr := Repr + {p};
        Contents := BookTable.GetPosition(Contents, key);
      }
      pos := positions[key];
    }

    /** `bm = position.get_move(uci)`, `bm.move = m`, `bm.weight += s` on a position of
        the book (create_polyglot.py:99-101). */
    method CreditPosition(position: BookPosition, uci: string, m: Move, s: nat)
      requires Valid() && position.key in positions && positions[position.key] == position
      modifies this, position
      ensures Valid() && Repr == old(Repr) && positions == old(positions)
      ensures Contents == Update(old(Contents), position.key,
                                 CreditMove(old(Contents).items[position.key], uci, m, s))
    {
      position.Credit(uci, m, s);
      Contents := Update(Contents, position.key, position.View());
    }

    /** The body of the ply loop (create_polyglot.py:97-101). */
    method Accumulate(key: string, m: Move, s: nat)
      requires Valid()
      modifies Repr
      ensures Valid() && fresh(Repr - old(Repr))
      ensures Contents == AddPly(old(Contents), key, m, s)
    {
      var position := GetPosition(key);
      CreditPosition(position, Uci(m), m, s);
      AddPlyUnfold(old(Contents), key, m, s);
    }

    /** One pass of the ply loop of `build_book_file` (create_polyglot.py:97-101),
        stated against the plies credited so far: ply number `ply` is credited next. */
    method CreditPly(ghost start: Table, plies: seq<Ply>, ply: nat, result: string)
      requires Valid() && ply < |plies|
      requires Contents == AddPlies(start, plies[..ply], result)
      modifies Repr
      ensures Valid() && fresh(Repr - old(Repr))
      ensures Contents == AddPlies(start, plies[..ply + 1], result)
    {
      var p := plies[ply];
      AddPliesStep(start, plies, ply, result);
      Accumulate(FormatZobristKeyHex(p.key), p.move, Score(result, p.turn));
    }

    /** The ply loop of `build_book_file` (create_polyglot.py:94-101): the first
        `MAX_BOOK_PLIES` plies of a game, in order, each credit their move with the
        game's score for the side that played it; the loop breaks at the limit. */
    method CreditOpening(plies: seq<Ply>, result: string)
      requires Valid()
      modifies Repr
      ensures Valid() && fresh(Repr - old(Repr))
      ensures Contents == AddPlies(old(Contents), plies[..if |plies| <= MaxBookPlies then |plies| else MaxBookPlies], result)
    {
      ghost var start := Contents;
      var ply := 0;
      while ply < |plies|
        invariant 0 <= ply <= |plies| && ply <= MaxBookPlies
        invariant Valid()
        invariant fresh(Repr - old(Repr))
        invariant Contents == AddPlies(start, plies[..ply], result)
      {
        if ply >= MaxBookPlies {
          break;
        }
        CreditPly(start, plies, ply, result);
        ply := ply + 1;
      }
      assert ply == if |plies| <= MaxBookPlies then |plies| else MaxBookPlies;
    }

    /** One game of the loop body of `build_book_file` (create_polyglot.py:88-101):
        when the game's Variant header is `variant`, its first `MAX_BOOK_PLIES` plies
        are credited with the game's score. */
    method AddGame(game: Game, variant: string)
      requires Valid()
      modifies Repr
      ensures Valid() && fresh(Repr - old(Repr))
      ensures Contents == BookTable.AddGame(old(Contents), game, variant)
    {
      if Lower(HeaderGet(game.headers, "Variant", "")) == variant {
        CreditOpening(game.plies, GameResult(game));
        assert OpeningPlies(game, MaxBookPlies) == game.plies[..if |game.plies| <= MaxBookPlies then |game.plies| else MaxBookPlies];
      }
    }

    /** One position of `normalize_weights`, kept in step with `Contents`. */
    method NormalizePositionOf(position: BookPosition)
      requires Valid() && position.key in positions && positions[position.key] == position
      modifies this, position
      ensures Valid() && Repr == old(Repr) && positions == old(positions) && keys == old(keys)
      ensures Contents == Update(old(Contents), position.key, NormalizePosition(old(Contents).items[position.key]))
    {
      position.Normalize();
      Contents := Update(Contents, position.key, position.View());
    }

    /** `normalize_weights` (create_polyglot.py:33-38): every position, in order, is
        normalised on its own; no position or move is added or removed. */
    method NormalizeWeights()
      requires Valid()
      modifies Repr
      ensures Valid() && Repr == old(Repr)
      ensures Contents == NormalizeTable(old(Contents))
    {
      var i := 0;
      while i < |keys|
        invariant 0 <= i <= |keys|
        invariant Valid() && Repr == old(Repr) && keys == old(keys) && positions == old(positions)
        invariant Contents == NormalizeFirst(old(Contents), i)
      {
        NormalizeFirstStep(old(Contents), i);
        var position := positions[keys[i]];
        NormalizePositionOf(position);
        i := i + 1;
      }
      NormalizeFirstAll(old(Contents));
    }

    /** The inner loop of `save_as_polyglot` (create_polyglot.py:45-55) for one
        position: its records appended to `entries` in the order of its moves, or the
        exception of the first move that cannot be encoded. */
    method AppendPositionRecords(key: string, zb: seq<byte>, position: BookPosition, entries: seq<seq<byte>>)
      returns (r: Result<seq<seq<byte>>, SaveError>)
      requires Dicts.Valid(position.View())
      ensures r == (match PositionRecords(key, zb, position.ucis, position.moves)
                    case Err(err) => Err(err)
                    case Ok(prs) => Ok(entries + prs))
    {
      var es := entries;
      var j := 0;
      while j < |position.ucis|
        invariant 0 <= j <= |position.ucis|
        invariant PositionRecords(key, zb, position.ucis[..j], position.moves).Ok?
        invariant es == entries + PositionRecords(key, zb, position.ucis[..j], position.moves).value
      {
        assert position.ucis[..j + 1][..j] == position.ucis[..j];
        var uci := position.ucis[j];
        var bm := position.moves[uci];
        if bm.weight > 0 {
          if bm.move.None? {
            PositionRecordsErrorStays(key, zb, position.ucis, position.moves, j + 1);
            return Err(MissingMove(key, uci));
          }
          var mi := MoveIndex(bm.move.value);
          if bm.weight >= 0x1_0000 {
            PositionRecordsErrorStays(key, zb, position.ucis, position.moves, j + 1);
            return Err(WeightOverflow(key, uci, bm.weight));
          }
          es := es + [MakeRecord(zb, mi, bm.weight)];
        }
        j := j + 1;
      }
      assert position.ucis[..j] == position.ucis;
      return Ok(es);
    }

    /** The outer loop of `save_as_polyglot` (create_polyglot.py:42-55): the records
        of every position, in the order of the book's keys, or the exception of the
        first key that is not hexadecimal or the first move that cannot be encoded. */
    method CollectRecords() returns (r: Result<seq<seq<byte>>, SaveError>)
      requires Valid()
      ensures r == TableRecords(Contents.keys, Contents.items)
    {
      var entries: seq<seq<byte>> := [];
      var i := 0;
      while i < |keys|
        invariant 0 <= i <= |keys|
        invariant TableRecords(keys[..i], Contents.items) == Ok(entries)
      {
        assert keys[..i + 1][..i] == keys[..i];
        var keyHex := keys[i];
        var zbytes := FromHex(keyHex);
        if zbytes.None? {
          TableRecordsErrorStays(keys, Contents.items, i + 1);
          assert keys[..|keys|] == keys;
          return Err(BadKeyHex(keyHex));
        }
        var pos := positions[keyHex];
        var appended := AppendPositionRecords(keyHex, zbytes.value, pos, entries);
        if appended.Err? {
          TableRecordsErrorStays(keys, Contents.items, i + 1);
          return Err(appended.error);
        }
        entries := appended.value;
        i := i + 1;
      }
      assert keys[..i] == keys;
      return Ok(entries);
    }

    /** `save_as_polyglot` (create_polyglot.py:40-60): the records of every position,
        sorted by `(e[:8], e[10:12])` and written back to back; or the first exception
        the loops raise. The book is only read. */
    method SaveAsPolyglot() returns (r: Result<seq<byte>, SaveError>)
      requires Valid()
      ensures r == SaveSpec(Contents)
    {
      var entries := CollectRecords();
      if entries.Err? {
        return Err(entries.error);
      }
      var sorted := SortRecords(entries.value);
      var out := WriteRecords(sorted);
      return Ok(out);
    }
  }

  /** `for entry in entries: outfile.write(entry)` (create_polyglot.py:58-59): the
      bytes of the file are the records one after the other. */
  method WriteRecords(entries: seq<seq<byte>>) returns (out: seq<byte>)
    ensures out == Flatten(entries)
  {
    out := [];
    var j := 0;
    while j < |entries|
      invariant 0 <= j <= |entries|
      invariant out == Flatten(entries[..j])
    {
      assert entries[..j + 1][..j] == entries[..j];
      out := out + entries[j];
      j := j + 1;
    }
    assert entries[..j] == entries;
  }

  /** `build_book_file` (create_polyglot.py:80-106) on the games of the PGN file: every
      game whose Variant header is "antichess" adds the score of each of its first
      `MAX_BOOK_PLIES` plies to the book, which is then normalised and saved once. */
  method BuildBookFile(games: seq<Game>) returns (r: Result<seq<byte>, SaveError>)
    ensures r == SaveSpec(NormalizeTable(AddGames(Empty(), games, "antichess")))
  {
    var book := new Book();
    var gi := 0;
    while gi < |games|
      invariant 0 <= gi <= |games|
      invariant book.Valid() && fresh(book.Repr)
      invariant book.Contents == AddGames(Empty(), games[..gi], "antichess")
    {
      AddGamesStep(Empty(), games, gi, "antichess");
      book.AddGame(games[gi], "antichess");
      gi := gi + 1;
    }
    assert games[..gi] == games;
    book.NormalizeWeights();
    r := book.SaveAsPolyglot();
  }
}

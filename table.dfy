/** The book compiler's table as a value (create_polyglot.py, `Book`, `BookPosition`,
    `BookMove`): position key -> move UCI -> entry, both levels insertion ordered.
    This module defines what accumulation and normalisation do to it; the classes in
    module Polyglot are proved to do exactly this. */
module BookTable {
  import opened Wrappers
  import opened Bytes
  import opened Hex
  import opened Moves
  import opened Dicts
  import opened Games
  import opened Arith

  /** `MAX_BOOK_PLIES`: only plies 0..19 of a game are recorded. */
  const MaxBookPlies: nat := 20

  /** `MAX_BOOK_WEIGHT`: the ceiling of a normalised weight. */
  const MaxBookWeight: nat := 10000

  /** A `BookMove`: its weight and the move last stored in it. */
  datatype Entry = Entry(weight: nat, move: Option<Move>)

  /** `BookPosition.moves`: UCI text -> entry. */
  type PositionTable = Dict<Entry>

  /** `Book.positions`: hexadecimal Zobrist key -> position. */
  type Table = Dict<PositionTable>

  /** A new `BookMove()`: weight 0 and no move yet. */
  const FreshEntry: Entry := Entry(0, None)

  predicate WellFormed(t: Table)
  {
    Valid(t) && forall k | k in t.items :: Valid(t.items[k])
  }

  /** The weight of an entry, 0 when the position or the move is absent. */
  function WeightAt(t: Table, key: string, uci: string): nat
  {
    if key in t.items && uci in t.items[key].items then t.items[key].items[uci].weight else 0
  }

  /** The table after `get_position(key)`. */
  function GetPosition(t: Table, key: string): (r: Table)
    ensures key in r.items
  {
    SetDefault(t, key, Empty())
  }

  /** The position after `get_move(uci)`. */
  function GetMove(p: PositionTable, uci: string): (r: PositionTable)
    ensures uci in r.items
  {
    SetDefault(p, uci, FreshEntry)
  }

  /** `get_position` is get-or-create: a present key leaves the book as it is, a new
      key is listed last with an empty position, and a second call changes nothing. */
  lemma GetPositionGetOrCreate(t: Table, key: string)
    ensures key in t.items ==> GetPosition(t, key) == t
    ensures key !in t.items ==>
      GetPosition(t, key).keys == t.keys + [key] && GetPosition(t, key).items == t.items[key := Empty()]
    ensures GetPosition(GetPosition(t, key), key) == GetPosition(t, key)
  {
  }

  /** `get_move` is get-or-create: a present move keeps its `BookMove`, a new one is
      listed last with weight 0 and no move, and a second call changes nothing. */
  lemma GetMoveGetOrCreate(p: PositionTable, uci: string)
    ensures uci in p.items ==> GetMove(p, uci) == p
    ensures uci !in p.items ==>
      GetMove(p, uci).keys == p.keys + [uci] && GetMove(p, uci).items == p.items[uci := Entry(0, None)]
    ensures GetMove(GetMove(p, uci), uci) == GetMove(p, uci)
  {
  }

  /** The position after `bm = position.get_move(uci)`, `bm.move = m` and
      `bm.weight += s` (create_polyglot.py:99-101). */
  function CreditMove(p: PositionTable, uci: string, m: Move, s: nat): PositionTable
  {
    var p1 := GetMove(p, uci);
    Update(p1, uci, Entry(p1.items[uci].weight + s, Some(m)))
  }

  /** One accumulation step (create_polyglot.py:97-101): the entry of `uci` under
      `key` is fetched or created, gets the move and gains the ply's score. */
  function AddPly(t: Table, key: string, m: Move, s: nat): (r: Table)
  {
    var t1 := GetPosition(t, key);
    Update(t1, key, CreditMove(t1.items[key], Uci(m), m, s))
  }

  /** The plies of one game, in order, each adding its score for the game's result. */
  function AddPlies(t: Table, ps: seq<Ply>, result: string): Table
  {
    if ps == [] then t
    else
      var p := ps[|ps| - 1];
      AddPly(AddPlies(t, ps[..|ps| - 1], result), FormatZobristKeyHex(p.key), p.move, Score(result, p.turn))
  }

  /** One game: nothing unless its Variant header names `variant`, and then only its
      first `MAX_BOOK_PLIES` plies. */
  function AddGame(t: Table, g: Game, variant: string): Table
  {
    if IsVariant(g, variant) then AddPlies(t, OpeningPlies(g, MaxBookPlies), GameResult(g)) else t
  }

  function AddGames(t: Table, gs: seq<Game>, variant: string): Table
  {
    if gs == [] then t else AddGame(AddGames(t, gs[..|gs| - 1], variant), gs[|gs| - 1], variant)
  }

  /** Crediting one more ply of a prefix. */
  lemma AddPliesStep(t: Table, ps: seq<Ply>, n: nat, result: string)
    requires n < |ps|
    ensures AddPlies(t, ps[..n + 1], result)
         == AddPly(AddPlies(t, ps[..n], result), FormatZobristKeyHex(ps[n].key), ps[n].move, Score(result, ps[n].turn))
  {
    assert ps[..n + 1][..n] == ps[..n];
  }

  /** Adding one more game of a prefix. */
  lemma AddGamesStep(t: Table, gs: seq<Game>, n: nat, variant: string)
    requires n < |gs|
    ensures AddGames(t, gs[..n + 1], variant) == AddGame(AddGames(t, gs[..n], variant), gs[n], variant)
  {
    assert gs[..n + 1][..n] == gs[..n];
  }

  /** The sum of the scores a sequence of plies earns. */
  function PliesScore(ps: seq<Ply>, result: string): nat
  {
    if ps == [] then 0 else PliesScore(ps[..|ps| - 1], result) + Score(result, ps[|ps| - 1].turn)
  }

  /** `sum(bm.weight for bm in pos.moves.values())`. */
  function SumWeights(p: PositionTable): nat
  {
    SumBy(p.keys, p.items, (e: Entry) => e.weight)
  }

  /** The sum of every weight in the book. */
  function TableWeight(t: Table): nat
  {
    SumBy(t.keys, t.items, SumWeights)
  }

  // ---------------------------------------------------------------------------
  // Accumulation

  lemma AddPlyWellFormed(t: Table, key: string, m: Move, s: nat)
    requires WellFormed(t)
    ensures WellFormed(AddPly(t, key, m, s))
  {
    var t1 := GetPosition(t, key);
    assert key !in t.items ==> t1.items[key] == Empty();
    assert WellFormed(t1);
  }

  /** Accumulation changes exactly one entry, the ply's (key, uci) one, which exists
      afterwards, holds the move and gained exactly the score; every other entry,
      present or absent, is as before, and no key changes its place. */
  lemma AddPlyChangesOneEntry(t: Table, key: string, m: Move, s: nat)
    ensures var r := AddPly(t, key, m, s);
      && key in r.items && Uci(m) in r.items[key].items
      && r.items[key].items[Uci(m)] == Entry(WeightAt(t, key, Uci(m)) + s, Some(m))
      && r.items.Keys == t.items.Keys + {key}
      && (forall k | k in t.items && k != key :: r.items[k] == t.items[k])
      && (key in t.items ==> r.items[key].items.Keys == t.items[key].items.Keys + {Uci(m)})
      && (forall u | key in t.items && u in t.items[key].items && u != Uci(m) ::
            r.items[key].items[u] == t.items[key].items[u])
      && (key !in t.items ==> r.items[key].items.Keys == {Uci(m)})
      && r.keys == (if key in t.items then t.keys else t.keys + [key])
  {
  }

  /** `t2` grew from `t1` by accumulation only: every key keeps its place, and every
      entry is still there with a weight at least as large. */
  predicate Extends(t1: Table, t2: Table)
  {
    && t1.keys <= t2.keys
    && (forall k | k in t1.items :: k in t2.items && t1.items[k].keys <= t2.items[k].keys)
    && (forall k, u | k in t1.items && u in t1.items[k].items ::
          u in t2.items[k].items && t1.items[k].items[u].weight <= t2.items[k].items[u].weight)
  }

  lemma ExtendsTransitive(t1: Table, t2: Table, t3: Table)
    requires Extends(t1, t2) && Extends(t2, t3)
    ensures Extends(t1, t3)
  {
  }

  lemma AddPlyExtends(t: Table, key: string, m: Move, s: nat)
    ensures Extends(t, AddPly(t, key, m, s))
  {
    AddPlyChangesOneEntry(t, key, m, s);
  }

  /** Accumulating a game's plies only adds: no entry disappears or loses weight. */
  lemma {:induction false} AddPliesExtends(t: Table, ps: seq<Ply>, result: string)
    ensures Extends(t, AddPlies(t, ps, result))
  {
    if ps != [] {
      var p := ps[|ps| - 1];
      var t1 := AddPlies(t, ps[..|ps| - 1], result);
      AddPliesExtends(t, ps[..|ps| - 1], result);
      AddPlyExtends(t1, FormatZobristKeyHex(p.key), p.move, Score(result, p.turn));
      ExtendsTransitive(t, t1, AddPlies(t, ps, result));
    }
  }

  /** Weights never decrease and entries are never removed while games are consumed. */
  lemma {:induction false} AddGamesExtends(t: Table, gs: seq<Game>, variant: string)
    ensures Extends(t, AddGames(t, gs, variant))
  {
    if gs != [] {
      var g := gs[|gs| - 1];
      var t1 := AddGames(t, gs[..|gs| - 1], variant);
      AddGamesExtends(t, gs[..|gs| - 1], variant);
      if IsVariant(g, variant) {
        AddPliesExtends(t1, OpeningPlies(g, MaxBookPlies), GameResult(g));
      }
      ExtendsTransitive(t, t1, AddGames(t, gs, variant));
    }
  }

  /** Every processed ply leaves an entry for its (key, uci), also when it scored 0,
      and two plies with equal key and uci share one entry. */
  lemma {:induction false} AddPliesRecordsEveryPly(t: Table, ps: seq<Ply>, result: string, i: nat)
    requires i < |ps|
    ensures var r := AddPlies(t, ps, result);
      FormatZobristKeyHex(ps[i].key) in r.items && Uci(ps[i].move) in r.items[FormatZobristKeyHex(ps[i].key)].items
  {
    var p := ps[|ps| - 1];
    var t1 := AddPlies(t, ps[..|ps| - 1], result);
    AddPlyChangesOneEntry(t1, FormatZobristKeyHex(p.key), p.move, Score(result, p.turn));
    if i < |ps| - 1 {
      AddPliesRecordsEveryPly(t, ps[..|ps| - 1], result, i);
    }
  }

  /** A game of another variant contributes nothing. */
  lemma OtherVariantIgnored(t: Table, g: Game, variant: string)
    requires !IsVariant(g, variant)
    ensures AddGame(t, g, variant) == t
  {
  }

  /** Plies from index MAX_BOOK_PLIES on contribute nothing: a game's later moves
      can be anything. */
  lemma LaterPliesIgnored(t: Table, g: Game, later: seq<Ply>, variant: string)
    requires |g.plies| >= MaxBookPlies
    ensures AddGame(t, g.(plies := g.plies + later), variant) == AddGame(t, g, variant)
  {
    assert (g.plies + later)[..MaxBookPlies] == g.plies[..MaxBookPlies];
  }

  lemma {:induction false} AddPliesWellFormed(t: Table, ps: seq<Ply>, result: string)
    requires WellFormed(t)
    ensures WellFormed(AddPlies(t, ps, result))
  {
    if ps != [] {
      var p := ps[|ps| - 1];
      AddPliesWellFormed(t, ps[..|ps| - 1], result);
      AddPlyWellFormed(AddPlies(t, ps[..|ps| - 1], result), FormatZobristKeyHex(p.key), p.move, Score(result, p.turn));
    }
  }

  lemma {:induction false} AddGamesWellFormed(t: Table, gs: seq<Game>, variant: string)
    requires WellFormed(t)
    ensures WellFormed(AddGames(t, gs, variant))
  {
    if gs != [] {
      var g := gs[|gs| - 1];
      AddGamesWellFormed(t, gs[..|gs| - 1], variant);
      if IsVariant(g, variant) {
        AddPliesWellFormed(AddGames(t, gs[..|gs| - 1], variant), OpeningPlies(g, MaxBookPlies), GameResult(g));
      }
    }
  }

  /** Fetching or creating an entry keeps a position well formed, lists the entry and
      leaves the position's sum alone. */
  lemma GetMoveKeepsSum(p0: PositionTable, uci: string)
    requires Valid(p0)
    ensures Valid(GetMove(p0, uci)) && uci in GetMove(p0, uci).keys
    ensures SumWeights(GetMove(p0, uci)) == SumWeights(p0)
  {
    if uci !in p0.items {
      SumByAppend(p0.keys, p0.items, uci, FreshEntry, (e: Entry) => e.weight);
    }
  }

  /** Replacing one listed entry replaces its share of the position's sum. */
  lemma UpdateSum(p1: PositionTable, uci: string, e: Entry)
    requires Valid(p1) && uci in p1.keys && uci in p1.items
    ensures SumWeights(Update(p1, uci, e)) + p1.items[uci].weight == SumWeights(p1) + e.weight
  {
    SumByUpdate(p1.keys, p1.items, uci, e, (e: Entry) => e.weight);
  }

  /** The credit step as fetch-or-create followed by an update. */
  lemma CreditMoveUnfold(p0: PositionTable, uci: string, m: Move, s: nat)
    ensures var p1 := GetMove(p0, uci);
      CreditMove(p0, uci, m, s) == Update(p1, uci, Entry(p1.items[uci].weight + s, Some(m)))
  {
  }

  /** Within one position, the step's entry gains s and the position's sum with it. */
  lemma PositionGain(p0: PositionTable, uci: string, m: Move, s: nat)
    requires Valid(p0)
    ensures SumWeights(CreditMove(p0, uci, m, s)) == SumWeights(p0) + s
  {
    GetMoveKeepsSum(p0, uci);
    CreditMoveUnfold(p0, uci, m, s);
    UpdateSum(GetMove(p0, uci), uci, Entry(GetMove(p0, uci).items[uci].weight + s, Some(m)));
  }

  /** Replacing one position replaces its share of the book's total. */
  lemma TableGain(t: Table, key: string, p2: PositionTable)
    requires Valid(t)
    ensures var t1 := GetPosition(t, key);
      TableWeight(Update(t1, key, p2)) + SumWeights(t1.items[key]) == TableWeight(t) + SumWeights(p2)
  {
    var t1 := GetPosition(t, key);
    if key !in t.items {
      assert SumWeights(t1.items[key]) == 0;
      SumByAppend(t.keys, t.items, key, Empty(), SumWeights);
    }
    assert TableWeight(t1) == TableWeight(t);
    SumByUpdate(t1.keys, t1.items, key, p2, SumWeights);
  }

  /** The position fetched or created in a well-formed book is well formed. */
  lemma GetPositionValid(t: Table, key: string)
    requires WellFormed(t)
    ensures Valid(GetPosition(t, key).items[key])
  {
  }

  /** The accumulation step as fetch-or-create followed by an update. */
  lemma AddPlyUnfold(t: Table, key: string, m: Move, s: nat)
    ensures AddPly(t, key, m, s)
         == Update(GetPosition(t, key), key, CreditMove(GetPosition(t, key).items[key], Uci(m), m, s))
  {
  }

  /** Each step adds its score to the book's total weight and nothing else. */
  lemma AddPlyWeight(t: Table, key: string, m: Move, s: nat)
    requires WellFormed(t)
    ensures TableWeight(AddPly(t, key, m, s)) == TableWeight(t) + s
  {
    GetPositionValid(t, key);
    PositionGain(GetPosition(t, key).items[key], Uci(m), m, s);
    TableGain(t, key, CreditMove(GetPosition(t, key).items[key], Uci(m), m, s));
    AddPlyUnfold(t, key, m, s);
  }

  /** Consuming plies adds exactly their scores to the book's total weight. */
  lemma {:induction false} AddPliesWeight(t: Table, ps: seq<Ply>, result: string)
    requires WellFormed(t)
    ensures TableWeight(AddPlies(t, ps, result)) == TableWeight(t) + PliesScore(ps, result)
  {
    if ps != [] {
      var p := ps[|ps| - 1];
      AddPliesWeight(t, ps[..|ps| - 1], result);
      AddPliesWellFormed(t, ps[..|ps| - 1], result);
      AddPlyWeight(AddPlies(t, ps[..|ps| - 1], result), FormatZobristKeyHex(p.key), p.move, Score(result, p.turn));
    }
  }

  /** A game of the book's variant adds exactly the scores of its first 20 plies to the
      total weight; a game of another variant adds nothing. */
  lemma AddGameWeight(t: Table, g: Game, variant: string)
    requires WellFormed(t)
    ensures TableWeight(AddGame(t, g, variant))
         == TableWeight(t) + (if IsVariant(g, variant) then PliesScore(OpeningPlies(g, MaxBookPlies), GameResult(g)) else 0)
  {
    if IsVariant(g, variant) {
      AddPliesWeight(t, OpeningPlies(g, MaxBookPlies), GameResult(g));
    }
  }

  // ---------------------------------------------------------------------------
  // The invariant of every book built from games

  /** The key is the hexadecimal form of some Zobrist key. */
  ghost predicate IsKeyHex(k: string)
  {
    exists z: u64 :: FormatZobristKeyHex(z) == k
  }

  /** Every game the supply yields is legal chess: no move promotes to a pawn. */
  predicate LegalGame(g: Game)
  {
    forall i | 0 <= i < |g.plies| :: PromotesLegally(g.plies[i].move)
  }

  /** What accumulation guarantees about the book it builds: keys are Zobrist keys in
      hexadecimal, and each entry holds the (legal) move whose UCI text is its key. */
  ghost predicate Consistent(t: Table)
  {
    && WellFormed(t)
    && (forall k | k in t.items :: IsKeyHex(k))
    && (forall k, u | k in t.items && u in t.items[k].items ::
          && t.items[k].items[u].move.Some?
          && Uci(t.items[k].items[u].move.value) == u
          && PromotesLegally(t.items[k].items[u].move.value))
  }

  lemma AddPlyConsistent(t: Table, z: u64, m: Move, s: nat)
    requires Consistent(t) && PromotesLegally(m)
    ensures Consistent(AddPly(t, FormatZobristKeyHex(z), m, s))
  {
    var key := FormatZobristKeyHex(z);
    var r := AddPly(t, key, m, s);
    AddPlyWellFormed(t, key, m, s);
    AddPlyChangesOneEntry(t, key, m, s);
    forall k | k in r.items ensures IsKeyHex(k) {
      if k == key {
        assert FormatZobristKeyHex(z) == k;
      }
    }
    forall k, u | k in r.items && u in r.items[k].items
      ensures && r.items[k].items[u].move.Some?
              && Uci(r.items[k].items[u].move.value) == u
              && PromotesLegally(r.items[k].items[u].move.value)
    {
      if k != key {
        assert r.items[k] == t.items[k];
      } else if u != Uci(m) {
        assert r.items[k].items[u] == t.items[k].items[u];
      }
    }
  }

  lemma {:induction false} AddPliesConsistent(t: Table, ps: seq<Ply>, result: string)
    requires Consistent(t)
    requires forall i | 0 <= i < |ps| :: PromotesLegally(ps[i].move)
    ensures Consistent(AddPlies(t, ps, result))
  {
    if ps != [] {
      var p := ps[|ps| - 1];
      AddPliesConsistent(t, ps[..|ps| - 1], result);
      AddPlyConsistent(AddPlies(t, ps[..|ps| - 1], result), p.key, p.move, Score(result, p.turn));
    }
  }

  /** Books built from legal games keep the invariant, starting from the empty book. */
  lemma {:induction false} AddGamesConsistent(t: Table, gs: seq<Game>, variant: string)
    requires Consistent(t)
    requires forall i | 0 <= i < |gs| :: LegalGame(gs[i])
    ensures Consistent(AddGames(t, gs, variant))
  {
    if gs != [] {
      var g := gs[|gs| - 1];
      AddGamesConsistent(t, gs[..|gs| - 1], variant);
      if IsVariant(g, variant) {
        var ps := OpeningPlies(g, MaxBookPlies);
        assert forall i | 0 <= i < |ps| :: PromotesLegally(ps[i].move) by {
          forall i | 0 <= i < |ps| ensures PromotesLegally(ps[i].move) {
            assert ps[i] == g.plies[i];
          }
        }
        AddPliesConsistent(AddGames(t, gs[..|gs| - 1], variant), ps, GameResult(g));
      }
    }
  }

  lemma EmptyConsistent()
    ensures Consistent(Empty())
  {
  }

  // ---------------------------------------------------------------------------
  // Normalisation (create_polyglot.py:33-38)

  /** A weight on the 0..MAX_BOOK_WEIGHT scale: floor(w * 10000 / total). */
  function Rescale(w: nat, total: nat): nat
    requires total > 0
  {
    w * MaxBookWeight / total
  }

  /** A position after normalisation: a zero total leaves it as it is, otherwise every
      weight is rescaled against the total taken before any of them changed. */
  function NormalizePosition(p: PositionTable): (r: PositionTable)
    ensures r.keys == p.keys && r.items.Keys == p.items.Keys
    ensures forall u | u in p.items :: r.items[u].move == p.items[u].move
  {
    var total := SumWeights(p);
    if total == 0 then p else Dict(p.keys, RescaledItems(p.items, total))
  }

  function RescaledItems(items: map<string, Entry>, total: nat): (r: map<string, Entry>)
    requires total > 0
    ensures r.Keys == items.Keys
  {
    map u | u in items :: Entry(Rescale(items[u].weight, total), items[u].move)
  }

  /** `normalize_weights`: every position normalised on its own; no position and no
      move is added or removed, and the order is kept. */
  function NormalizeTable(t: Table): (r: Table)
    ensures r.keys == t.keys && r.items.Keys == t.items.Keys
    ensures forall k | k in t.items :: r.items[k].keys == t.items[k].keys && r.items[k].items.Keys == t.items[k].items.Keys
  {
    Dict(t.keys, map k | k in t.items :: NormalizePosition(t.items[k]))
  }

  /** The book part-way through `normalize_weights`: the positions of the first n keys
      normalised, the others as they were. */
  function NormalizeFirst(t: Table, n: nat): (r: Table)
    requires n <= |t.keys|
    ensures r.keys == t.keys && r.items.Keys == t.items.Keys
  {
    Dict(t.keys, map k | k in t.items :: if k in t.keys[..n] then NormalizePosition(t.items[k]) else t.items[k])
  }

  /** In a list without repeats, an element does not occur before its own index. */
  lemma NotBefore(ks: seq<string>, i: nat)
    requires Distinct(ks) && i < |ks|
    ensures ks[i] !in ks[..i]
  {
    forall j | 0 <= j < i ensures ks[..i][j] != ks[i] {
      assert ks[j] != ks[i];
    }
  }

  /** Normalising the next position extends the normalised prefix by one key, and that
      position is still untouched before its turn. */
  lemma NormalizeFirstStep(t: Table, i: nat)
    requires Valid(t) && i < |t.keys|
    ensures t.keys[i] in t.items && NormalizeFirst(t, i).items[t.keys[i]] == t.items[t.keys[i]]
    ensures Update(NormalizeFirst(t, i), t.keys[i], NormalizePosition(t.items[t.keys[i]])) == NormalizeFirst(t, i + 1)
  {
    NotBefore(t.keys, i);
    assert t.keys[..i + 1] == t.keys[..i] + [t.keys[i]];
    forall k | k in t.items
      ensures Update(NormalizeFirst(t, i), t.keys[i], NormalizePosition(t.items[t.keys[i]])).items[k]
           == NormalizeFirst(t, i + 1).items[k]
    {
    }
  }

  /** Once every key has had its turn, the whole book is normalised. */
  lemma NormalizeFirstAll(t: Table)
    requires Valid(t)
    ensures NormalizeFirst(t, |t.keys|) == NormalizeTable(t)
  {
    assert t.keys[..|t.keys|] == t.keys;
  }

  /** A position that has no weight at all is left unchanged. */
  lemma ZeroTotalUnchanged(p: PositionTable)
    requires SumWeights(p) == 0
    ensures NormalizePosition(p) == p
  {
  }

  lemma RescaleBound(w: nat, total: nat)
    requires 0 < total && w <= total
    ensures Rescale(w, total) <= MaxBookWeight
  {
    MulMonotone(MaxBookWeight, w, total);
    DivMonotone(w * MaxBookWeight, total * MaxBookWeight, total);
    MulDivCancel(MaxBookWeight, total);
  }

  lemma RescaleMonotone(w1: nat, w2: nat, total: nat)
    requires 0 < total && w1 <= w2
    ensures Rescale(w1, total) <= Rescale(w2, total)
  {
    MulMonotone(MaxBookWeight, w1, w2);
    DivMonotone(w1 * MaxBookWeight, w2 * MaxBookWeight, total);
  }

  /** After normalisation a position's weights are at most MAX_BOOK_WEIGHT, and the
      order of two weights is kept (never reversed). */
  lemma NormalizedWeights(p: PositionTable, u1: string, u2: string)
    requires Valid(p) && SumWeights(p) > 0
    requires u1 in p.items && u2 in p.items
    ensures var r := NormalizePosition(p);
      && r.items[u1].weight <= MaxBookWeight
      && (p.items[u1].weight <= p.items[u2].weight ==> r.items[u1].weight <= r.items[u2].weight)
      && (r.items[u1].weight < r.items[u2].weight ==> p.items[u1].weight < p.items[u2].weight)
  {
    var total := SumWeights(p);
    SumByBound(p.keys, p.items, u1, (e: Entry) => e.weight);
    RescaleBound(p.items[u1].weight, total);
    if p.items[u1].weight <= p.items[u2].weight {
      RescaleMonotone(p.items[u1].weight, p.items[u2].weight, total);
    } else {
      RescaleMonotone(p.items[u2].weight, p.items[u1].weight, total);
    }
  }

  lemma RescaleTimesTotal(w: nat, total: nat)
    requires total > 0
    ensures Rescale(w, total) * total <= w * MaxBookWeight
  {
  }

  lemma {:induction false} RescaledSum(ks: seq<string>, p: PositionTable, total: nat)
    requires total > 0
    ensures SumBy(ks, RescaledItems(p.items, total), (e: Entry) => e.weight) * total
         <= MaxBookWeight * SumBy(ks, p.items, (e: Entry) => e.weight)
  {
    if ks != [] {
      RescaledSum(ks[..|ks| - 1], p, total);
      if ks[|ks| - 1] in p.items {
        RescaleTimesTotal(p.items[ks[|ks| - 1]].weight, total);
        SumStep(SumBy(ks[..|ks| - 1], RescaledItems(p.items, total), (e: Entry) => e.weight),
                SumBy(ks[..|ks| - 1], p.items, (e: Entry) => e.weight),
                Rescale(p.items[ks[|ks| - 1]].weight, total), p.items[ks[|ks| - 1]].weight, total);
      }
    }
  }

  /** One more summand on both sides of the scaled bound. */
  lemma SumStep(a: nat, b: nat, r: nat, w: nat, total: nat)
    requires a * total <= MaxBookWeight * b && r * total <= w * MaxBookWeight
    ensures (a + r) * total <= MaxBookWeight * (b + w)
  {
    calc {
      (a + r) * total;
      a * total + r * total;
    <= MaxBookWeight * b + w * MaxBookWeight;
      MaxBookWeight * (b + w);
    }
  }

  /** The normalised weights of a position sum to at most MAX_BOOK_WEIGHT. */
  lemma NormalizedSumBound(p: PositionTable)
    requires SumWeights(p) > 0
    ensures SumWeights(NormalizePosition(p)) <= MaxBookWeight
  {
    var total := SumWeights(p);
    RescaledSum(p.keys, p, total);
    var n := SumWeights(NormalizePosition(p));
    assert total * n <= total * MaxBookWeight;
    MulCancelLe(n, MaxBookWeight, total);
  }

  /** Normalising keeps the book well formed. */
  lemma NormalizeWellFormed(t: Table)
    requires WellFormed(t)
    ensures WellFormed(NormalizeTable(t))
  {
  }

  /** Normalising keeps the book's invariant. */
  lemma NormalizeConsistent(t: Table)
    requires Consistent(t)
    ensures Consistent(NormalizeTable(t))
  {
  }

  /** Raw weights 6 and 2 in one position become 7500 and 2500. */
  lemma NormalizeSixAndTwo(a: Move, b: Move)
    requires Uci(a) != Uci(b)
    ensures var p := Dict([Uci(a), Uci(b)], map[Uci(a) := Entry(6, Some(a)), Uci(b) := Entry(2, Some(b))]);
      var r := NormalizePosition(p);
      r.items[Uci(a)].weight == 7500 && r.items[Uci(b)].weight == 2500
  {
    var p := Dict([Uci(a), Uci(b)], map[Uci(a) := Entry(6, Some(a)), Uci(b) := Entry(2, Some(b))]);
    var f := (e: Entry) => e.weight;
    assert [Uci(a), Uci(b)][..1] == [Uci(a)];
    assert [Uci(a)][..0] == [];
    assert SumBy([Uci(a)], p.items, f) == 6;
    assert SumWeights(p) == SumBy([Uci(a)], p.items, f) + 2;
  }
}

/** The byte image `save_as_polyglot` writes (create_polyglot.py:40-60): one 16-byte
    record per move of positive weight, key ‖ move index ‖ weight ‖ learn, all big
    endian, sorted by `(e[:8], e[10:12])`, or the exception the loop raises first. */
module BookRecords {
  import opened Wrappers
  import opened Bytes
  import opened Hex
  import opened Moves
  import opened Dicts
  import opened BookTable
  import opened RecordSort

  /** The exceptions the save loop can raise, with the entry it was at. */
  datatype SaveError =
    | BadKeyHex(key: string)                               // `bytes.fromhex` ValueError
    | MissingMove(key: string, uci: string)                // `bm.move` is None: AttributeError
    | WeightOverflow(key: string, uci: string, weight: nat) // `to_bytes(2)` OverflowError

  /** `zbytes + mbytes + wbytes + lbytes`. */
  function MakeRecord(zb: seq<byte>, mi: nat, w: nat): (r: seq<byte>)
    requires mi < 0x1_0000 && w < 0x1_0000
    ensures |r| == |zb| + 8
  {
    zb + ToBytesBE(mi, 2) + ToBytesBE(w, 2) + ToBytesBE(0, 4)
  }

  /** An entry the loop can encode without raising. */
  predicate EntryEncodable(e: Entry)
  {
    e.weight == 0 || (e.move.Some? && e.weight < 0x1_0000)
  }

  /** The inner loop body for one `(uci, bm)`: skipped when the weight is not positive,
      otherwise the record, unless the move is missing or the weight does not fit. */
  function EntryRecord(key: string, zb: seq<byte>, uci: string, e: Entry): (r: Result<Option<seq<byte>>, SaveError>)
    ensures r.Ok? <==> EntryEncodable(e)
    ensures r.Ok? ==> (r.value.Some? <==> e.weight > 0)
  {
    if e.weight == 0 then Ok(None)
    else if e.move.None? then Err(MissingMove(key, uci))
    else if e.weight >= 0x1_0000 then Err(WeightOverflow(key, uci, e.weight))
    else Ok(Some(MakeRecord(zb, MoveIndex(e.move.value), e.weight)))
  }

  /** The records of one position, in the order of its moves. */
  function PositionRecords(key: string, zb: seq<byte>, ucis: seq<string>, items: map<string, Entry>): Result<seq<seq<byte>>, SaveError>
  {
    if ucis == [] then Ok([])
    else
      var u := ucis[|ucis| - 1];
      match PositionRecords(key, zb, ucis[..|ucis| - 1], items)
      case Err(err) => Err(err)
      case Ok(rs) =>
        if u !in items then Ok(rs)
        else match EntryRecord(key, zb, u, items[u])
          case Err(err) => Err(err)
          case Ok(o) => Ok(if o.Some? then rs + [o.value] else rs)
  }

  /** `entries` after the nested loops: positions in order, moves in order. */
  function TableRecords(ks: seq<string>, items: map<string, PositionTable>): Result<seq<seq<byte>>, SaveError>
  {
    if ks == [] then Ok([])
    else
      var k := ks[|ks| - 1];
      match TableRecords(ks[..|ks| - 1], items)
      case Err(err) => Err(err)
      case Ok(rs) =>
        if k !in items then Ok(rs)
        else match FromHex(k)
          case None => Err(BadKeyHex(k))
          case Some(zb) =>
            match PositionRecords(k, zb, items[k].keys, items[k].items)
            case Err(err) => Err(err)
            case Ok(prs) => Ok(rs + prs)
  }

  /** `entries` after `entries.sort(...)`. */
  function SortedRecords(t: Table): Result<seq<seq<byte>>, SaveError>
  {
    match TableRecords(t.keys, t.items)
    case Err(err) => Err(err)
    case Ok(rs) => Ok(SortRecords(rs))
  }

  /** The records written one after the other. */
  function Flatten(rs: seq<seq<byte>>): seq<byte>
  {
    if rs == [] then [] else Flatten(rs[..|rs| - 1]) + rs[|rs| - 1]
  }

  /** The bytes of the book file, or the exception. */
  function SaveSpec(t: Table): Result<seq<byte>, SaveError>
  {
    match SortedRecords(t)
    case Err(err) => Err(err)
    case Ok(rs) => Ok(Flatten(rs))
  }

  // ---------------------------------------------------------------------------
  // Record layout

  /** A record reads back as the key, the move, the weight and a zero learn field, and
      its sort key is the key bytes followed by the weight bytes. */
  lemma RecordLayout(z: u64, m: Move, w: nat)
    requires PromotesLegally(m) && w < 0x1_0000
    ensures Pow256(8) == 0x1_0000_0000_0000_0000
    ensures var r := MakeRecord(ToBytesBE(z, 8), MoveIndex(m), w);
      && |r| == 16
      && FromBytesBE(r[..8]) == z
      && FromBytesBE(r[8..10]) < 6 * 4096
      && DecodeMoveIndex(FromBytesBE(r[8..10])) == m
      && FromBytesBE(r[10..12]) == w
      && r[12..] == [0, 0, 0, 0]
      && SortKey(r) == (ToBytesBE(z, 8), ToBytesBE(w, 2))
  {
    var zb, mb, wb, lb := ToBytesBE(z, 8), ToBytesBE(MoveIndex(m), 2), ToBytesBE(w, 2), ToBytesBE(0, 4);
    var r := MakeRecord(zb, MoveIndex(m), w);
    assert r[..8] == zb && r[8..10] == mb && r[10..12] == wb && r[12..] == lb;
    BytesRoundTrip(z, 8);
    BytesRoundTrip(MoveIndex(m), 2);
    BytesRoundTrip(w, 2);
    MoveIndexRoundTrip(m);
  }

  /** The file is the sorted records back to back: 16 bytes each, record i at 16 * i. */
  lemma {:induction false} FlattenRecords(rs: seq<seq<byte>>, i: nat)
    requires forall j | 0 <= j < |rs| :: |rs[j]| == 16
    requires i < |rs|
    ensures |Flatten(rs)| == 16 * |rs|
    ensures Flatten(rs)[16 * i..16 * i + 16] == rs[i]
  {
    FlattenLength(rs);
    var init := rs[..|rs| - 1];
    FlattenLength(init);
    if i < |rs| - 1 {
      FlattenRecords(init, i);
      assert Flatten(rs)[16 * i..16 * i + 16] == Flatten(init)[16 * i..16 * i + 16];
    } else {
      assert Flatten(rs)[16 * i..16 * i + 16] == rs[|rs| - 1];
    }
  }

  lemma {:induction false} FlattenLength(rs: seq<seq<byte>>)
    requires forall j | 0 <= j < |rs| :: |rs[j]| == 16
    ensures |Flatten(rs)| == 16 * |rs|
  {
    if rs != [] {
      FlattenLength(rs[..|rs| - 1]);
    }
  }

  // ---------------------------------------------------------------------------
  // When the save succeeds

  predicate PositionEncodable(ucis: seq<string>, items: map<string, Entry>)
  {
    forall u | u in ucis && u in items :: EntryEncodable(items[u])
  }

  predicate TableEncodable(ks: seq<string>, items: map<string, PositionTable>)
  {
    forall k | k in ks && k in items ::
      FromHex(k).Some? && PositionEncodable(items[k].keys, items[k].items)
  }

  lemma {:induction false} PositionRecordsOk(key: string, zb: seq<byte>, ucis: seq<string>, items: map<string, Entry>)
    ensures PositionRecords(key, zb, ucis, items).Ok? <==> PositionEncodable(ucis, items)
  {
    if ucis != [] {
      var init := ucis[..|ucis| - 1];
      PositionRecordsOk(key, zb, init, items);
      assert ucis == init + [ucis[|ucis| - 1]];
    }
  }

  lemma {:induction false} TableRecordsOk(ks: seq<string>, items: map<string, PositionTable>)
    ensures TableRecords(ks, items).Ok? <==> TableEncodable(ks, items)
  {
    if ks != [] {
      var init, k := ks[..|ks| - 1], ks[|ks| - 1];
      TableRecordsOk(init, items);
      assert ks == init + [k];
      if k in items && FromHex(k).Some? {
        PositionRecordsOk(k, FromHex(k).value, items[k].keys, items[k].items);
      }
    }
  }

  /** The save succeeds exactly when every key is hexadecimal and every move of
      positive weight has its move set and a weight below 65536. */
  lemma SaveSucceeds(t: Table)
    requires WellFormed(t)
    ensures SaveSpec(t).Ok? <==>
      && (forall k | k in t.items :: FromHex(k).Some?)
      && (forall k, u | k in t.items && u in t.items[k].items :: EntryEncodable(t.items[k].items[u]))
  {
    TableRecordsOk(t.keys, t.items);
  }

  /** Once a prefix of the moves raised, the whole position raises the same way. */
  lemma {:induction false} PositionRecordsErrorStays(key: string, zb: seq<byte>, ucis: seq<string>, items: map<string, Entry>, n: nat)
    requires n <= |ucis| && PositionRecords(key, zb, ucis[..n], items).Err?
    ensures PositionRecords(key, zb, ucis, items) == PositionRecords(key, zb, ucis[..n], items)
  {
    if n < |ucis| {
      assert ucis[..|ucis| - 1][..n] == ucis[..n];
      PositionRecordsErrorStays(key, zb, ucis[..|ucis| - 1], items, n);
    } else {
      assert ucis[..n] == ucis;
    }
  }

  /** Once a prefix of the positions raised, the whole book raises the same way. */
  lemma {:induction false} TableRecordsErrorStays(ks: seq<string>, items: map<string, PositionTable>, n: nat)
    requires n <= |ks| && TableRecords(ks[..n], items).Err?
    ensures TableRecords(ks, items) == TableRecords(ks[..n], items)
  {
    if n < |ks| {
      assert ks[..|ks| - 1][..n] == ks[..n];
      TableRecordsErrorStays(ks[..|ks| - 1], items, n);
    } else {
      assert ks[..n] == ks;
    }
  }

  lemma {:induction false} PositionRecordsError(key: string, zb: seq<byte>, ucis: seq<string>, items: map<string, Entry>)
    requires PositionRecords(key, zb, ucis, items).Err?
    ensures match PositionRecords(key, zb, ucis, items).error
      case MissingMove(k, u) => k == key && u in ucis && u in items && items[u].weight > 0 && items[u].move.None?
      case WeightOverflow(k, u, w) => k == key && u in ucis && u in items && items[u].weight == w >= 0x1_0000
      case BadKeyHex(_) => false
  {
    var init := ucis[..|ucis| - 1];
    if PositionRecords(key, zb, init, items).Err? {
      PositionRecordsError(key, zb, init, items);
    }
  }

  lemma {:induction false} TableRecordsError(ks: seq<string>, items: map<string, PositionTable>)
    requires TableRecords(ks, items).Err?
    ensures match TableRecords(ks, items).error
      case BadKeyHex(k) => k in ks && k in items && FromHex(k).None?
      case MissingMove(k, u) =>
        k in ks && k in items && u in items[k].items && items[k].items[u].weight > 0 && items[k].items[u].move.None?
      case WeightOverflow(k, u, w) =>
        k in ks && k in items && u in items[k].items && items[k].items[u].weight == w >= 0x1_0000
  {
    var init, k := ks[..|ks| - 1], ks[|ks| - 1];
    if TableRecords(init, items).Err? {
      TableRecordsError(init, items);
    } else if FromHex(k).Some? {
      PositionRecordsError(k, FromHex(k).value, items[k].keys, items[k].items);
    }
  }

  /** A failed save names an entry that really is bad: a key that is not hexadecimal,
      or a move of positive weight with no move set or a weight above 65535. */
  lemma SaveErrorIsGenuine(t: Table)
    requires SaveSpec(t).Err?
    ensures match SaveSpec(t).error
      case BadKeyHex(k) => k in t.items && FromHex(k).None?
      case MissingMove(k, u) =>
        k in t.items && u in t.items[k].items && t.items[k].items[u].weight > 0 && t.items[k].items[u].move.None?
      case WeightOverflow(k, u, w) =>
        k in t.items && u in t.items[k].items && t.items[k].items[u].weight == w >= 0x1_0000
  {
    TableRecordsError(t.keys, t.items);
  }

  // ---------------------------------------------------------------------------
  // What the records are

  /** 1 for a move that gets a record, 0 for one that is skipped. */
  function Positive(e: Entry): nat
  {
    if e.weight > 0 then 1 else 0
  }

  /** The number of moves of positive weight in a position. */
  function PositiveMoves(p: PositionTable): nat
  {
    SumBy(p.keys, p.items, Positive)
  }

  lemma {:induction false} PositionRecordsCount(key: string, zb: seq<byte>, ucis: seq<string>, items: map<string, Entry>)
    requires PositionRecords(key, zb, ucis, items).Ok?
    ensures |PositionRecords(key, zb, ucis, items).value| == SumBy(ucis, items, Positive)
  {
    if ucis != [] {
      PositionRecordsCount(key, zb, ucis[..|ucis| - 1], items);
    }
  }

  lemma {:induction false} TableRecordsCount(ks: seq<string>, items: map<string, PositionTable>)
    requires TableRecords(ks, items).Ok?
    ensures |TableRecords(ks, items).value| == SumBy(ks, items, PositiveMoves)
  {
    if ks != [] {
      var k := ks[|ks| - 1];
      TableRecordsCount(ks[..|ks| - 1], items);
      if k in items {
        PositionRecordsCount(k, FromHex(k).value, items[k].keys, items[k].items);
      }
    }
  }

  /** A successful save writes one record per move of positive weight, over all
      positions: `len(entries)` is that count. */
  lemma SaveCount(t: Table)
    requires SortedRecords(t).Ok?
    ensures |SortedRecords(t).value| == SumBy(t.keys, t.items, PositiveMoves)
  {
    TableRecordsCount(t.keys, t.items);
  }

  lemma {:induction false} PositionRecordsContents(key: string, zb: seq<byte>, ucis: seq<string>, items: map<string, Entry>, r: seq<byte>)
    requires PositionRecords(key, zb, ucis, items).Ok?
    ensures r in PositionRecords(key, zb, ucis, items).value <==>
      exists u :: u in ucis && u in items && EntryRecord(key, zb, u, items[u]) == Ok(Some(r))
  {
    if ucis != [] {
      var init := ucis[..|ucis| - 1];
      PositionRecordsSnoc(key, zb, ucis, items);
      PositionRecordsContents(key, zb, init, items, r);
      EntryRecordSnoc(key, zb, ucis, items, r);
    }
  }

  /** The records of one more move. */
  lemma PositionRecordsSnoc(key: string, zb: seq<byte>, ucis: seq<string>, items: map<string, Entry>)
    requires ucis != [] && PositionRecords(key, zb, ucis, items).Ok?
    ensures PositionRecords(key, zb, ucis[..|ucis| - 1], items).Ok?
    ensures var last := ucis[|ucis| - 1];
      PositionRecords(key, zb, ucis, items).value
        == PositionRecords(key, zb, ucis[..|ucis| - 1], items).value
           + (if last in items && EntryRecord(key, zb, last, items[last]).value.Some?
              then [EntryRecord(key, zb, last, items[last]).value.value] else [])
  {
  }

  lemma EntryRecordSnoc(key: string, zb: seq<byte>, ucis: seq<string>, items: map<string, Entry>, r: seq<byte>)
    requires ucis != []
    ensures (exists u :: u in ucis && u in items && EntryRecord(key, zb, u, items[u]) == Ok(Some(r)))
        <==> || (exists u :: u in ucis[..|ucis| - 1] && u in items && EntryRecord(key, zb, u, items[u]) == Ok(Some(r)))
             || (ucis[|ucis| - 1] in items && EntryRecord(key, zb, ucis[|ucis| - 1], items[ucis[|ucis| - 1]]) == Ok(Some(r)))
  {
    var init, last := ucis[..|ucis| - 1], ucis[|ucis| - 1];
    assert ucis == init + [last];
    if exists u :: u in ucis && u in items && EntryRecord(key, zb, u, items[u]) == Ok(Some(r)) {
      var u :| u in ucis && u in items && EntryRecord(key, zb, u, items[u]) == Ok(Some(r));
      if u != last {
        assert u in init;
      }
    }
  }

  lemma {:induction false} TableRecordsContents(ks: seq<string>, items: map<string, PositionTable>, r: seq<byte>)
    requires TableRecords(ks, items).Ok?
    ensures r in TableRecords(ks, items).value <==>
      exists k, u :: && k in ks && k in items && FromHex(k).Some?
                     && u in items[k].keys && u in items[k].items
                     && EntryRecord(k, FromHex(k).value, u, items[k].items[u]) == Ok(Some(r))
  {
    if ks != [] {
      var init, last := ks[..|ks| - 1], ks[|ks| - 1];
      TableRecordsContents(init, items, r);
      assert ks == init + [last];
      if last in items {
        var p := items[last];
        PositionRecordsContents(last, FromHex(last).value, p.keys, p.items, r);
      }
      if exists k, u :: && k in ks && k in items && FromHex(k).Some?
                        && u in items[k].keys && u in items[k].items
                        && EntryRecord(k, FromHex(k).value, u, items[k].items[u]) == Ok(Some(r)) {
        var k, u :| && k in ks && k in items && FromHex(k).Some?
                    && u in items[k].keys && u in items[k].items
                    && EntryRecord(k, FromHex(k).value, u, items[k].items[u]) == Ok(Some(r));
        if k != last {
          assert k in init;
        }
      }
    }
  }

  /** r is the record of move u under the position with Zobrist key z. */
  predicate RecordAt(t: Table, z: u64, u: string, r: seq<byte>)
  {
    var k := FormatZobristKeyHex(z);
    && k in t.items && u in t.items[k].items
    && var e := t.items[k].items[u];
    && e.weight > 0 && e.move.Some? && e.weight < 0x1_0000
    && r == MakeRecord(ToBytesBE(z, 8), MoveIndex(e.move.value), e.weight)
  }

  lemma UnsortedRecordIsBookRecord(t: Table, r: seq<byte>)
    requires Consistent(t) && TableRecords(t.keys, t.items).Ok?
    requires r in TableRecords(t.keys, t.items).value
    ensures |r| == 16 && exists z: u64, u :: RecordAt(t, z, u, r)
  {
    TableRecordsContents(t.keys, t.items, r);
    var k, u :| && k in t.keys && k in t.items && FromHex(k).Some?
                && u in t.items[k].keys && u in t.items[k].items
                && EntryRecord(k, FromHex(k).value, u, t.items[k].items[u]) == Ok(Some(r));
    var z: u64 :| FormatZobristKeyHex(z) == k;
    KeyHexRoundTrip(z);
    EncodedEntryIsRecordAt(t, z, u, r);
  }

  lemma EncodedEntryIsRecordAt(t: Table, z: u64, u: string, r: seq<byte>)
    requires FormatZobristKeyHex(z) in t.items && u in t.items[FormatZobristKeyHex(z)].items
    requires EntryRecord(FormatZobristKeyHex(z), ToBytesBE(z, 8), u, t.items[FormatZobristKeyHex(z)].items[u]) == Ok(Some(r))
    ensures |r| == 16 && RecordAt(t, z, u, r)
  {
  }

  lemma BookRecordIsUnsortedRecord(t: Table, z: u64, u: string, r: seq<byte>)
    requires Consistent(t) && TableRecords(t.keys, t.items).Ok?
    requires RecordAt(t, z, u, r)
    ensures r in TableRecords(t.keys, t.items).value
  {
    var k := FormatZobristKeyHex(z);
    KeyHexRoundTrip(z);
    assert k in t.keys && u in t.items[k].keys;
    assert EntryRecord(k, FromHex(k).value, u, t.items[k].items[u]) == Ok(Some(r));
    TableRecordsContents(t.keys, t.items, r);
  }

  /** In a book built from games, every record written is 16 bytes long and is the
      record of a move of positive weight under its Zobrist key, and every such move
      has one. */
  lemma SavedRecords(t: Table, r: seq<byte>)
    requires Consistent(t) && SortedRecords(t).Ok?
    ensures r in SortedRecords(t).value ==> |r| == 16
    ensures r in SortedRecords(t).value <==> exists z: u64, u :: RecordAt(t, z, u, r)
  {
    var rs := TableRecords(t.keys, t.items).value;
    assert r in SortedRecords(t).value <==> r in rs by {
      assert r in SortedRecords(t).value <==> r in multiset(SortedRecords(t).value);
    }
    if r in rs {
      UnsortedRecordIsBookRecord(t, r);
    }
    if exists z: u64, u :: RecordAt(t, z, u, r) {
      var z: u64, u :| RecordAt(t, z, u, r);
      BookRecordIsUnsortedRecord(t, z, u, r);
    }
  }

  // ---------------------------------------------------------------------------
  // The order of the file

  lemma SortKeyOfRecord(r: seq<byte>)
    requires |r| == 16
    ensures SortKey(r) == (r[..8], r[10..12])
  {
  }

  /** Records come in non-decreasing order of Zobrist key, read as a 64-bit number, and
      within one key in non-decreasing order of weight (the secondary key is
      `e[10:12]`, the weight bytes, not the move bytes). */
  lemma SavedOrder(t: Table, i: nat, j: nat)
    requires Consistent(t) && SortedRecords(t).Ok?
    requires i < j < |SortedRecords(t).value|
    ensures |SortedRecords(t).value[i]| == 16 && |SortedRecords(t).value[j]| == 16
    ensures var rs := SortedRecords(t).value;
      && FromBytesBE(rs[i][..8]) <= FromBytesBE(rs[j][..8])
      && (rs[i][..8] == rs[j][..8] ==> FromBytesBE(rs[i][10..12]) <= FromBytesBE(rs[j][10..12]))
  {
    var rs := SortedRecords(t).value;
    SavedRecords(t, rs[i]);
    SavedRecords(t, rs[j]);
    SortRecordsSorted(TableRecords(t.keys, t.items).value);
    assert !KeyLess(rs[j], rs[i]);
    SortKeyOfRecord(rs[i]);
    SortKeyOfRecord(rs[j]);
    LexLeTotal(rs[i][..8], rs[j][..8]);
    LexLeTotal(rs[i][10..12], rs[j][10..12]);
    LexLeIsNumericOrder(rs[i][..8], rs[j][..8]);
    LexLeIsNumericOrder(rs[i][10..12], rs[j][10..12]);
  }

  /** Records of one position whose weights are equal stay in the order the position's
      moves were first seen (the sort is stable). */
  lemma SavedTiesKeepOrder(t: Table, k: (seq<byte>, seq<byte>))
    requires SortedRecords(t).Ok?
    ensures WithKey(SortedRecords(t).value, k) == WithKey(TableRecords(t.keys, t.items).value, k)
  {
    SortRecordsStable(TableRecords(t.keys, t.items).value, k);
  }

  lemma SmallRecord(zb: seq<byte>, mi: byte, w: byte)
    ensures MakeRecord(zb, mi, w) == zb + [0, mi, 0, w, 0, 0, 0, 0]
  {
    assert ToBytesBE(mi, 2) == ToBytesBE(0, 1) + [mi];
    assert ToBytesBE(w, 2) == ToBytesBE(0, 1) + [w];
    assert ToBytesBE(0, 4) == ToBytesBE(0, 3) + [0];
    assert ToBytesBE(0, 3) == ToBytesBE(0, 2) + [0];
  }

  /** Two records of one key: weight 9 with move index 3, then weight 2 with move index
      5. The file puts the lighter one first, though its move index is larger. */
  lemma SecondaryKeyIsWeight()
    ensures var zb := [0, 0, 0, 0, 0, 0, 0, 1];
      var heavy, light := MakeRecord(zb, 3, 9), MakeRecord(zb, 5, 2);
      SortRecords([heavy, light]) == [light, heavy]
  {
    LighterFirst([0, 0, 0, 0, 0, 0, 0, 1]);
    SortSwapsPair(MakeRecord([0, 0, 0, 0, 0, 0, 0, 1], 3, 9), MakeRecord([0, 0, 0, 0, 0, 0, 0, 1], 5, 2));
  }

  lemma LighterFirst(zb: seq<byte>)
    requires |zb| == 8
    ensures KeyLess(MakeRecord(zb, 5, 2), MakeRecord(zb, 3, 9))
  {
    SmallRecord(zb, 3, 9);
    SmallRecord(zb, 5, 2);
    assert LexLt([0, 2], [0, 9]);
    SameKeyByWeight(zb, [0, 3, 0, 9, 0, 0, 0, 0], [0, 5, 0, 2, 0, 0, 0, 0]);
  }

  /** Two records of one key compare by their weight bytes. */
  lemma SameKeyByWeight(zb: seq<byte>, x: seq<byte>, y: seq<byte>)
    requires |zb| == 8 && |x| == 8 && |y| == 8
    requires LexLt(y[2..4], x[2..4])
    ensures KeyLess(zb + y, zb + x)
  {
    SortKeyOfRecord(zb + x);
    SortKeyOfRecord(zb + y);
    assert (zb + x)[..8] == zb && (zb + x)[10..12] == x[2..4];
    assert (zb + y)[..8] == zb && (zb + y)[10..12] == y[2..4];
  }

  lemma SortSwapsPair(a: seq<byte>, b: seq<byte>)
    requires KeyLess(b, a)
    ensures SortRecords([a, b]) == [b, a]
  {
    assert [a, b][..1] == [a];
    assert SortRecords([a]) == [a];
  }

  // ---------------------------------------------------------------------------
  // The whole pipeline

  /** No games at all: the book stays empty and the file holds no record. */
  lemma EmptyInputEmptyFile(variant: string)
    ensures SaveSpec(NormalizeTable(AddGames(Empty(), [], variant))) == Ok([])
  {
    var t := NormalizeTable(AddGames(Empty(), [], variant));
    assert t.keys == [];
    assert TableRecords(t.keys, t.items) == Ok([]);
  }

  /** A normalised book built from games always saves: its keys are hexadecimal, every
      entry holds its move, and no normalised weight exceeds MAX_BOOK_WEIGHT. */
  lemma NormalizedBookSaves(t: Table)
    requires Consistent(t)
    ensures SaveSpec(NormalizeTable(t)).Ok?
  {
    var n := NormalizeTable(t);
    NormalizeConsistent(t);
    forall k | k in n.items ensures FromHex(k).Some? {
      var z: u64 :| FormatZobristKeyHex(z) == k;
      KeyHexRoundTrip(z);
    }
    forall k, u | k in n.items && u in n.items[k].items ensures EntryEncodable(n.items[k].items[u]) {
      var p := t.items[k];
      if SumWeights(p) > 0 {
        NormalizedWeights(p, u, u);
      } else {
        SumByBound(p.keys, p.items, u, (e: Entry) => e.weight);
      }
    }
    SaveSucceeds(n);
  }
}

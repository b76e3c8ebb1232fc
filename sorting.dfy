/** The global order of the book's records (create_polyglot.py:57): `entries.sort`
    with the key `(e[:8], e[10:12])`, a stable sort that compares byte strings
    lexicographically. It is modelled by a stable insertion sort. */
module RecordSort {
  import opened Bytes

  /** Python's clamped slice `s[i:j]`. */
  function PySlice(s: seq<byte>, i: nat, j: nat): (r: seq<byte>)
    ensures |r| <= |s|
  {
    if i >= |s| || j <= i then [] else s[i..if j <= |s| then j else |s|]
  }

  /** The sort key `(e[:8], e[10:12])`: the key bytes, then the weight bytes. */
  function SortKey(e: seq<byte>): (seq<byte>, seq<byte>)
  {
    (PySlice(e, 0, 8), PySlice(e, 10, 12))
  }

  /** Python's `<` on the tuples of two sort keys. */
  predicate KeyLess(a: seq<byte>, b: seq<byte>)
  {
    var ka, kb := SortKey(a), SortKey(b);
    if ka.0 != kb.0 then LexLt(ka.0, kb.0) else LexLt(ka.1, kb.1)
  }

  lemma LexLtTransitive(a: seq<byte>, b: seq<byte>, c: seq<byte>)
    requires LexLt(a, b) && LexLt(b, c)
    ensures LexLt(a, c)
  {
    LexLeTransitive(a, b, c);
    if a == c {
      LexLeAntisymmetric(a, b);
    }
  }

  lemma LexLtAsymmetric(a: seq<byte>, b: seq<byte>)
    requires LexLt(a, b)
    ensures !LexLe(b, a)
  {
    if LexLe(b, a) {
      LexLeAntisymmetric(a, b);
    }
  }

  lemma KeyLessTransitive(a: seq<byte>, b: seq<byte>, c: seq<byte>)
    requires KeyLess(a, b) && KeyLess(b, c)
    ensures KeyLess(a, c)
  {
    var ka, kb, kc := SortKey(a), SortKey(b), SortKey(c);
    if ka.0 != kb.0 && kb.0 != kc.0 {
      LexLtTransitive(ka.0, kb.0, kc.0);
      if ka.0 == kc.0 {
        LexLtAsymmetric(ka.0, kb.0);
      }
    } else if ka.0 == kb.0 && kb.0 == kc.0 {
      LexLtTransitive(ka.1, kb.1, kc.1);
    }
  }

  /** Two sort keys are ordered one way, the other way, or equal. */
  lemma KeyLessTotal(a: seq<byte>, b: seq<byte>)
    ensures KeyLess(a, b) || KeyLess(b, a) || SortKey(a) == SortKey(b)
  {
    LexLeTotal(SortKey(a).0, SortKey(b).0);
    LexLeTotal(SortKey(a).1, SortKey(b).1);
  }

  /** Non-decreasing by sort key. */
  predicate Sorted(s: seq<seq<byte>>)
  {
    forall i, j :: 0 <= i < j < |s| ==> !KeyLess(s[j], s[i])
  }

  /** Inserts x after every element whose key is not greater than x's. */
  function Insert(x: seq<byte>, s: seq<seq<byte>>): (r: seq<seq<byte>>)
    ensures |r| == |s| + 1
    ensures multiset(r) == multiset(s) + multiset{x}
  {
    if s == [] then [x]
    else if KeyLess(x, s[0]) then [x] + s
    else
      assert s == [s[0]] + s[1..];
      [s[0]] + Insert(x, s[1..])
  }

  /** `entries.sort(key=lambda e: (e[:8], e[10:12]))`. */
  function SortRecords(rs: seq<seq<byte>>): (r: seq<seq<byte>>)
    ensures |r| == |rs|
    ensures multiset(r) == multiset(rs)
  {
    if rs == [] then []
    else
      assert rs == rs[..|rs| - 1] + [rs[|rs| - 1]];
      Insert(rs[|rs| - 1], SortRecords(rs[..|rs| - 1]))
  }

  /** No element of s sorts strictly before y. */
  predicate NoneBelow(s: seq<seq<byte>>, y: seq<byte>)
  {
    forall j :: 0 <= j < |s| ==> !KeyLess(s[j], y)
  }

  lemma SortedCons(s: seq<seq<byte>>)
    requires s != []
    ensures Sorted(s) <==> NoneBelow(s[1..], s[0]) && Sorted(s[1..])
  {
    if NoneBelow(s[1..], s[0]) && Sorted(s[1..]) {
      forall i, j | 0 <= i < j < |s| ensures !KeyLess(s[j], s[i]) {
        assert s[j] == s[1..][j - 1];
        if i > 0 {
          assert s[i] == s[1..][i - 1];
        }
      }
    }
  }

  lemma {:induction false} InsertNoneBelow(x: seq<byte>, s: seq<seq<byte>>, y: seq<byte>)
    requires NoneBelow(s, y) && !KeyLess(x, y)
    ensures NoneBelow(Insert(x, s), y)
  {
    if s != [] && !KeyLess(x, s[0]) {
      InsertNoneBelow(x, s[1..], y);
    }
  }

  lemma {:induction false} InsertSorted(x: seq<byte>, s: seq<seq<byte>>)
    requires Sorted(s)
    ensures Sorted(Insert(x, s))
  {
    if s != [] {
      SortedCons(s);
      if KeyLess(x, s[0]) {
        forall j | 0 <= j < |s| ensures !KeyLess(s[j], x) {
          if KeyLess(s[j], x) {
            KeyLessTransitive(s[j], x, s[0]);
          }
        }
        SortedCons([x] + s);
      } else {
        InsertSorted(x, s[1..]);
        InsertNoneBelow(x, s[1..], s[0]);
        SortedCons([s[0]] + Insert(x, s[1..]));
      }
    }
  }

  /** The sorted records are in non-decreasing order of `(e[:8], e[10:12])`. */
  lemma {:induction false} SortRecordsSorted(rs: seq<seq<byte>>)
    ensures Sorted(SortRecords(rs))
  {
    if rs != [] {
      SortRecordsSorted(rs[..|rs| - 1]);
      InsertSorted(rs[|rs| - 1], SortRecords(rs[..|rs| - 1]));
    }
  }

  /** The records whose sort key is k, in order. */
  function WithKey(s: seq<seq<byte>>, k: (seq<byte>, seq<byte>)): seq<seq<byte>>
  {
    if s == [] then [] else (if SortKey(s[0]) == k then [s[0]] else []) + WithKey(s[1..], k)
  }

  lemma {:induction false} WithKeyConcat(a: seq<seq<byte>>, b: seq<seq<byte>>, k: (seq<byte>, seq<byte>))
    ensures WithKey(a + b, k) == WithKey(a, k) + WithKey(b, k)
  {
    if a != [] {
      assert (a + b)[0] == a[0];
      assert (a + b)[1..] == a[1..] + b;
      WithKeyConcat(a[1..], b, k);
    } else {
      assert a + b == b;
    }
  }

  /** Inserting after the equal keys puts x behind every element with x's key. */
  lemma {:induction false} InsertStable(x: seq<byte>, s: seq<seq<byte>>, k: (seq<byte>, seq<byte>))
    requires Sorted(s)
    ensures WithKey(Insert(x, s), k) == WithKey(s, k) + WithKey([x], k)
  {
    if s == [] {
    } else if KeyLess(x, s[0]) {
      InsertStableFront(x, s, k);
    } else {
      SortedCons(s);
      InsertStable(x, s[1..], k);
      InsertStableBehind(x, s, k);
    }
  }

  /** x inserted in front of a sorted sequence whose head is strictly greater. */
  lemma InsertStableFront(x: seq<byte>, s: seq<seq<byte>>, k: (seq<byte>, seq<byte>))
    requires Sorted(s) && s != [] && KeyLess(x, s[0])
    ensures WithKey(Insert(x, s), k) == WithKey(s, k) + WithKey([x], k)
  {
    assert Insert(x, s) == [x] + s;
    WithKeyConcat([x], s, k);
    if SortKey(x) == k {
      NoneWithKey(s, x, k);
    }
  }

  /** x inserted behind the head, given the same fact for the tail. */
  lemma InsertStableBehind(x: seq<byte>, s: seq<seq<byte>>, k: (seq<byte>, seq<byte>))
    requires s != [] && !KeyLess(x, s[0])
    requires WithKey(Insert(x, s[1..]), k) == WithKey(s[1..], k) + WithKey([x], k)
    ensures WithKey(Insert(x, s), k) == WithKey(s, k) + WithKey([x], k)
  {
    var rest := s[1..] + [x];
    WithKeyConcat(s[1..], [x], k);
    InsertBehind(x, s);
    WithKeyConcat([s[0]], Insert(x, s[1..]), k);
    WithKeyConcat([s[0]], rest, k);
    AppendAfterHead(s, x);
    WithKeyConcat(s, [x], k);
  }

  /** Appending to a non-empty sequence leaves its head in front. */
  lemma AppendAfterHead<T>(s: seq<T>, x: T)
    requires s != []
    ensures [s[0]] + (s[1..] + [x]) == s + [x]
  {
  }

  /** x goes behind a head whose key is not greater than its own. */
  lemma InsertBehind(x: seq<byte>, s: seq<seq<byte>>)
    requires s != [] && !KeyLess(x, s[0])
    ensures Insert(x, s) == [s[0]] + Insert(x, s[1..])
  {
  }

  lemma WithKeyHead(s: seq<seq<byte>>, k: (seq<byte>, seq<byte>))
    requires s != []
    ensures WithKey(s, k) == WithKey([s[0]], k) + WithKey(s[1..], k)
  {
    assert [s[0]][1..] == s[..0];
  }

  /** Behind a strictly smaller head, a sorted sequence has no element with x's key. */
  lemma {:induction false} NoneWithKey(s: seq<seq<byte>>, x: seq<byte>, k: (seq<byte>, seq<byte>))
    requires Sorted(s) && s != [] && KeyLess(x, s[0]) && SortKey(x) == k
    ensures WithKey(s, k) == []
  {
    var head := s[0];
    forall j | 0 <= j < |s| ensures SortKey(s[j]) != k {
      if j > 0 {
        assert !KeyLess(s[j], head);
      }
    }
    WithKeyEmpty(s, k);
  }

  lemma {:induction false} WithKeyEmpty(s: seq<seq<byte>>, k: (seq<byte>, seq<byte>))
    requires forall j | 0 <= j < |s| :: SortKey(s[j]) != k
    ensures WithKey(s, k) == []
  {
    if s != [] {
      WithKeyEmpty(s[1..], k);
    }
  }

  /** The sort is stable: records with equal sort keys keep their relative order. */
  lemma {:induction false} SortRecordsStable(rs: seq<seq<byte>>, k: (seq<byte>, seq<byte>))
    ensures WithKey(SortRecords(rs), k) == WithKey(rs, k)
  {
    if rs != [] {
      var init, last := rs[..|rs| - 1], rs[|rs| - 1];
      SortRecordsStable(init, k);
      SortRecordsSorted(init);
      InsertStable(last, SortRecords(init), k);
      assert rs == init + [last];
      WithKeyConcat(init, [last], k);
    }
  }

  /** The first record is among the records with its own sort key. */
  lemma HeadHasOwnKey(s: seq<seq<byte>>)
    requires s != []
    ensures WithKey(s, SortKey(s[0])) != [] && WithKey([], SortKey(s[0])) == []
  {
  }

  /** Two sorted sequences that hold, for every sort key, the same records with that key
      in the same order are equal. */
  lemma {:induction false} SortedUnique(a: seq<seq<byte>>, b: seq<seq<byte>>)
    requires Sorted(a) && Sorted(b)
    requires forall k :: WithKey(a, k) == WithKey(b, k)
    ensures a == b
    decreases |a| + |b|
  {
    if a == [] && b != [] {
      HeadHasOwnKey(b);
      assert false;
    } else if a != [] && b == [] {
      HeadHasOwnKey(a);
      assert false;
    } else if a != [] {
      var x, y := a[0], b[0];
      KeyLessTotal(x, y);
      if KeyLess(x, y) {
        NoneWithKey(b, x, SortKey(x));
        assert false;
      } else if KeyLess(y, x) {
        NoneWithKey(a, y, SortKey(y));
        assert false;
      }
      assert WithKey(a, SortKey(x)) == WithKey(b, SortKey(x));
      assert WithKey(a, SortKey(x))[0] == x && WithKey(b, SortKey(x))[0] == y;
      assert x == y;
      forall k ensures WithKey(a[1..], k) == WithKey(b[1..], k) {
        var h := WithKey([x], k);
        assert WithKey(a, k) == WithKey(b, k);
        WithKeyHead(a, k);
        WithKeyHead(b, k);
        assert WithKey(a[1..], k) == WithKey(a, k)[|h|..];
        assert WithKey(b[1..], k) == WithKey(b, k)[|h|..];
      }
      SortedCons(a);
      SortedCons(b);
      SortedUnique(a[1..], b[1..]);
      assert a == [x] + a[1..] && b == [y] + b[1..];
    }
  }

  /** A stable sort by `(e[:8], e[10:12])` has one possible output: any sorted sequence
      that keeps, for every sort key, the records with that key in their input order is
      `SortRecords(rs)`. */
  lemma StableSortUnique(rs: seq<seq<byte>>, s: seq<seq<byte>>)
    requires Sorted(s)
    requires forall k :: WithKey(s, k) == WithKey(rs, k)
    ensures s == SortRecords(rs)
  {
    SortRecordsSorted(rs);
    forall k ensures WithKey(s, k) == WithKey(SortRecords(rs), k) {
      SortRecordsStable(rs, k);
    }
    SortedUnique(s, SortRecords(rs));
  }
}

/**
  The column sort shared, line for line, by both matrix views: the
  `sortConfig` toggle, the three-way comparator over `row[key]`, and the
  stable sort `Array.prototype.sort` performs with that comparator.
*/
module TableSort {
  import opened JsValues
  import opened Sequences

  datatype Direction = Asc | Desc

  /** `sortConfig`: the column last clicked (`None` before any click) and its direction. */
  datatype SortConfig = SortConfig(key: Option<string>, direction: Direction)

  /** `{ key: null, direction: 'asc' }` */
  const Unsorted := SortConfig(None, Asc)

  /** The new `sortConfig` after a click on column `key`. */
  function NextConfig(c: SortConfig, key: string): SortConfig
  {
    SortConfig(Some(key), if c.key == Some(key) && c.direction == Asc then Desc else Asc)
  }

  /** A click on the column already sorted flips its direction. */
  lemma SameKeyFlips(c: SortConfig, key: string)
    requires c.key == Some(key)
    ensures NextConfig(c, key).key == Some(key)
    ensures NextConfig(c, key).direction != c.direction
  {
  }

  /** A click on any other column (or the first click) sorts it ascending. */
  lemma OtherKeyAscends(c: SortConfig, key: string)
    requires c.key != Some(key)
    ensures NextConfig(c, key) == SortConfig(Some(key), Asc)
  {
  }

  /** The configuration after `n` clicks on the same column. */
  function Clicks(c: SortConfig, key: string, n: nat): SortConfig
  {
    if n == 0 then c else NextConfig(Clicks(c, key, n - 1), key)
  }

  /** Starting from any other column, or from no sort, repeated clicks on one
      column alternate ascending, descending, ascending, ... */
  lemma {:induction false} ClicksAlternate(c: SortConfig, key: string, n: nat)
    requires c.key != Some(key) && n >= 1
    ensures Clicks(c, key, n) == SortConfig(Some(key), if n % 2 == 1 then Asc else Desc)
  {
    if n > 1 {
      ClicksAlternate(c, key, n - 1);
    }
  }

  // ---------------------------------------------------------------------
  // The comparator

  /** `(a, b) => a[key] < b[key] ? (asc ? -1 : 1) : a[key] > b[key] ? (asc ? 1 : -1) : 0` */
  function Compare(a: Row, b: Row, key: string, dir: Direction): int
  {
    var x := Get(a, key);
    var y := Get(b, key);
    if Less(x, y) then (if dir == Asc then -1 else 1)
    else if Less(y, x) then (if dir == Asc then 1 else -1)
    else 0
  }

  /** What the comparator sees of a row: the comparable form of `row[key]`. */
  function Cell(r: Row, key: string): Comparable
  {
    SortKey(Get(r, key))
  }

  /** The comparator is consistent: antisymmetric, zero exactly on rows whose
      cells tie, and transitive. */
  lemma CompareAntisymmetric(a: Row, b: Row, key: string, dir: Direction)
    ensures Compare(a, b, key, dir) == -Compare(b, a, key, dir)
    ensures Compare(a, b, key, dir) == 0 <==> Cell(a, key) == Cell(b, key)
  {
    var x, y := Get(a, key), Get(b, key);
    LessTies(x, y);
    if Less(x, y) {
      LessAsymmetric(x, y);
    }
    if Less(y, x) {
      LessAsymmetric(y, x);
    }
  }

  lemma CompareTransitive(a: Row, b: Row, c: Row, key: string, dir: Direction)
    requires Compare(a, b, key, dir) <= 0 && Compare(b, c, key, dir) <= 0
    ensures Compare(a, c, key, dir) <= 0
    ensures Compare(a, b, key, dir) < 0 || Compare(b, c, key, dir) < 0 ==> Compare(a, c, key, dir) < 0
  {
    var x, y, z := Get(a, key), Get(b, key), Get(c, key);
    CompareAntisymmetric(a, b, key, dir);
    CompareAntisymmetric(b, c, key, dir);
    CompareAntisymmetric(a, c, key, dir);
    if SortKey(x) != SortKey(y) && SortKey(y) != SortKey(z) {
      if dir == Asc {
        LessTotal(x, y);
        LessTotal(y, z);
        LessTransitive(x, y, z);
        LessAsymmetric(x, z);
      } else {
        LessTotal(x, y);
        LessTotal(y, z);
        LessTransitive(z, y, x);
        LessAsymmetric(z, x);
      }
    }
  }

  /** The comparator reads the rows only through `row[key]`. */
  lemma CompareByCell(a: Row, a': Row, b: Row, key: string, dir: Direction)
    requires Cell(a, key) == Cell(a', key)
    ensures Compare(a, b, key, dir) == Compare(a', b, key, dir)
    ensures Compare(b, a, key, dir) == Compare(b, a', key, dir)
  {
  }

  // ---------------------------------------------------------------------
  // The stable sort

  /** No row is strictly after a later one. */
  predicate Sorted(s: seq<Row>, key: string, dir: Direction)
  {
    forall i, j :: 0 <= i < j < |s| ==> Compare(s[i], s[j], key, dir) <= 0
  }

  /** The rows of `s` whose `key` cell compares as `v` (the rows the
      comparator ties with one another), in order. */
  function KeyRun(s: seq<Row>, key: string, v: Comparable): seq<Row>
  {
    if s == [] then []
    else (if Cell(s[0], key) == v then [s[0]] else []) + KeyRun(s[1..], key, v)
  }

  /** The run of a row placed in front of a sequence. */
  lemma KeyRunCons(x: Row, s: seq<Row>, key: string, v: Comparable)
    ensures KeyRun([x] + s, key, v) == (if Cell(x, key) == v then [x] else []) + KeyRun(s, key, v)
  {
    assert ([x] + s)[0] == x && ([x] + s)[1..] == s;
  }

  lemma {:induction false} KeyRunConcat(a: seq<Row>, b: seq<Row>, key: string, v: Comparable)
    ensures KeyRun(a + b, key, v) == KeyRun(a, key, v) + KeyRun(b, key, v)
  {
    if a == [] {
      assert a + b == b;
    } else {
      KeyRunConcat(a[1..], b, key, v);
      assert a == [a[0]] + a[1..];
      assert a + b == [a[0]] + (a[1..] + b);
      KeyRunBehindHead(a[0], a[1..], a[1..] + b, key, v, KeyRun(b, key, v));
    }
  }

  /** A sorted run none of whose rows carries `v` has an empty `v`-run. */
  lemma {:induction false} KeyRunEmpty(s: seq<Row>, key: string, v: Comparable)
    requires forall i :: 0 <= i < |s| ==> Cell(s[i], key) != v
    ensures KeyRun(s, key, v) == []
  {
    if s != [] {
      KeyRunEmpty(s[1..], key, v);
    }
  }

  /** `x` placed after every row of `s` it does not sort strictly before. */
  function Insert(x: Row, s: seq<Row>, key: string, dir: Direction): seq<Row>
  {
    if s == [] then [x]
    else if Compare(x, s[0], key, dir) < 0 then [x] + s
    else [s[0]] + Insert(x, s[1..], key, dir)
  }

  /** `[...s].sort(comparator)`: a stable sort by `row[key]` in direction `dir`. */
  function StableSort(s: seq<Row>, key: string, dir: Direction): seq<Row>
  {
    if s == [] then []
    else Insert(s[|s| - 1], StableSort(s[..|s| - 1], key, dir), key, dir)
  }

  lemma {:induction false} InsertPermutes(x: Row, s: seq<Row>, key: string, dir: Direction)
    ensures multiset(Insert(x, s, key, dir)) == multiset(s) + multiset{x}
  {
    if s != [] && Compare(x, s[0], key, dir) >= 0 {
      InsertPermutes(x, s[1..], key, dir);
      assert s == [s[0]] + s[1..];
    }
  }

  lemma InsertMembers(x: Row, s: seq<Row>, key: string, dir: Direction, y: Row)
    requires y in Insert(x, s, key, dir)
    ensures y == x || y in s
  {
    InsertPermutes(x, s, key, dir);
    assert y in multiset(Insert(x, s, key, dir));
  }

  lemma {:induction false} InsertSorted(x: Row, s: seq<Row>, key: string, dir: Direction)
    requires Sorted(s, key, dir)
    ensures Sorted(Insert(x, s, key, dir), key, dir)
  {
    if s == [] {
    } else if Compare(x, s[0], key, dir) < 0 {
      forall z | z in s
        ensures Compare(x, z, key, dir) <= 0
      {
        HeadFirst(s, key, dir, z);
        CompareTransitive(x, s[0], z, key, dir);
      }
      ConsSorted(x, s, key, dir);
    } else {
      var t := Insert(x, s[1..], key, dir);
      SortedTail(s, key, dir);
      InsertSorted(x, s[1..], key, dir);
      forall z | z in t
        ensures Compare(s[0], z, key, dir) <= 0
      {
        InsertMembers(x, s[1..], key, dir, z);
        if z == x {
          CompareAntisymmetric(x, s[0], key, dir);
        } else {
          HeadFirst(s, key, dir, z);
        }
      }
      ConsSorted(s[0], t, key, dir);
    }
  }

  /** A row that sorts before every row of a sorted sequence can go in front. */
  lemma ConsSorted(h: Row, t: seq<Row>, key: string, dir: Direction)
    requires Sorted(t, key, dir)
    requires forall z :: z in t ==> Compare(h, z, key, dir) <= 0
    ensures Sorted([h] + t, key, dir)
  {
    var r := [h] + t;
    forall i, j | 0 <= i < j < |r|
      ensures Compare(r[i], r[j], key, dir) <= 0
    {
      assert r[j] == t[j - 1];
      if i > 0 {
        assert r[i] == t[i - 1];
      }
    }
  }

  /** A row that sorts strictly before the head of a sorted sequence shares its
      cell with none of the sequence's rows. */
  lemma BeforeHeadIsNew(x: Row, s: seq<Row>, key: string, dir: Direction, i: nat)
    requires Sorted(s, key, dir) && s != [] && Compare(x, s[0], key, dir) < 0 && i < |s|
    ensures Cell(s[i], key) != Cell(x, key)
  {
    if Cell(s[i], key) == Cell(x, key) {
      CompareByCell(x, s[i], s[0], key, dir);
      if i > 0 {
        assert Compare(s[0], s[i], key, dir) <= 0;
      }
      CompareAntisymmetric(s[0], s[i], key, dir);
    }
  }

  lemma InsertFrontKeyRun(x: Row, s: seq<Row>, key: string, dir: Direction, v: Comparable)
    requires Sorted(s, key, dir) && s != [] && Compare(x, s[0], key, dir) < 0
    ensures KeyRun([x] + s, key, v) == KeyRun(s, key, v) + (if Cell(x, key) == v then [x] else [])
  {
    assert ([x] + s)[1..] == s;
    if Cell(x, key) == v {
      forall i | 0 <= i < |s|
        ensures Cell(s[i], key) != v
      {
        BeforeHeadIsNew(x, s, key, dir, i);
      }
      KeyRunEmpty(s, key, v);
    }
  }

  lemma SortedTail(s: seq<Row>, key: string, dir: Direction)
    requires Sorted(s, key, dir) && s != []
    ensures Sorted(s[1..], key, dir)
  {
    forall i, j | 0 <= i < j < |s[1..]|
      ensures Compare(s[1..][i], s[1..][j], key, dir) <= 0
    {
      assert s[1..][i] == s[i + 1] && s[1..][j] == s[j + 1];
    }
  }

  /** Into a sorted sequence, `Insert` puts `x` after every row with the same cell. */
  lemma {:induction false} InsertKeyRun(x: Row, s: seq<Row>, key: string, dir: Direction, v: Comparable)
    requires Sorted(s, key, dir)
    ensures KeyRun(Insert(x, s, key, dir), key, v) ==
            KeyRun(s, key, v) + (if Cell(x, key) == v then [x] else [])
  {
    if s == [] {
    } else if Compare(x, s[0], key, dir) < 0 {
      InsertFrontKeyRun(x, s, key, dir, v);
    } else {
      var t := Insert(x, s[1..], key, dir);
      SortedTail(s, key, dir);
      InsertKeyRun(x, s[1..], key, dir, v);
      assert Insert(x, s, key, dir) == [s[0]] + t;
      assert s == [s[0]] + s[1..];
      KeyRunBehindHead(s[0], s[1..], t, key, v, if Cell(x, key) == v then [x] else []);
    }
  }

  /** Putting one row in front of two sequences keeps the difference of their runs. */
  lemma KeyRunBehindHead(h: Row, s: seq<Row>, t: seq<Row>, key: string, v: Comparable, e: seq<Row>)
    requires KeyRun(t, key, v) == KeyRun(s, key, v) + e
    ensures KeyRun([h] + t, key, v) == KeyRun([h] + s, key, v) + e
  {
    var c := if Cell(h, key) == v then [h] else [];
    KeyRunCons(h, t, key, v);
    KeyRunCons(h, s, key, v);
    assert c + (KeyRun(s, key, v) + e) == (c + KeyRun(s, key, v)) + e;
  }

  /** The sort returns a permutation of its input. */
  lemma {:induction false} SortPermutes(s: seq<Row>, key: string, dir: Direction)
    ensures multiset(StableSort(s, key, dir)) == multiset(s)
  {
    if s != [] {
      var init := s[..|s| - 1];
      SortPermutes(init, key, dir);
      InsertPermutes(s[|s| - 1], StableSort(init, key, dir), key, dir);
      assert s == init + [s[|s| - 1]];
    }
  }

  /** The sort returns its input ordered by `row[key]` in direction `dir`. */
  lemma {:induction false} SortSorts(s: seq<Row>, key: string, dir: Direction)
    ensures Sorted(StableSort(s, key, dir), key, dir)
  {
    if s != [] {
      SortSorts(s[..|s| - 1], key, dir);
      InsertSorted(s[|s| - 1], StableSort(s[..|s| - 1], key, dir), key, dir);
    }
  }

  /** The sort is stable: rows whose cells tie keep their order. */
  lemma {:induction false} SortStable(s: seq<Row>, key: string, dir: Direction, v: Comparable)
    ensures KeyRun(StableSort(s, key, dir), key, v) == KeyRun(s, key, v)
  {
    if s != [] {
      var init := s[..|s| - 1];
      var x := s[|s| - 1];
      SortStable(init, key, dir, v);
      SortSorts(init, key, dir);
      InsertKeyRun(x, StableSort(init, key, dir), key, dir, v);
      assert s == init + [x];
      KeyRunConcat(init, [x], key, v);
    }
  }

  /** Each row of `s` belongs to the run of its own cell. */
  lemma {:induction false} KeyRunHasMember(s: seq<Row>, key: string, x: Row)
    ensures x in s <==> x in KeyRun(s, key, Cell(x, key))
  {
    if s != [] {
      KeyRunHasMember(s[1..], key, x);
    }
  }

  /** Sequences with the same run for a row's cell both hold that row or neither. */
  lemma SameRunsSameMembers(r: seq<Row>, t: seq<Row>, key: string, z: Row)
    requires KeyRun(r, key, Cell(z, key)) == KeyRun(t, key, Cell(z, key))
    ensures z in r <==> z in t
  {
    KeyRunHasMember(r, key, z);
    KeyRunHasMember(t, key, z);
  }

  /** The first row of a sorted sequence does not sort after any of its rows. */
  lemma HeadFirst(r: seq<Row>, key: string, dir: Direction, y: Row)
    requires Sorted(r, key, dir) && r != [] && y in r
    ensures Compare(r[0], y, key, dir) <= 0
  {
    var i :| 0 <= i < |r| && r[i] == y;
    if i > 0 {
      assert Compare(r[0], r[i], key, dir) <= 0;
    } else {
      CompareAntisymmetric(y, y, key, dir);
    }
  }

  /** Two sorted sequences with the same runs start with the same row. */
  lemma SameRunsSameHead(r: seq<Row>, t: seq<Row>, key: string, dir: Direction)
    requires Sorted(r, key, dir) && Sorted(t, key, dir) && r != [] && t != []
    requires forall v :: KeyRun(r, key, v) == KeyRun(t, key, v)
    ensures r[0] == t[0]
  {
    var x, y := r[0], t[0];
    assert KeyRun(r, key, Cell(x, key)) == KeyRun(t, key, Cell(x, key));
    assert KeyRun(r, key, Cell(y, key)) == KeyRun(t, key, Cell(y, key));
    SameRunsSameMembers(r, t, key, x);
    SameRunsSameMembers(r, t, key, y);
    HeadFirst(r, key, dir, y);
    HeadFirst(t, key, dir, x);
    HeadsAgree(r, t, key, dir);
  }

  /** Heads that sort neither way round share a cell, and the run of that
      cell starts with each of them. */
  lemma HeadsAgree(r: seq<Row>, t: seq<Row>, key: string, dir: Direction)
    requires r != [] && t != []
    requires Compare(r[0], t[0], key, dir) <= 0 && Compare(t[0], r[0], key, dir) <= 0
    requires KeyRun(r, key, Cell(r[0], key)) == KeyRun(t, key, Cell(r[0], key))
    ensures r[0] == t[0]
  {
    CompareAntisymmetric(r[0], t[0], key, dir);
    RunOfHead(r, key);
    RunOfHead(t, key);
  }

  /** The run of the first row's cell starts with that row. */
  lemma RunOfHead(r: seq<Row>, key: string)
    requires r != []
    ensures KeyRun(r, key, Cell(r[0], key)) != [] && KeyRun(r, key, Cell(r[0], key))[0] == r[0]
  {
    assert KeyRun(r, key, Cell(r[0], key)) == [r[0]] + KeyRun(r[1..], key, Cell(r[0], key));
  }

  /** Removing the same first row leaves the same runs. */
  lemma SameRunsTail(r: seq<Row>, t: seq<Row>, key: string, v: Comparable)
    requires r != [] && t != [] && r[0] == t[0]
    requires KeyRun(r, key, v) == KeyRun(t, key, v)
    ensures KeyRun(r[1..], key, v) == KeyRun(t[1..], key, v)
  {
    var head := if Cell(r[0], key) == v then [r[0]] else [];
    assert KeyRun(r, key, v) == head + KeyRun(r[1..], key, v);
    assert KeyRun(t, key, v) == head + KeyRun(t[1..], key, v);
    assert KeyRun(r[1..], key, v) == KeyRun(r, key, v)[|head|..];
    assert KeyRun(t[1..], key, v) == KeyRun(t, key, v)[|head|..];
  }

  /** A sorted sequence is determined by its runs: two sorted sequences whose
      rows of each cell value agree, in order, are equal. */
  lemma {:induction false} SortedUnique(r: seq<Row>, t: seq<Row>, key: string, dir: Direction)
    requires Sorted(r, key, dir) && Sorted(t, key, dir)
    requires forall v :: KeyRun(r, key, v) == KeyRun(t, key, v)
    ensures r == t
    decreases |r| + |t|
  {
    if r == [] || t == [] {
      if |r| > 0 {
        SameRunsSameMembers(r, t, key, r[0]);
      }
      if |t| > 0 {
        SameRunsSameMembers(r, t, key, t[0]);
      }
    } else {
      SameRunsSameHead(r, t, key, dir);
      forall v
        ensures KeyRun(r[1..], key, v) == KeyRun(t[1..], key, v)
      {
        SameRunsTail(r, t, key, v);
      }
      SortedTail(r, key, dir);
      SortedTail(t, key, dir);
      SortedUnique(r[1..], t[1..], key, dir);
      assert r == [r[0]] + r[1..];
      assert t == [t[0]] + t[1..];
    }
  }

  /** Any stable sorted permutation of `s` is `StableSort(s)`. */
  lemma SortCharacterized(s: seq<Row>, r: seq<Row>, key: string, dir: Direction)
    requires Sorted(r, key, dir)
    requires forall v :: KeyRun(r, key, v) == KeyRun(s, key, v)
    ensures r == StableSort(s, key, dir)
  {
    SortSorts(s, key, dir);
    forall v
      ensures KeyRun(r, key, v) == KeyRun(StableSort(s, key, dir), key, v)
    {
      SortStable(s, key, dir, v);
    }
    SortedUnique(r, StableSort(s, key, dir), key, dir);
  }

  /** Sorting rows that are already in order changes nothing; in particular,
      sorting twice in the same direction is sorting once. */
  lemma SortOfSorted(s: seq<Row>, key: string, dir: Direction)
    requires Sorted(s, key, dir)
    ensures StableSort(s, key, dir) == s
  {
    SortCharacterized(s, s, key, dir);
  }

  lemma SortIdempotent(s: seq<Row>, key: string, dir: Direction)
    ensures StableSort(StableSort(s, key, dir), key, dir) == StableSort(s, key, dir)
  {
    SortSorts(s, key, dir);
    SortOfSorted(StableSort(s, key, dir), key, dir);
  }

  function Reverse(s: seq<Row>): seq<Row>
  {
    if s == [] then [] else Reverse(s[1..]) + [s[0]]
  }

  lemma {:induction false} ReverseAt(s: seq<Row>, i: nat)
    requires i < |s|
    ensures |Reverse(s)| == |s| && Reverse(s)[i] == s[|s| - 1 - i]
  {
    if i < |s| - 1 {
      ReverseAt(s[1..], i);
    } else {
      ReverseLength(s[1..]);
    }
  }

  lemma {:induction false} ReverseLength(s: seq<Row>)
    ensures |Reverse(s)| == |s|
  {
    if s != [] {
      ReverseLength(s[1..]);
    }
  }

  lemma {:induction false} KeyRunReverse(s: seq<Row>, key: string, v: Comparable)
    requires |KeyRun(s, key, v)| <= 1
    ensures KeyRun(Reverse(s), key, v) == KeyRun(s, key, v)
  {
    if s != [] {
      var head := if Cell(s[0], key) == v then [s[0]] else [];
      assert KeyRun(s, key, v) == head + KeyRun(s[1..], key, v);
      KeyRunReverse(s[1..], key, v);
      KeyRunConcat(Reverse(s[1..]), [s[0]], key, v);
      assert KeyRun([s[0]], key, v) == head;
    }
  }

  /** The descending comparator is the ascending one with its arguments swapped. */
  lemma CompareDescending(a: Row, b: Row, key: string)
    ensures Compare(a, b, key, Desc) == Compare(b, a, key, Asc)
  {
    if Less(Get(a, key), Get(b, key)) {
      LessAsymmetric(Get(a, key), Get(b, key));
    }
  }

  /** When no two rows tie in column `key`, the descending sort is the
      ascending sort reversed. */
  lemma DistinctCellsReverse(s: seq<Row>, key: string)
    requires forall v :: |KeyRun(s, key, v)| <= 1
    ensures StableSort(s, key, Desc) == Reverse(StableSort(s, key, Asc))
  {
    var a := StableSort(s, key, Asc);
    var r := Reverse(a);
    ReverseLength(a);
    SortSorts(s, key, Asc);
    forall i, j | 0 <= i < j < |r|
      ensures Compare(r[i], r[j], key, Desc) <= 0
    {
      ReverseAt(a, i);
      ReverseAt(a, j);
      CompareDescending(r[i], r[j], key);
    }
    forall v
      ensures KeyRun(r, key, v) == KeyRun(s, key, v)
    {
      SortStable(s, key, Asc, v);
      KeyRunReverse(a, key, v);
    }
    SortCharacterized(s, r, key, Desc);
  }

  /** A second click on the same column reverses the rows when no two of them tie. */
  lemma SecondClickReverses(s: seq<Row>, key: string)
    requires forall v :: |KeyRun(s, key, v)| <= 1
    ensures StableSort(StableSort(s, key, Asc), key, Desc) == Reverse(StableSort(s, key, Asc))
  {
    var a := StableSort(s, key, Asc);
    forall v
      ensures |KeyRun(a, key, v)| <= 1
    {
      SortStable(s, key, Asc, v);
    }
    DistinctCellsReverse(a, key);
    SortIdempotent(s, key, Asc);
  }

  /** Rows whose cells all tie keep their order in either direction. */
  lemma {:induction false} TiesKeepOrder(s: seq<Row>, key: string, dir: Direction)
    requires forall i :: 0 <= i < |s| ==> Cell(s[i], key) == Cell(s[0], key)
    ensures StableSort(s, key, dir) == s
  {
    if s != [] {
      forall i, j | 0 <= i < j < |s|
        ensures Compare(s[i], s[j], key, dir) <= 0
      {
        CompareAntisymmetric(s[i], s[j], key, dir);
      }
      SortOfSorted(s, key, dir);
    }
  }

  /** A blank cell (`null`) sorts where 0 would: rows holding -5, a blank and
      3 in column `key` are already in ascending order. */
  lemma BlankSortsAsZero(a: Row, b: Row, c: Row, key: string)
    requires Get(a, key) == Num(-5.0) && Get(b, key) == Null && Get(c, key) == Num(3.0)
    ensures StableSort([a, b, c], key, Asc) == [a, b, c]
  {
    SortOfSorted([a, b, c], key, Asc);
  }

  /** With ties, the second click does not reverse: two different rows whose
      cells tie stay in place under both directions. */
  lemma SecondClickKeepsTies(a: Row, b: Row, key: string)
    requires a != b && Cell(a, key) == Cell(b, key)
    ensures StableSort(StableSort([a, b], key, Asc), key, Desc) == [a, b]
    ensures Reverse(StableSort([a, b], key, Asc)) == [b, a]
  {
    TiesKeepOrder([a, b], key, Asc);
    TiesKeepOrder([a, b], key, Desc);
    assert [a, b][1..] == [b];
    assert Reverse([b]) == [b];
  }
}

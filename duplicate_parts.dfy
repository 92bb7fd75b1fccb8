/**
  The duplicate-parts view: the rows of the inventory summary are grouped by
  their `Part` cell, the groups with more than one row become duplicate
  records (items, a count matrix and statistics over the difference values),
  the records are narrowed by a part-number filter and a location filter,
  and the distinct non-empty `Branch` cells feed the location picker.
*/
module DuplicatePartsAnalyzer {
  import opened JsValues
  import opened Sequences
  import opened Dispersion

  const PartField := "Part"
  const LocationField := "Branch"
  const DescriptionField := "Description"

  function PartOf(row: Row): Value
  {
    Get(row, PartField)
  }

  /** The cells of one column, one per row. */
  function Column(rows: seq<Row>, field: string): (c: seq<Value>)
    ensures |c| == |rows| && forall i :: 0 <= i < |rows| ==> c[i] == Get(rows[i], field)
  {
    seq(|rows|, i requires 0 <= i < |rows| => Get(rows[i], field))
  }

  lemma ColumnConcat(a: seq<Row>, b: seq<Row>, field: string)
    ensures Column(a + b, field) == Column(a, field) + Column(b, field)
  {
    var ab := a + b;
    forall i | 0 <= i < |ab|
      ensures Column(ab, field)[i] == (Column(a, field) + Column(b, field))[i]
    {
      if i >= |a| {
        assert ab[i] == b[i - |a|];
      }
    }
  }

  function CellPasses(field: string, q: Value -> bool): Row -> bool
  {
    r => q(Get(r, field))
  }

  /** Reading a column commutes with a filter on that column: the cells of the
      rows whose cell passes `q` are the column's cells that pass `q`. */
  lemma {:induction false} ColumnSelect(rows: seq<Row>, field: string, q: Value -> bool)
    ensures Column(Select(rows, CellPasses(field, q)), field) == Select(Column(rows, field), q)
  {
    if rows != [] {
      var p := CellPasses(field, q);
      var head := if p(rows[0]) then [rows[0]] else [];
      ColumnSelect(rows[1..], field, q);
      ColumnConcat(head, Select(rows[1..], p), field);
      var col := Column(rows, field);
      assert col[0] == Get(rows[0], field);
      assert col[1..] == Column(rows[1..], field);
      assert Column(head, field) == if q(col[0]) then [col[0]] else [];
    }
  }

  // ---------------------------------------------------------------------
  // Grouping: _.groupBy(data, 'Part')

  function PartIs(k: Value): Row -> bool
  {
    r => PartOf(r) == k
  }

  /** `groupedByPart[k]`: the rows whose part is `k`, in row order. */
  function Members(rows: seq<Row>, k: Value): seq<Row>
  {
    Select(rows, PartIs(k))
  }

  function Occurrences(rows: seq<Row>, k: Value): nat
  {
    |Members(rows, k)|
  }

  /** A group holds exactly the rows with its part, in the order of the data. */
  lemma MembersAre(rows: seq<Row>, k: Value, x: Row)
    ensures x in Members(rows, k) <==> x in rows && PartOf(x) == k
    ensures IsSubsequence(Members(rows, k), rows)
  {
    SelectMembers(rows, PartIs(k), x);
    SelectIsSubsequence(rows, PartIs(k));
  }

  /** `Object.entries` lists every group key once. The order it uses (integer-like
      keys first) is not modelled: `order` may be any such listing. */
  predicate EnumeratesParts(rows: seq<Row>, order: seq<Value>)
  {
    && NoDuplicates(order)
    && (forall i :: 0 <= i < |order| ==> order[i] in Column(rows, PartField))
    && (forall i :: 0 <= i < |rows| ==> PartOf(rows[i]) in order)
  }

  /** Listing the parts in the order they first occur is one such listing. */
  lemma FirstSeenEnumerates(rows: seq<Row>)
    ensures EnumeratesParts(rows, Distinct(Column(rows, PartField)))
  {
    var col := Column(rows, PartField);
    var d := Distinct(col);
    DistinctNoDuplicates(col);
    forall i | 0 <= i < |d|
      ensures d[i] in col
    {
      DistinctMembers(col, d[i]);
    }
    forall i | 0 <= i < |rows|
      ensures PartOf(rows[i]) in d
    {
      assert col[i] == PartOf(rows[i]);
      DistinctMembers(col, col[i]);
    }
  }

  /** A part that occurs at all is a key of the grouping. */
  lemma OccurringPartIsKey(rows: seq<Row>, k: Value)
    requires Occurrences(rows, k) > 0
    ensures k in Column(rows, PartField)
  {
    var x := Members(rows, k)[0];
    MembersAre(rows, k, x);
    var i :| 0 <= i < |rows| && rows[i] == x;
    assert Column(rows, PartField)[i] == k;
  }

  // ---------------------------------------------------------------------
  // Field lookup: fields.find(f => f === canonical || f.includes(fragment))

  predicate FieldMatches(f: string, canonical: string, fragment: string)
  {
    f == canonical || Includes(f, fragment)
  }

  /** The first header that is `canonical` or contains `fragment`, if any. */
  function FindField(fields: seq<string>, canonical: string, fragment: string): (r: Option<string>)
    ensures r.None? <==> forall i :: 0 <= i < |fields| ==> !FieldMatches(fields[i], canonical, fragment)
    ensures r.Some? ==>
      exists i :: 0 <= i < |fields| && fields[i] == r.value && FieldMatches(fields[i], canonical, fragment) &&
        (forall j :: 0 <= j < i ==> !FieldMatches(fields[j], canonical, fragment))
  {
    if fields == [] then None
    else if FieldMatches(fields[0], canonical, fragment) then Some(fields[0])
    else
      var r := FindField(fields[1..], canonical, fragment);
      assert forall j :: 1 <= j < |fields| ==> fields[j] == fields[1..][j - 1];
      r
  }

  /** A header found with a non-empty name and fragment is itself non-empty,
      so the `field ? ... : 0` tests in the count projection see a truthy name. */
  lemma FoundFieldNonEmpty(fields: seq<string>, canonical: string, fragment: string)
    requires canonical != "" && fragment != ""
    requires FindField(fields, canonical, fragment).Some?
    ensures FindField(fields, canonical, fragment).value != ""
  {
    var f := FindField(fields, canonical, fragment).value;
    if f == "" {
      assert !StartsWith(f, fragment);
      assert !Includes(f, fragment);
    }
  }

  /** The headers the count projection reads. */
  datatype CountFields = CountFields(start: Option<string>, end: Option<string>, difference: Option<string>)

  function CountFieldsOf(fields: seq<string>): CountFields
  {
    CountFields(
      FindField(fields, "StartCount", "Start"),
      FindField(fields, "EndCount", "End"),
      FindField(fields, "Difference", "Diff"))
  }

  // ---------------------------------------------------------------------
  // The count matrix

  /** One row of a group's count matrix. */
  datatype CountEntry = CountEntry(location: Value, description: Value, count: Value, startCount: Value, endCount: Value)

  /** `field ? item[field] || 0 : 0` */
  function CountCell(item: Row, field: Option<string>): (v: Value)
    ensures field.None? ==> v == Num(0.0)
    ensures !Truthy(v) ==> v == Num(0.0)
    ensures field.Some? && field.value != "" && Truthy(Get(item, field.value)) ==> v == Get(item, field.value)
    ensures field.Some? && field.value != "" && !Truthy(Get(item, field.value)) ==> v == Num(0.0)
  {
    if field.Some? && field.value != "" then Or(Get(item, field.value), Num(0.0)) else Num(0.0)
  }

  /** The count-matrix row of one item. */
  function Project(item: Row, fs: CountFields): (c: CountEntry)
    ensures !Truthy(Get(item, LocationField)) ==> c.location == Str("")
    ensures Truthy(Get(item, LocationField)) ==> c.location == Get(item, LocationField)
    ensures !Truthy(Get(item, DescriptionField)) ==> c.description == Str("")
    ensures Truthy(Get(item, DescriptionField)) ==> c.description == Get(item, DescriptionField)
    ensures c.count == CountCell(item, fs.difference)
    ensures c.startCount == CountCell(item, fs.start) && c.endCount == CountCell(item, fs.end)
  {
    CountEntry(
      Or(Get(item, LocationField), Str("")),
      Or(Get(item, DescriptionField), Str("")),
      CountCell(item, fs.difference),
      CountCell(item, fs.start),
      CountCell(item, fs.end))
  }

  /** `items.map(item => ({ location, description, count, startCount, endCount }))` */
  function Counts(items: seq<Row>, fs: CountFields): (cs: seq<CountEntry>)
    ensures |cs| == |items|
    ensures forall i :: 0 <= i < |items| ==> cs[i] == Project(items[i], fs)
  {
    seq(|items|, i requires 0 <= i < |items| => Project(items[i], fs))
  }

  /** `counts.map(c => c.count)` */
  function CountValues(cs: seq<CountEntry>): (v: seq<Value>)
    ensures |v| == |cs| && forall i :: 0 <= i < |cs| ==> v[i] == cs[i].count
  {
    seq(|cs|, i requires 0 <= i < |cs| => cs[i].count)
  }

  /** The numbers among `vs` when every cell is a number. */
  function Numbers(vs: seq<Value>): (r: Option<seq<real>>)
    ensures r.Some? <==> forall i :: 0 <= i < |vs| ==> vs[i].Num?
    ensures r.Some? ==> |r.value| == |vs| && forall i :: 0 <= i < |vs| ==> vs[i] == Num(r.value[i])
  {
    if forall i :: 0 <= i < |vs| ==> vs[i].Num? then
      Some(seq(|vs|, i requires 0 <= i < |vs| => vs[i].x))
    else None
  }

  /** The statistics of a group, when its difference values are all numbers. */
  function StatsOf(cs: seq<CountEntry>): (s: Option<Stats>)
    requires |cs| > 0
    ensures s.Some? <==> forall i :: 0 <= i < |cs| ==> cs[i].count.Num?
  {
    match Numbers(CountValues(cs))
    case None => None
    case Some(xs) => Some(Describe(xs))
  }

  /** The item's difference cell reads as a number: it is one, or it is falsy
      and read as 0, or there is no difference header. */
  predicate DifferenceIsNumber(item: Row, field: Option<string>)
  {
    field.None? || field.value == "" || Get(item, field.value).Num? || !Truthy(Get(item, field.value))
  }

  /** The statistics read the items' difference cells, with the `|| 0`
      fallback, one value per item: a group has statistics exactly when every
      item's difference cell reads as a number. */
  lemma StatsPresent(items: seq<Row>, fs: CountFields)
    requires |items| > 0
    ensures |CountValues(Counts(items, fs))| == |items|
    ensures forall i :: 0 <= i < |items| ==> CountValues(Counts(items, fs))[i] == CountCell(items[i], fs.difference)
    ensures StatsOf(Counts(items, fs)).Some? <==>
      forall i :: 0 <= i < |items| ==> DifferenceIsNumber(items[i], fs.difference)
  {
    var cs := Counts(items, fs);
    forall i | 0 <= i < |items|
      ensures cs[i].count.Num? <==> DifferenceIsNumber(items[i], fs.difference)
    {
      assert cs[i].count == CountCell(items[i], fs.difference);
    }
  }

  /** One element of `duplicateParts`. */
  datatype Duplicate = Duplicate(partNumber: Value, items: seq<Row>, counts: seq<CountEntry>, stats: Option<Stats>)

  function MakeDuplicate(k: Value, items: seq<Row>, fields: seq<string>): Duplicate
    requires |items| > 0
  {
    var cs := Counts(items, CountFieldsOf(fields));
    Duplicate(k, items, cs, StatsOf(cs))
  }

  /** `findDuplicates(data, fields)`, visiting the group keys in `order`. */
  function FindDuplicates(rows: seq<Row>, fields: seq<string>, order: seq<Value>): seq<Duplicate>
  {
    if order == [] then []
    else
      var items := Members(rows, order[0]);
      (if |items| > 1 then [MakeDuplicate(order[0], items, fields)] else []) +
      FindDuplicates(rows, fields, order[1..])
  }

  function PartNumbers(ds: seq<Duplicate>): (ks: seq<Value>)
    ensures |ks| == |ds| && forall i :: 0 <= i < |ds| ==> ks[i] == ds[i].partNumber
  {
    seq(|ds|, i requires 0 <= i < |ds| => ds[i].partNumber)
  }

  /** Every returned group repeats its part at least twice, holds exactly the
      rows with that part, and carries one count entry per row. */
  lemma {:induction false} DuplicateShape(rows: seq<Row>, fields: seq<string>, order: seq<Value>, d: Duplicate)
    requires d in FindDuplicates(rows, fields, order)
    ensures d.partNumber in order
    ensures |d.items| >= 2 && d.items == Members(rows, d.partNumber)
    ensures d.counts == Counts(d.items, CountFieldsOf(fields))
    ensures d.stats == StatsOf(d.counts)
  {
    var items := Members(rows, order[0]);
    var head := if |items| > 1 then [MakeDuplicate(order[0], items, fields)] else [];
    assert FindDuplicates(rows, fields, order) == head + FindDuplicates(rows, fields, order[1..]);
    if d !in head {
      DuplicateShape(rows, fields, order[1..], d);
    }
  }

  lemma PartNumbersConcat(a: seq<Duplicate>, b: seq<Duplicate>)
    ensures PartNumbers(a + b) == PartNumbers(a) + PartNumbers(b)
  {
  }

  /** The keys reported for a listing: the first key when its part repeats,
      then those of the rest of the listing. */
  lemma ReportedKeys(rows: seq<Row>, fields: seq<string>, order: seq<Value>)
    requires order != []
    ensures PartNumbers(FindDuplicates(rows, fields, order)) ==
      (if Occurrences(rows, order[0]) > 1 then [order[0]] else []) +
      PartNumbers(FindDuplicates(rows, fields, order[1..]))
  {
    var items := Members(rows, order[0]);
    var rest := FindDuplicates(rows, fields, order[1..]);
    if |items| > 1 {
      var d := MakeDuplicate(order[0], items, fields);
      assert FindDuplicates(rows, fields, order) == [d] + rest;
      PartNumbersConcat([d], rest);
      assert PartNumbers([d]) == [order[0]];
    } else {
      assert FindDuplicates(rows, fields, order) == [] + rest;
      assert [] + rest == rest;
    }
  }

  function Repeats(rows: seq<Row>): Value -> bool
  {
    k => Occurrences(rows, k) > 1
  }

  /** The reported part numbers are the listed keys whose part occurs more
      than once, in listing order. */
  lemma {:induction false} ReportedKeysAre(rows: seq<Row>, fields: seq<string>, order: seq<Value>)
    ensures PartNumbers(FindDuplicates(rows, fields, order)) == Select(order, Repeats(rows))
  {
    if order != [] {
      ReportedKeysAre(rows, fields, order[1..]);
      ReportedKeys(rows, fields, order);
    }
  }

  /** A key is reported exactly when it is listed and its part occurs in two
      rows or more; a part seen once is never reported. */
  lemma {:induction false} DuplicateFound(rows: seq<Row>, fields: seq<string>, order: seq<Value>, k: Value)
    ensures k in PartNumbers(FindDuplicates(rows, fields, order)) <==> k in order && Occurrences(rows, k) >= 2
  {
    if order != [] {
      DuplicateFound(rows, fields, order[1..], k);
      ReportedKeys(rows, fields, order);
      assert k in order <==> k == order[0] || k in order[1..];
    }
  }

  /** With every key listed once, a part is reported exactly when it occurs in
      two rows or more. */
  lemma DuplicateFoundIff(rows: seq<Row>, fields: seq<string>, order: seq<Value>, k: Value)
    requires EnumeratesParts(rows, order)
    ensures k in PartNumbers(FindDuplicates(rows, fields, order)) <==> Occurrences(rows, k) >= 2
  {
    DuplicateFound(rows, fields, order, k);
    if Occurrences(rows, k) >= 2 {
      OccurringPartIsKey(rows, k);
    }
  }

  /** No part is reported twice. */
  lemma {:induction false} DuplicateKeysDistinct(rows: seq<Row>, fields: seq<string>, order: seq<Value>)
    requires NoDuplicates(order)
    ensures NoDuplicates(PartNumbers(FindDuplicates(rows, fields, order)))
  {
    if order != [] {
      assert NoDuplicates(order[1..]);
      DuplicateKeysDistinct(rows, fields, order[1..]);
      DuplicateFound(rows, fields, order[1..], order[0]);
      ReportedKeys(rows, fields, order);
      var rest := PartNumbers(FindDuplicates(rows, fields, order[1..]));
      if Occurrences(rows, order[0]) > 1 {
        NoDuplicatesCons(order[0], rest);
      } else {
        assert [] + rest == rest;
      }
    }
  }

  // ---------------------------------------------------------------------
  // How many rows the groups hold

  function TotalItems(ds: seq<Duplicate>): nat
  {
    if ds == [] then 0 else |ds[0].items| + TotalItems(ds[1..])
  }

  lemma {:induction false} TotalItemsConcat(a: seq<Duplicate>, b: seq<Duplicate>)
    ensures TotalItems(a + b) == TotalItems(a) + TotalItems(b)
  {
    if a == [] {
      assert a + b == b;
    } else {
      TotalItemsConcat(a[1..], b);
      assert (a + b)[1..] == a[1..] + b;
    }
  }

  function IsDuplicated(rows: seq<Row>): Row -> bool
  {
    r => Occurrences(rows, PartOf(r)) > 1
  }

  /** The rows whose part occurs more than once, in row order. */
  function DuplicatedRows(rows: seq<Row>): seq<Row>
  {
    Select(rows, IsDuplicated(rows))
  }

  function InGroupsOf(rows: seq<Row>, ks: seq<Value>): Row -> bool
  {
    r => PartOf(r) in ks && Occurrences(rows, PartOf(r)) > 1
  }

  function InGroupOf(rows: seq<Row>, k: Value): Row -> bool
  {
    r => PartOf(r) == k && Occurrences(rows, k) > 1
  }

  lemma {:induction false} TotalItemsCountsRows(rows: seq<Row>, fields: seq<string>, ks: seq<Value>)
    requires NoDuplicates(ks)
    ensures TotalItems(FindDuplicates(rows, fields, ks)) == |Select(rows, InGroupsOf(rows, ks))|
  {
    if ks == [] {
      SelectNone(rows, InGroupsOf(rows, ks));
    } else {
      var k := ks[0];
      TotalItemsCountsRows(rows, fields, ks[1..]);
      var items := Members(rows, k);
      var head := if |items| > 1 then [MakeDuplicate(k, items, fields)] else [];
      TotalItemsConcat(head, FindDuplicates(rows, fields, ks[1..]));
      SelectSplitCount(rows, InGroupOf(rows, k), InGroupsOf(rows, ks[1..]), InGroupsOf(rows, ks));
      if |items| > 1 {
        SelectCongruent(rows, InGroupOf(rows, k), PartIs(k));
      } else {
        SelectNone(rows, InGroupOf(rows, k));
      }
    }
  }

  /** The group sizes add up to the number of rows whose part occurs at least
      twice: every such row is in exactly one group. */
  lemma GroupSizesSum(rows: seq<Row>, fields: seq<string>, order: seq<Value>)
    requires EnumeratesParts(rows, order)
    ensures TotalItems(FindDuplicates(rows, fields, order)) == |DuplicatedRows(rows)|
  {
    TotalItemsCountsRows(rows, fields, order);
    forall i | 0 <= i < |rows|
      ensures InGroupsOf(rows, order)(rows[i]) == IsDuplicated(rows)(rows[i])
    {
      assert Column(rows, PartField)[i] == PartOf(rows[i]);
    }
    SelectCongruent(rows, InGroupsOf(rows, order), IsDuplicated(rows));
  }

  // ---------------------------------------------------------------------
  // filteredDuplicates

  datatype Filters = Filters(partNumber: string, location: string)

  /** The result of evaluating an expression that may throw a `TypeError`. */
  datatype Outcome<T> = Ok(value: T) | TypeError

  /** `!filters.partNumber || String(partNumber).toLowerCase().includes(...)` */
  predicate PartMatch(d: Duplicate, f: Filters)
  {
    f.partNumber == "" ||
    match Text(d.partNumber)
    case None => false
    case Some(t) => ContainsIgnoringCase(t, f.partNumber)
  }

  /** `item.Branch && item.Branch.toLowerCase().includes(loc.toLowerCase())`:
      a truthy `Branch` that is not a string has no `toLowerCase` and throws. */
  function BranchMatch(item: Row, loc: string): Outcome<bool>
  {
    var b := Get(item, LocationField);
    if !Truthy(b) then Ok(false)
    else if b.Str? then Ok(ContainsIgnoringCase(b.s, loc))
    else TypeError
  }

  /** `items.some(item => BranchMatch(item))`, stopping at the first `true`
      or the first throw. */
  function SomeBranchMatches(items: seq<Row>, loc: string): Outcome<bool>
  {
    if items == [] then Ok(false)
    else match BranchMatch(items[0], loc)
      case TypeError => TypeError
      case Ok(true) => Ok(true)
      case Ok(false) => SomeBranchMatches(items[1..], loc)
  }

  function LocationMatch(d: Duplicate, f: Filters): Outcome<bool>
  {
    if f.location == "" then Ok(true) else SomeBranchMatches(d.items, f.location)
  }

  /** The filter callback: both matches are computed before `&&`, so a throw in
      the location match happens whatever the part match is. */
  function Keep(d: Duplicate, f: Filters): Outcome<bool>
  {
    var part := PartMatch(d, f);
    match LocationMatch(d, f)
    case TypeError => TypeError
    case Ok(loc) => Ok(part && loc)
  }

  /** `duplicates.filter(Keep)` */
  function FilterDuplicates(ds: seq<Duplicate>, f: Filters): Outcome<seq<Duplicate>>
  {
    if ds == [] then Ok([])
    else match Keep(ds[0], f)
      case TypeError => TypeError
      case Ok(keep) =>
        match FilterDuplicates(ds[1..], f)
        case TypeError => TypeError
        case Ok(rest) => Ok((if keep then [ds[0]] else []) + rest)
  }

  const NoFilters := Filters("", "")

  /** Empty filters pass every duplicate. */
  lemma {:induction false} FilterNoFilters(ds: seq<Duplicate>)
    ensures FilterDuplicates(ds, NoFilters) == Ok(ds)
  {
    if ds != [] {
      FilterNoFilters(ds[1..]);
      assert [ds[0]] + ds[1..] == ds;
    }
  }

  /** The filter throws exactly when the callback throws on some duplicate. */
  lemma {:induction false} FilterThrows(ds: seq<Duplicate>, f: Filters)
    ensures FilterDuplicates(ds, f) == TypeError <==> exists i :: 0 <= i < |ds| && Keep(ds[i], f) == TypeError
  {
    if ds != [] {
      FilterThrows(ds[1..], f);
      if Keep(ds[0], f) != TypeError && FilterDuplicates(ds[1..], f) == TypeError {
        var i :| 0 <= i < |ds[1..]| && Keep(ds[1..][i], f) == TypeError;
        assert Keep(ds[i + 1], f) == TypeError;
      }
      if FilterDuplicates(ds[1..], f) != TypeError {
        assert forall i :: 1 <= i < |ds| ==> ds[i] == ds[1..][i - 1];
      }
    }
  }

  /** Without a location filter nothing can throw. */
  lemma NoLocationNoThrow(ds: seq<Duplicate>, f: Filters)
    requires f.location == ""
    ensures FilterDuplicates(ds, f).Ok?
  {
    FilterThrows(ds, f);
  }

  /** A successful filter keeps a subsequence of the duplicates, in order,
      and keeps exactly those the callback accepts. */
  lemma {:induction false} FilterKeeps(ds: seq<Duplicate>, f: Filters, d: Duplicate)
    requires FilterDuplicates(ds, f).Ok?
    ensures IsSubsequence(FilterDuplicates(ds, f).value, ds)
    ensures d in FilterDuplicates(ds, f).value <==> d in ds && Keep(d, f) == Ok(true)
  {
    if ds != [] {
      FilterKeeps(ds[1..], f, d);
      var rest := FilterDuplicates(ds[1..], f).value;
      if Keep(ds[0], f) == Ok(true) {
        assert FilterDuplicates(ds, f).value == [ds[0]] + rest;
        assert ([ds[0]] + rest)[1..] == rest;
      } else {
        assert FilterDuplicates(ds, f).value == rest;
        SubsequenceOfTail(rest, ds);
      }
    }
  }

  /** Filtering the filtered duplicates again changes nothing. */
  lemma {:induction false} FilterIdempotent(ds: seq<Duplicate>, f: Filters)
    requires FilterDuplicates(ds, f).Ok?
    ensures FilterDuplicates(FilterDuplicates(ds, f).value, f) == FilterDuplicates(ds, f)
  {
    if ds != [] {
      FilterIdempotent(ds[1..], f);
      var rest := FilterDuplicates(ds[1..], f).value;
      assert FilterDuplicates(rest, f) == Ok(rest);
      if Keep(ds[0], f) == Ok(true) {
        var r := [ds[0]] + rest;
        assert FilterDuplicates(ds, f) == Ok(r);
        assert r[0] == ds[0] && r[1..] == rest;
        assert FilterDuplicates(r, f) == Ok([ds[0]] + rest);
      } else {
        assert Keep(ds[0], f) == Ok(false);
        assert [] + rest == rest;
      }
    }
  }

  /** Every `Branch` of the items is a string or falsy. */
  predicate BranchesAreText(items: seq<Row>)
  {
    forall i :: 0 <= i < |items| ==> Get(items[i], LocationField).Str? || !Truthy(Get(items[i], LocationField))
  }

  predicate HasBranchContaining(item: Row, loc: string)
  {
    var b := Get(item, LocationField);
    b.Str? && b.s != "" && ContainsIgnoringCase(b.s, loc)
  }

  /** With text-only branches, the location match holds exactly when some item
      has a non-empty `Branch` that contains the filter, ignoring case. */
  lemma {:induction false} TextBranchesMatch(items: seq<Row>, loc: string)
    requires BranchesAreText(items)
    ensures SomeBranchMatches(items, loc) == Ok(exists i :: 0 <= i < |items| && HasBranchContaining(items[i], loc))
  {
    if items != [] {
      TextBranchesMatch(items[1..], loc);
      if !HasBranchContaining(items[0], loc) {
        assert forall i :: 1 <= i < |items| ==> items[i] == items[1..][i - 1];
      }
    }
  }

  /** With text-only branches the callback never throws, and it accepts a
      duplicate exactly when its part number contains the part filter and,
      when a location is chosen, some item's non-empty `Branch` contains it. */
  lemma KeepIff(d: Duplicate, f: Filters)
    requires BranchesAreText(d.items)
    ensures Keep(d, f) == Ok(PartMatch(d, f) &&
      (f.location == "" || exists i :: 0 <= i < |d.items| && HasBranchContaining(d.items[i], f.location)))
  {
    if f.location != "" {
      TextBranchesMatch(d.items, f.location);
    }
  }

  /** The location match throws exactly when some item's `Branch` is a truthy
      non-string and every item before it fails to match. */
  lemma {:induction false} BranchMatchThrows(items: seq<Row>, loc: string)
    ensures SomeBranchMatches(items, loc) == TypeError <==>
      exists i :: 0 <= i < |items| && BranchMatch(items[i], loc) == TypeError &&
        (forall j :: 0 <= j < i ==> BranchMatch(items[j], loc) == Ok(false))
  {
    if items != [] {
      BranchMatchThrows(items[1..], loc);
      var t := items[1..];
      if BranchMatch(items[0], loc) == Ok(false) {
        if SomeBranchMatches(t, loc) == TypeError {
          var i :| 0 <= i < |t| && BranchMatch(t[i], loc) == TypeError &&
            (forall j :: 0 <= j < i ==> BranchMatch(t[j], loc) == Ok(false));
          assert BranchMatch(items[i + 1], loc) == TypeError;
          assert forall j :: 1 <= j < i + 1 ==> items[j] == t[j - 1];
        } else {
          forall i | 0 <= i < |items| && BranchMatch(items[i], loc) == TypeError
            ensures exists j :: 0 <= j < i && BranchMatch(items[j], loc) != Ok(false)
          {
            assert i > 0 && items[i] == t[i - 1];
          }
        }
      }
    }
  }

  // ---------------------------------------------------------------------
  // The location picker

  /** `[...new Set(data.map(item => item.Branch))].filter(Boolean)` */
  function UniqueLocations(rows: seq<Row>): seq<Value>
  {
    Select(Distinct(Column(rows, LocationField)), Truthy)
  }

  /** The picker lists each location once, never a falsy one, and exactly the
      truthy `Branch` cells of the data. */
  lemma UniqueLocationsMembers(rows: seq<Row>, v: Value)
    ensures NoDuplicates(UniqueLocations(rows))
    ensures v in UniqueLocations(rows) <==> Truthy(v) && v in Column(rows, LocationField)
  {
    var col := Column(rows, LocationField);
    DistinctNoDuplicates(col);
    SelectNoDuplicates(Distinct(col), Truthy);
    SelectMembers(Distinct(col), Truthy, v);
    DistinctMembers(col, v);
  }

  /** The picker is the distinct `Branch` cells of the rows that have a truthy
      `Branch`: dropping the falsy cells after `new Set` or before it gives
      the same list. */
  lemma UniqueLocationsOfBranchedRows(rows: seq<Row>)
    ensures UniqueLocations(rows) == Distinct(Column(Select(rows, CellPasses(LocationField, Truthy)), LocationField))
  {
    SelectDistinct(Column(rows, LocationField), Truthy);
    ColumnSelect(rows, LocationField, Truthy);
  }

  /** The picker lists locations in the order they first occur in the data. */
  lemma UniqueLocationsOrder(rows: seq<Row>, i: nat, j: nat)
    requires i < j < |UniqueLocations(rows)|
    ensures UniqueLocations(rows)[i] in Column(rows, LocationField)
    ensures UniqueLocations(rows)[j] in Column(rows, LocationField)
    ensures FirstIndex(Column(rows, LocationField), UniqueLocations(rows)[i]) <
            FirstIndex(Column(rows, LocationField), UniqueLocations(rows)[j])
  {
    var col := Column(rows, LocationField);
    var d := Distinct(col);
    SelectOrder(d, Truthy, i, j);
    var i', j' :| 0 <= i' < j' < |d| && d[i'] == UniqueLocations(rows)[i] && d[j'] == UniqueLocations(rows)[j];
    DistinctOrder(col, i', j');
  }
}

/**
  The part variance matrix: the parsed rows (one per part, one numeric column
  per location), the subset the two filter fields select (part number and
  location column) and the column sort. The component's state is a class;
  the effect that recomputes the filtered rows whenever the filters or the
  data change is `ApplyFilters`.
*/
module PartMatrix {
  import opened JsValues
  import opened Sequences
  import opened TableSort

  const PartField := "Part"
  const NoDataMessage := "No data found in the CSV file"

  /** The two filter inputs; an empty one is switched off. */
  datatype Filters = Filters(partNumber: string, location: string)

  const NoFilters := Filters("", "")

  /** `item.Part.toLowerCase()` only works when every `Part` cell is a string. */
  predicate PartsAreText(rows: seq<Row>)
  {
    forall i :: 0 <= i < |rows| ==> Get(rows[i], PartField).Str?
  }

  /** `item.Part.toLowerCase().includes(filter.toLowerCase())` on a string `Part`. */
  predicate PartContains(r: Row, filter: string)
  {
    Get(r, PartField).Str? && ContainsIgnoringCase(Get(r, PartField).s, filter)
  }

  function HasPart(filter: string): Row -> bool
  {
    r => PartContains(r, filter)
  }

  /** `!isNaN(parseFloat(item[column])) && parseFloat(item[column]) !== 0` */
  function HasStock(column: string): Row -> bool
  {
    r => ParsesNonZero(Get(r, column))
  }

  /** A row passes every filter that is switched on. */
  predicate Keeps(r: Row, f: Filters)
  {
    && (f.partNumber == "" || PartContains(r, f.partNumber))
    && (f.location == "" || ParsesNonZero(Get(r, f.location)))
  }

  function Matching(f: Filters): Row -> bool
  {
    r => Keeps(r, f)
  }

  /** The rows the filters select, in data order. */
  function Query(data: seq<Row>, f: Filters): seq<Row>
  {
    Select(data, Matching(f))
  }

  /** The query keeps a subsequence of the data, exactly the rows that pass. */
  lemma QueryMembers(data: seq<Row>, f: Filters, x: Row)
    ensures IsSubsequence(Query(data, f), data)
    ensures x in Query(data, f) <==> x in data && Keeps(x, f)
  {
    SelectIsSubsequence(data, Matching(f));
    SelectMembers(data, Matching(f), x);
  }

  /** With both fields empty the query is the data itself. */
  lemma QueryNoFilters(data: seq<Row>)
    ensures Query(data, NoFilters) == data
  {
    SelectAll(data, Matching(NoFilters));
  }

  /** Re-applying the filters to their own output changes nothing. */
  lemma QueryIdempotent(data: seq<Row>, f: Filters)
    ensures Query(Query(data, f), f) == Query(data, f)
  {
    SelectIdempotent(data, Matching(f));
  }

  /** On text parts, a row passes the part filter exactly when its lower-cased
      part contains the lower-cased filter. */
  lemma PartFilterOnText(data: seq<Row>, f: Filters, x: Row)
    requires PartsAreText(data) && x in data && f.location == ""
    ensures x in Query(data, f) <==> f.partNumber == "" || ContainsIgnoringCase(Get(x, PartField).s, f.partNumber)
  {
    QueryMembers(data, f, x);
  }

  predicate IsLocationField(field: string)
  {
    field != PartField
  }

  /** `fields.filter(field => field !== 'Part')` */
  function LocationFields(fields: seq<string>): seq<string>
  {
    Select(fields, IsLocationField)
  }

  /** The location columns are the headers other than `Part`, in header order. */
  lemma LocationFieldsAre(fields: seq<string>, x: string)
    ensures IsSubsequence(LocationFields(fields), fields)
    ensures x in LocationFields(fields) <==> x in fields && x != PartField
  {
    SelectIsSubsequence(fields, IsLocationField);
    SelectMembers(fields, IsLocationField, x);
  }

  class PartVarianceMatrix {
    var data: seq<Row>
    var filteredData: seq<Row>
    var filters: Filters
    var uniqueLocations: seq<string>
    var sortConfig: SortConfig
    var error: Option<string>
    /** The filter effect threw a `TypeError` (a non-string `Part` under a
        switched-on part filter), which unmounts the component. */
    var crashed: bool

    /** Unless the component has crashed, the shown rows are the rows the
        filters select, in some order. */
    predicate Valid()
      reads this
    {
      crashed || multiset(filteredData) == multiset(Query(data, filters))
    }

    constructor()
      ensures Valid()
      ensures data == [] && filteredData == [] && filters == NoFilters
      ensures uniqueLocations == [] && sortConfig == Unsorted && error == None && !crashed
    {
      data := [];
      filteredData := [];
      filters := NoFilters;
      uniqueLocations := [];
      sortConfig := Unsorted;
      error := None;
      crashed := false;
    }

    /** The `applyFilters` effect: narrow a copy of the data one switched-on
        filter at a time; any earlier sort order is dropped. The part filter
        calls `toLowerCase` on every row's `Part`, so one non-string `Part`
        throws. */
    method ApplyFilters()
      modifies this
      ensures (filters.partNumber == "" || PartsAreText(data)) ==>
        filteredData == Query(data, filters) && crashed == old(crashed)
      ensures (filters.partNumber != "" && !PartsAreText(data)) ==>
        filteredData == old(filteredData) && crashed
      ensures data == old(data) && filters == old(filters) && uniqueLocations == old(uniqueLocations)
      ensures sortConfig == old(sortConfig) && error == old(error)
      ensures Valid()
    {
      var f := filters;
      if f.partNumber != "" && !PartsAreText(data) {
        crashed := true;
        return;
      }
      var filtered := data;
      QueryNoFilters(data);
      ghost var g := NoFilters;
      assert filtered == Query(data, g);

      if f.partNumber != "" {
        ghost var g' := g.(partNumber := f.partNumber);
        SelectFuse(data, Matching(g), HasPart(f.partNumber), Matching(g'));
        filtered := Select(filtered, HasPart(f.partNumber));
        g := g';
      }
      assert g == Filters(f.partNumber, "") && filtered == Query(data, g);

      if f.location != "" {
        ghost var g' := g.(location := f.location);
        SelectFuse(data, Matching(g), HasStock(f.location), Matching(g'));
        filtered := Select(filtered, HasStock(f.location));
        g := g';
      }
      assert g == f;

      filteredData := filtered;
    }

    /** A change of the filter inputs, followed by the effect it triggers. */
    method SetFilters(f: Filters)
      modifies this
      ensures filters == f
      ensures (f.partNumber == "" || PartsAreText(data)) ==>
        filteredData == Query(data, f) && crashed == old(crashed)
      ensures (f.partNumber != "" && !PartsAreText(data)) ==>
        filteredData == old(filteredData) && crashed
      ensures data == old(data) && uniqueLocations == old(uniqueLocations)
      ensures sortConfig == old(sortConfig) && error == old(error)
      ensures Valid()
    {
      filters := f;
      ApplyFilters();
    }

    /** The parse callback: keep non-empty results (and re-run the filter
        effect), otherwise report an error and keep the previous state. */
    method Load(rows: seq<Row>, fields: seq<string>)
      requires Valid()
      modifies this
      ensures |rows| > 0 ==>
        data == rows && uniqueLocations == LocationFields(fields) && error == old(error)
      ensures |rows| > 0 && (filters.partNumber == "" || PartsAreText(rows)) ==>
        filteredData == Query(rows, filters) && crashed == old(crashed)
      ensures |rows| > 0 && filters.partNumber != "" && !PartsAreText(rows) ==>
        filteredData == rows && crashed
      ensures |rows| == 0 ==>
        data == old(data) && filteredData == old(filteredData) && crashed == old(crashed) &&
        uniqueLocations == old(uniqueLocations) && error == Some(NoDataMessage)
      ensures filters == old(filters) && sortConfig == old(sortConfig)
      ensures Valid()
    {
      if |rows| > 0 {
        data := rows;
        filteredData := rows;
        uniqueLocations := LocationFields(fields);
        ApplyFilters();
      } else {
        error := Some(NoDataMessage);
      }
    }

    /** `handleSort(key)`: toggle the direction and sort the shown rows. */
    method HandleSort(key: string)
      requires Valid()
      modifies this
      ensures sortConfig == NextConfig(old(sortConfig), key)
      ensures filteredData == StableSort(old(filteredData), key, sortConfig.direction)
      ensures Sorted(filteredData, key, sortConfig.direction)
      ensures multiset(filteredData) == multiset(old(filteredData))
      ensures data == old(data) && filters == old(filters) && uniqueLocations == old(uniqueLocations)
      ensures error == old(error) && crashed == old(crashed)
      ensures Valid()
    {
      var direction := Asc;
      if sortConfig.key == Some(key) && sortConfig.direction == Asc {
        direction := Desc;
      }
      sortConfig := SortConfig(Some(key), direction);
      var sorted := StableSort(filteredData, key, direction);
      SortPermutes(filteredData, key, direction);
      SortSorts(filteredData, key, direction);
      filteredData := sorted;
    }
  }
}

/**
  The planner variance matrix: the parsed rows, the subset the three filter
  fields select (part number, planner, variance column) and the column sort.
  The component's state is a class; the effect that recomputes the filtered
  rows whenever the filters or the data change is `ApplyFilters`.
*/
module PlannerMatrix {
  import opened JsValues
  import opened Sequences
  import opened TableSort

  const PartNumberField := "Part number"
  const PlannerField := "Planner"
  const NoDataMessage := "No data found in the CSV file"

  /** The three filter inputs; an empty one is switched off. */
  datatype Filters = Filters(planner: string, variance: string, partNumber: string)

  const NoFilters := Filters("", "", "")

  /** `typeof v === 'string' && v.toLowerCase().includes(filter.toLowerCase())` */
  predicate TextContains(v: Value, filter: string)
  {
    v.Str? && ContainsIgnoringCase(v.s, filter)
  }

  function HasPartNumber(filter: string): Row -> bool
  {
    r => TextContains(Get(r, PartNumberField), filter)
  }

  function HasPlanner(filter: string): Row -> bool
  {
    r => TextContains(Get(r, PlannerField), filter)
  }

  /** `!isNaN(parseFloat(item[column])) && parseFloat(item[column]) !== 0` */
  function HasVariance(column: string): Row -> bool
  {
    r => ParsesNonZero(Get(r, column))
  }

  /** A row passes every filter that is switched on. */
  predicate Keeps(r: Row, f: Filters)
  {
    && (f.partNumber == "" || TextContains(Get(r, PartNumberField), f.partNumber))
    && (f.planner == "" || TextContains(Get(r, PlannerField), f.planner))
    && (f.variance == "" || ParsesNonZero(Get(r, f.variance)))
  }

  function Matching(f: Filters): Row -> bool
  {
    r => Keeps(r, f)
  }

  /** The rows the filters select, in data order. */
  function Query(data: seq<Row>, f: Filters): seq<Row>
  {
    Select(data, Matching(f))
  }

  /** The query keeps a subsequence of the data, exactly the rows that pass. */
  lemma QueryMembers(data: seq<Row>, f: Filters, x: Row)
    ensures IsSubsequence(Query(data, f), data)
    ensures x in Query(data, f) <==> x in data && Keeps(x, f)
  {
    SelectIsSubsequence(data, Matching(f));
    SelectMembers(data, Matching(f), x);
  }

  /** With all three fields empty the query is the data itself. */
  lemma QueryNoFilters(data: seq<Row>)
    ensures Query(data, NoFilters) == data
  {
    SelectAll(data, Matching(NoFilters));
  }

  /** Re-applying the filters to their own output changes nothing. */
  lemma QueryIdempotent(data: seq<Row>, f: Filters)
    ensures Query(Query(data, f), f) == Query(data, f)
  {
    SelectIdempotent(data, Matching(f));
  }

  /** A row whose part number or planner is not a string never passes a
      switched-on text filter on that column. */
  lemma NonTextRejected(data: seq<Row>, f: Filters, x: Row)
    requires (f.partNumber != "" && !Get(x, PartNumberField).Str?) ||
             (f.planner != "" && !Get(x, PlannerField).Str?)
    ensures x !in Query(data, f)
  {
    QueryMembers(data, f, x);
  }

  predicate IsVarianceField(field: string)
  {
    field != PlannerField && field != PartNumberField
  }

  /** `fields.filter(field => field !== 'Planner' && field !== 'Part number')` */
  function VarianceFields(fields: seq<string>): seq<string>
  {
    Select(fields, IsVarianceField)
  }

  /** The variance columns are the headers other than the two text columns,
      in header order. */
  lemma VarianceFieldsAre(fields: seq<string>, x: string)
    ensures IsSubsequence(VarianceFields(fields), fields)
    ensures x in VarianceFields(fields) <==> x in fields && x != PlannerField && x != PartNumberField
  {
    SelectIsSubsequence(fields, IsVarianceField);
    SelectMembers(fields, IsVarianceField, x);
  }

  class PlannerVarianceMatrix {
    var data: seq<Row>
    var filteredData: seq<Row>
    var filters: Filters
    var uniqueVariances: seq<string>
    var sortConfig: SortConfig
    var error: Option<string>

    /** The shown rows are always the rows the filters select, in some order. */
    predicate Valid()
      reads this
    {
      multiset(filteredData) == multiset(Query(data, filters))
    }

    constructor()
      ensures Valid()
      ensures data == [] && filteredData == [] && filters == NoFilters
      ensures uniqueVariances == [] && sortConfig == Unsorted && error == None
    {
      data := [];
      filteredData := [];
      filters := NoFilters;
      uniqueVariances := [];
      sortConfig := Unsorted;
      error := None;
    }

    /** The `applyFilters` effect: narrow a copy of the data one switched-on
        filter at a time; any earlier sort order is dropped. */
    method ApplyFilters()
      modifies this
      ensures filteredData == Query(data, filters)
      ensures data == old(data) && filters == old(filters) && uniqueVariances == old(uniqueVariances)
      ensures sortConfig == old(sortConfig) && error == old(error)
      ensures Valid()
    {
      var f := filters;
      var filtered := data;
      QueryNoFilters(data);
      ghost var g := NoFilters;
      assert filtered == Query(data, g);

      if f.partNumber != "" {
        ghost var g' := g.(partNumber := f.partNumber);
        SelectFuse(data, Matching(g), HasPartNumber(f.partNumber), Matching(g'));
        filtered := Select(filtered, HasPartNumber(f.partNumber));
        g := g';
      }
      assert g == Filters("", "", f.partNumber) && filtered == Query(data, g);

      if f.planner != "" {
        ghost var g' := g.(planner := f.planner);
        SelectFuse(data, Matching(g), HasPlanner(f.planner), Matching(g'));
        filtered := Select(filtered, HasPlanner(f.planner));
        g := g';
      }
      assert g == Filters(f.planner, "", f.partNumber) && filtered == Query(data, g);

      if f.variance != "" {
        ghost var g' := g.(variance := f.variance);
        SelectFuse(data, Matching(g), HasVariance(f.variance), Matching(g'));
        filtered := Select(filtered, HasVariance(f.variance));
        g := g';
      }
      assert g == f;

      filteredData := filtered;
    }

    /** A change of the filter inputs, followed by the effect it triggers. */
    method SetFilters(f: Filters)
      modifies this
      ensures filters == f && filteredData == Query(data, f)
      ensures data == old(data) && uniqueVariances == old(uniqueVariances)
      ensures sortConfig == old(sortConfig) && error == old(error)
      ensures Valid()
    {
      filters := f;
      ApplyFilters();
    }

    /** The parse callback: keep non-empty results (and re-run the filter
        effect), otherwise report an error and keep the previous state. */
    method Load(rows: seq<Row>, fields: seq<string>)
      requires Valid()
      modifies this
      ensures |rows| > 0 ==>
        data == rows && filteredData == Query(rows, filters) &&
        uniqueVariances == VarianceFields(fields) && error == old(error)
      ensures |rows| == 0 ==>
        data == old(data) && filteredData == old(filteredData) &&
        uniqueVariances == old(uniqueVariances) && error == Some(NoDataMessage)
      ensures filters == old(filters) && sortConfig == old(sortConfig)
      ensures Valid()
    {
      if |rows| > 0 {
        data := rows;
        filteredData := rows;
        uniqueVariances := VarianceFields(fields);
        ApplyFilters();
      } else {
        error := Some(NoDataMessage);
      }
    }

    /** `handleSort(key)`: toggle the direction and sort the shown rows. */
    method HandleSort(key: string)
      requires Valid()
      modifies this
      ensures sortConfig == NextConfig(old(sortConfig), key)
      ensures filteredData == StableSort(old(filteredData), key, sortConfig.direction)
      ensures Sorted(filteredData, key, sortConfig.direction)
      ensures multiset(filteredData) == multiset(old(filteredData))
      ensures data == old(data) && filters == old(filters) && uniqueVariances == old(uniqueVariances)
      ensures error == old(error)
      ensures Valid()
    {
      var direction := Asc;
      if sortConfig.key == Some(key) && sortConfig.direction == Asc {
        direction := Desc;
      }
      sortConfig := SortConfig(Some(key), direction);
      var sorted := StableSort(filteredData, key, direction);
      SortPermutes(filteredData, key, direction);
      SortSorts(filteredData, key, direction);
      filteredData := sorted;
    }
  }
}

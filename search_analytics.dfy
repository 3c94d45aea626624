/**
 * The row mapping of `query`: every row of a search-analytics response
 * becomes a record (a Python dict) that maps each requested dimension name to
 * the row's key at the same position, followed by the row's metrics.
 *
 * The API call itself is a parameter (its response). Floats are reals: the
 * rounding `round(x, 2)` is stated on exact values.
 */
module SearchAnalytics {
  import opened Wrappers

  /** One entry of `response['rows']`. */
  datatype ApiRow = ApiRow(keys: seq<string>, clicks: int, impressions: int, ctr: real, position: real)

  /** The API response; its `rows` entry may be absent. */
  datatype ApiResponse = ApiResponse(rows: Option<seq<ApiRow>>)

  /** A value stored in a record: a dimension value, a count or a rounded measure. */
  datatype Cell = Text(text: string) | Count(count: int) | Measure(measure: real)

  /** One record: the dict built for one row. */
  type Record = map<string, Cell>

  /** Why `query` raises: `response['rows']` is missing (KeyError), or the row
      at index `row` has fewer keys than there are dimensions (IndexError). */
  datatype QueryError = MissingRows | KeysTooShort(row: nat)

  const CLICKS: string := "clicks"
  const IMPRESSIONS: string := "impressions"
  const CTR: string := "ctr"
  const POSITION: string := "position"

  /** The record keys that the metrics are written to, after the dimensions. */
  function MetricNames(): set<string>
  {
    {CLICKS, IMPRESSIONS, CTR, POSITION}
  }

  /** No dimension at a position in (i, n) has the same name as dimension i,
      so the entry written at i is not overwritten by the loop. */
  predicate LastWriteAt(dims: seq<string>, i: nat, n: nat)
    requires i < n <= |dims|
  {
    forall j :: i < j < n ==> dims[j] != dims[i]
  }

  /** The dict after the first `n` iterations of the loop over the dimensions. */
  function DimensionCells(dims: seq<string>, keys: seq<string>, n: nat): Record
    requires n <= |dims| && n <= |keys|
  {
    if n == 0 then map[] else DimensionCells(dims, keys, n - 1)[dims[n - 1] := Text(keys[n - 1])]
  }

  /** After `n` iterations the dict has an entry for each of the first `n`
      dimension names and nothing else. */
  lemma {:induction false} DimensionCellsDomain(dims: seq<string>, keys: seq<string>, n: nat)
    requires n <= |dims| && n <= |keys|
    ensures forall d :: d in DimensionCells(dims, keys, n) <==> d in dims[..n]
  {
    if n > 0 {
      DimensionCellsDomain(dims, keys, n - 1);
      assert dims[..n] == dims[..n - 1] + [dims[n - 1]];
    }
  }

  /** After `n` iterations a name whose last write so far was at position
      `i` holds the key at `i`. */
  lemma {:induction false} DimensionCellsValue(dims: seq<string>, keys: seq<string>, n: nat, i: nat)
    requires n <= |dims| && n <= |keys| && i < n && LastWriteAt(dims, i, n)
    ensures dims[i] in DimensionCells(dims, keys, n)
    ensures DimensionCells(dims, keys, n)[dims[i]] == Text(keys[i])
  {
    if i < n - 1 {
      assert dims[n - 1] != dims[i];
      assert LastWriteAt(dims, i, n - 1);
      DimensionCellsValue(dims, keys, n - 1, i);
    }
  }

  /** The record built for `row` when it has a key for every dimension. */
  function RowRecord(dims: seq<string>, row: ApiRow): Record
    requires |dims| <= |row.keys|
  {
    DimensionCells(dims, row.keys, |dims|)
      [CLICKS := Count(row.clicks)]
      [IMPRESSIONS := Count(row.impressions)]
      [CTR := Measure(Round2(Percent(row.ctr)))]
      [POSITION := Measure(Round2(row.position))]
  }

  /** A record has exactly the dimension names and the four metric names as
      keys; the clicks and impressions are the row's, unchanged; every
      dimension that neither a later dimension nor a metric overwrites maps
      to the row's key at its position. */
  lemma RowRecordContents(dims: seq<string>, row: ApiRow)
    requires |dims| <= |row.keys|
    ensures forall d :: d in RowRecord(dims, row) <==> d in dims || d in MetricNames()
    ensures RowRecord(dims, row)[CLICKS] == Count(row.clicks)
    ensures RowRecord(dims, row)[IMPRESSIONS] == Count(row.impressions)
    ensures RowRecord(dims, row)[CTR] == Measure(Round2(Percent(row.ctr)))
    ensures RowRecord(dims, row)[POSITION] == Measure(Round2(row.position))
    ensures forall i :: 0 <= i < |dims| && dims[i] !in MetricNames() && LastWriteAt(dims, i, |dims|) ==>
              RowRecord(dims, row)[dims[i]] == Text(row.keys[i])
  {
    DimensionCellsDomain(dims, row.keys, |dims|);
    assert dims[..|dims|] == dims;
    forall i | 0 <= i < |dims| && dims[i] !in MetricNames() && LastWriteAt(dims, i, |dims|)
      ensures RowRecord(dims, row)[dims[i]] == Text(row.keys[i])
    {
      DimensionCellsValue(dims, row.keys, |dims|, i);
    }
  }

  /** The click-through rate as a percentage. */
  function Percent(x: real): real
  {
    x * 100.0
  }

  /** Python's `round(x, 2)` applied to the exact value of `x`: the nearest
      multiple of 0.01, a tie going to the even multiple. */
  function Round2(x: real): real
  {
    var y := x * 100.0;
    var f := y.Floor;
    var n := if y - f as real > 0.5 || (y - f as real == 0.5 && f % 2 != 0) then f + 1 else f;
    n as real / 100.0
  }

  /** The rounded value is a whole number of hundredths, at most half a
      hundredth away from the exact one. */
  lemma Round2Nearest(x: real)
    ensures x - 0.005 <= Round2(x) <= x + 0.005
    ensures (Round2(x) * 100.0).Floor as real == Round2(x) * 100.0
  {
    var y := x * 100.0;
    var f := y.Floor;
    var n := if y - f as real > 0.5 || (y - f as real == 0.5 && f % 2 != 0) then f + 1 else f;
    assert Round2(x) == n as real / 100.0;
    assert Round2(x) * 100.0 == n as real;
  }

  /** Whether every row has a key for every dimension. */
  predicate AllKeysCover(dims: seq<string>, rows: seq<ApiRow>)
  {
    forall k :: 0 <= k < |rows| ==> |dims| <= |rows[k].keys|
  }

  /** The list `results` after a pass over `rows` that raises nothing. */
  function Records(dims: seq<string>, rows: seq<ApiRow>): (recs: seq<Record>)
    requires AllKeysCover(dims, rows)
    ensures |recs| == |rows|
  {
    if rows == [] then []
    else
      var n := |rows| - 1;
      assert AllKeysCover(dims, rows[..n]) by {
        forall k | 0 <= k < n ensures |dims| <= |rows[..n][k].keys| {
          assert rows[..n][k] == rows[k];
        }
      }
      Records(dims, rows[..n]) + [RowRecord(dims, rows[n])]
  }

  /** The `k`-th record is the record of the `k`-th row: one per row, in order. */
  lemma {:induction false} RecordsAt(dims: seq<string>, rows: seq<ApiRow>)
    requires AllKeysCover(dims, rows)
    ensures forall k :: 0 <= k < |rows| ==> Records(dims, rows)[k] == RowRecord(dims, rows[k])
  {
    if rows != [] {
      var n := |rows| - 1;
      assert AllKeysCover(dims, rows[..n]) by {
        forall k | 0 <= k < n ensures |dims| <= |rows[..n][k].keys| {
          assert rows[..n][k] == rows[k];
        }
      }
      RecordsAt(dims, rows[..n]);
      forall k | 0 <= k < |rows| ensures Records(dims, rows)[k] == RowRecord(dims, rows[k]) {
        if k < n {
          assert rows[..n][k] == rows[k];
        }
      }
    }
  }

  /** One more row that covers the dimensions adds its record at the end. */
  lemma RecordsSnoc(dims: seq<string>, rows: seq<ApiRow>, k: nat)
    requires k < |rows| && AllKeysCover(dims, rows[..k]) && |dims| <= |rows[k].keys|
    ensures AllKeysCover(dims, rows[..k + 1])
    ensures Records(dims, rows[..k + 1]) == Records(dims, rows[..k]) + [RowRecord(dims, rows[k])]
  {
    var p := rows[..k + 1];
    PrefixSnoc(rows, k);
    forall j | 0 <= j < |p| ensures |dims| <= |p[j].keys| {
      if j < k {
        assert p[j] == rows[..k][j];
      }
    }
    assert p != [] && |p| - 1 == k;
    assert Records(dims, p) == Records(dims, p[..k]) + [RowRecord(dims, p[k])];
  }

  lemma PrefixSnoc<T>(s: seq<T>, k: nat)
    requires k < |s|
    ensures s[..k + 1] == s[..k] + [s[k]]
    ensures s[..k + 1][..k] == s[..k] && s[..k + 1][k] == s[k]
  {
  }

  /** `query(service, url, payload)` after the API call: one record per row, in
      order, or the error that the first ill-formed part of the response raises. */
  method Query(dims: seq<string>, response: ApiResponse) returns (r: Result<seq<Record>, QueryError>)
    ensures response.rows.None? ==> r == Failure(MissingRows)
    ensures response.rows.Some? && AllKeysCover(dims, response.rows.value) ==>
              r == Success(Records(dims, response.rows.value))
    ensures response.rows.Some? && !AllKeysCover(dims, response.rows.value) ==>
              var rows := response.rows.value;
              r.Failure? && r.error.KeysTooShort? && r.error.row < |rows| &&
              |rows[r.error.row].keys| < |dims| &&
              AllKeysCover(dims, rows[..r.error.row])
  {
    if response.rows.None? {
      return Failure(MissingRows);
    }
    var rows := response.rows.value;
    var results: seq<Record> := [];
    var k := 0;
    while k < |rows|
      invariant 0 <= k <= |rows|
      invariant AllKeysCover(dims, rows[..k])
      invariant results == Records(dims, rows[..k])
    {
      var row := rows[k];
      var data: Record := map[];
      var i := 0;
      while i < |dims|
        invariant 0 <= i <= |dims| && i <= |row.keys|
        invariant data == DimensionCells(dims, row.keys, i)
      {
        if i >= |row.keys| {
          assert |rows[k].keys| < |dims|;
          return Failure(KeysTooShort(k));
        }
        data := data[dims[i] := Text(row.keys[i])];
        i := i + 1;
      }
      data := data[CLICKS := Count(row.clicks)];
      data := data[IMPRESSIONS := Count(row.impressions)];
      data := data[CTR := Measure(Round2(Percent(row.ctr)))];
      data := data[POSITION := Measure(Round2(row.position))];
      assert data == RowRecord(dims, row);
      RecordsSnoc(dims, rows, k);
      results := results + [data];
      k := k + 1;
    }
    assert rows[..k] == rows;
    return Success(results);
  }

  const PAGE: string := "page"

  /** With the payload's single dimension `page`, each record maps `page` to
      the row's first key. */
  lemma PageRecord(row: ApiRow)
    requires |row.keys| >= 1
    ensures RowRecord([PAGE], row)[PAGE] == Text(row.keys[0])
  {
    RowRecordContents([PAGE], row);
    assert [PAGE][0] == PAGE;
  }
}

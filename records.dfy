/**
 * What a Query knows about its rows, as values: the fetched rows, the
 * bounded current index, the readers of the current record, the lookups
 * by key and the wrap-around text search. The Query class states its
 * methods in terms of these functions.
 */
module Records {
  import opened Values
  import opened Strings

  /** One fetched sqlite3 row: its cells by column name. */
  type Row = map<string, Value>

  /** What other code reads from a Query: its rows, its position and its key columns. */
  datatype QuerySnapshot = QuerySnapshot(rows: seq<Row>, currentIndex: int, pkColumn: string, descriptionColumn: string)

  /**
   * The `current_index` setter for a table of `n` rows: above the last
   * index it stores the last one, below 0 it stores 0, otherwise the
   * value. On an empty table the last index is -1.
   */
  function Clamp(val: int, n: nat): (idx: int)
    ensures n > 0 ==> 0 <= idx < n
    ensures n > 0 ==> forall j :: 0 <= j < n ==> Distance(idx, val) <= Distance(j, val)
    ensures n == 0 ==> idx == (if val >= 0 then -1 else 0)
  {
    if val > n - 1 then n - 1 else if val < 0 then 0 else val
  }

  function Distance(a: int, b: int): nat {
    if a < b then b - a else a - b
  }

  /** The indices the setter can store for a table of `n` rows. */
  predicate InBounds(idx: int, n: nat) {
    if n > 0 then 0 <= idx < n else idx == -1 || idx == 0
  }

  /** The setter always stores an index of that kind; an index of that kind in a non-empty table is kept. */
  lemma ClampInBounds(val: int, n: nat)
    ensures InBounds(Clamp(val, n), n)
    ensures n > 0 && InBounds(val, n) ==> Clamp(val, n) == val
  {
  }

  /** Setting the stored index again keeps it when there are rows, ... */
  lemma ClampIdempotent(val: int, n: nat)
    requires n > 0
    ensures Clamp(Clamp(val, n), n) == Clamp(val, n)
  {
  }

  /** ... but on an empty table `current_index = current_index` flips between -1 and 0. */
  lemma ClampFlipsOnEmpty(val: int)
    ensures Clamp(Clamp(val, 0), 0) != Clamp(val, 0)
    ensures Clamp(Clamp(Clamp(val, 0), 0), 0) == Clamp(val, 0)
  {
  }

  /** Python's `lst[i]` on a list of `n` items: negative indices count from the end. */
  function ListIndex(i: int, n: nat): (r: Result<nat>)
    ensures r.Ok? <==> -(n as int) <= i < n
    ensures r.Ok? ==> r.value < n && (r.value == i || r.value == n + i)
    ensures r.Err? ==> r.error == RowIndex(i)
  {
    if 0 <= i < n then Ok(i) else if -(n as int) <= i < 0 then Ok((n + i) as nat) else Err(RowIndex(i))
  }

  /** `row[column]` on an sqlite3 row. */
  function Cell(row: Row, column: string): (r: Result<Value>)
    ensures r.Ok? <==> column in row
    ensures r.Ok? ==> r.value == row[column]
    ensures r.Err? ==> r.error == MissingColumn(column)
  {
    if column in row then Ok(row[column]) else Err(MissingColumn(column))
  }

  /** `get_current_row()`: nothing when there are no rows, else the row at the current index. */
  function CurrentRow(rows: seq<Row>, idx: int): (r: Result<Option<Row>>)
    ensures |rows| == 0 ==> r == Ok(None)
    ensures |rows| > 0 && InBounds(idx, |rows|) ==> r == Ok(Some(rows[idx]))
    ensures |rows| > 0 && -(|rows| as int) <= idx < 0 ==> r == Ok(Some(rows[|rows| + idx]))
    ensures |rows| > 0 && !(-(|rows| as int) <= idx < |rows|) ==> r == Err(RowIndex(idx))
  {
    if |rows| == 0 then Ok(None)
    else match ListIndex(idx, |rows|)
      case Ok(k) => Ok(Some(rows[k]))
      case Err(e) => Err(e)
  }

  /**
   * `get_current(column, default)`: the default when there are no rows or
   * when the cell holds the empty text, the cell otherwise. A stale
   * negative index reads from the end; one past the rows raises.
   */
  function CurrentValue(rows: seq<Row>, idx: int, column: string, default: Value): (r: Result<Value>)
    ensures |rows| == 0 ==> r == Ok(default)
    ensures |rows| > 0 && InBounds(idx, |rows|) ==>
      r == (if column !in rows[idx] then Err(MissingColumn(column))
            else if rows[idx][column] == Text("") then Ok(default)
            else Ok(rows[idx][column]))
    ensures |rows| > 0 && -(|rows| as int) <= idx < 0 ==>
      var row := rows[|rows| + idx];
      r == (if column !in row then Err(MissingColumn(column))
            else if row[column] == Text("") then Ok(default)
            else Ok(row[column]))
    ensures |rows| > 0 && !(-(|rows| as int) <= idx < |rows|) ==> r == Err(RowIndex(idx))
  {
    if |rows| == 0 then Ok(default)
    else match CurrentRow(rows, idx)
      case Err(e) => Err(e)
      case Ok(row) =>
        if row.None? then Ok(default)
        else match Cell(row.value, column)
          case Err(e) => Err(e)
          case Ok(v) => if v != Text("") then Ok(v) else Ok(default)
  }

  /** Every row before `k` has the column and a different value in it. */
  ghost predicate NoMatchBefore(rows: seq<Row>, column: string, key: Value, k: int) {
    forall j :: 0 <= j < k && j < |rows| ==> column in rows[j] && rows[j][column] != key
  }

  /**
   * The scan of `set_by_pk` and `get_keyed_value`: the first row whose
   * `column` equals `key`; a row without the column raises before a later
   * row is looked at.
   */
  function FindRow(rows: seq<Row>, column: string, key: Value): (r: Result<Option<nat>>)
    ensures r.Ok? && r.value.Some? ==>
      var i := r.value.value;
      i < |rows| && column in rows[i] && rows[i][column] == key && NoMatchBefore(rows, column, key, i)
    ensures r == Ok(None) ==> NoMatchBefore(rows, column, key, |rows|)
    ensures r.Err? ==>
      && r.error == MissingColumn(column)
      && exists j :: 0 <= j < |rows| && column !in rows[j] && NoMatchBefore(rows, column, key, j)
    decreases |rows|
  {
    if |rows| == 0 then Ok(None)
    else if column !in rows[0] then Err(MissingColumn(column))
    else if rows[0][column] == key then Ok(Some(0))
    else match FindRow(rows[1..], column, key)
      case Ok(None) => Ok(None)
      case Ok(Some(i)) => Ok(Some(i + 1))
      case Err(e) => Err(e)
  }

  /** Where a scan that got past `i` rows stops: at the end, at a row without the column, or at the key. */
  lemma {:induction false} FindRowAt(rows: seq<Row>, column: string, key: Value, i: nat)
    requires i <= |rows|
    requires forall j :: 0 <= j < i ==> column in rows[j] && rows[j][column] != key
    ensures i == |rows| ==> FindRow(rows, column, key) == Ok(None)
    ensures i < |rows| && column !in rows[i] ==> FindRow(rows, column, key) == Err(MissingColumn(column))
    ensures i < |rows| && column in rows[i] && rows[i][column] == key ==> FindRow(rows, column, key) == Ok(Some(i))
    decreases i
  {
    if i > 0 {
      assert forall j :: 0 <= j < i - 1 ==> rows[1..][j] == rows[j + 1];
      FindRowAt(rows[1..], column, key, i - 1);
      if i < |rows| {
        assert rows[1..][i - 1] == rows[i];
      }
    }
  }

  /** `get_keyed_value(value_column, key_column, key_value)`: None when no row has the key. */
  function KeyedValue(rows: seq<Row>, valueColumn: string, keyColumn: string, key: Value): (r: Result<Value>)
    ensures FindRow(rows, keyColumn, key) == Ok(None) ==> r == Ok(Null)
    ensures forall i: nat :: FindRow(rows, keyColumn, key) == Ok(Some(i)) ==> r == Cell(rows[i], valueColumn)
    ensures FindRow(rows, keyColumn, key).Err? ==> r == Err(MissingColumn(keyColumn))
  {
    match FindRow(rows, keyColumn, key)
    case Err(e) => Err(e)
    case Ok(None) => Ok(Null)
    case Ok(Some(i)) => Cell(rows[i], valueColumn)
  }

  /** `get_description_for_pk(pk)`: the description column of the first row holding the key. */
  function DescriptionForPk(q: QuerySnapshot, pk: Value): (r: Result<Value>)
    ensures FindRow(q.rows, q.pkColumn, pk) == Ok(None) ==> r == Ok(Null)
    ensures forall i: nat :: FindRow(q.rows, q.pkColumn, pk) == Ok(Some(i)) ==>
      (q.descriptionColumn in q.rows[i] ==> r == Ok(q.rows[i][q.descriptionColumn]))
      && (q.descriptionColumn !in q.rows[i] ==> r == Err(MissingColumn(q.descriptionColumn)))
    ensures FindRow(q.rows, q.pkColumn, pk).Err? ==> r == Err(MissingColumn(q.pkColumn))
  {
    KeyedValue(q.rows, q.descriptionColumn, q.pkColumn, pk)
  }

  /** When every row has both columns, the keyed value is the value beside the first key. */
  lemma KeyedValueOfFirstKey(rows: seq<Row>, valueColumn: string, keyColumn: string, key: Value, i: nat)
    requires forall j :: 0 <= j < |rows| ==> keyColumn in rows[j] && valueColumn in rows[j]
    requires i < |rows| && rows[i][keyColumn] == key
    requires forall j :: 0 <= j < i ==> rows[j][keyColumn] != key
    ensures KeyedValue(rows, valueColumn, keyColumn, key) == Ok(rows[i][valueColumn])
  {
    var r := FindRow(rows, keyColumn, key);
    assert r.Ok?;
    assert r.value.Some? by {
      assert !NoMatchBefore(rows, keyColumn, key, |rows|);
    }
    var m := r.value.value;
    assert m <= i by {
      assert !NoMatchBefore(rows, keyColumn, key, i + 1);
    }
    assert m >= i by {
      assert rows[m][keyColumn] == key;
    }
  }

  /** When every row has the key column and none holds the key, the keyed value is None. */
  lemma KeyedValueOfAbsentKey(rows: seq<Row>, valueColumn: string, keyColumn: string, key: Value)
    requires forall j :: 0 <= j < |rows| ==> keyColumn in rows[j] && rows[j][keyColumn] != key
    ensures KeyedValue(rows, valueColumn, keyColumn, key) == Ok(Null)
  {
    var r := FindRow(rows, keyColumn, key);
    assert r.Ok?;
    assert r.value.None? by {
      assert forall m: nat :: m < |rows| ==> rows[m][keyColumn] != key;
    }
  }

  /** `list(range(lo, hi))`. */
  function Range(lo: nat, hi: int): (r: seq<nat>)
    ensures |r| == if lo < hi then hi - lo else 0
    ensures forall k :: 0 <= k < |r| ==> r[k] == lo + k
    decreases hi - lo
  {
    if lo >= hi then [] else [lo] + Range(lo + 1, hi)
  }

  /** The positions `search` looks at: after the current one to the end, then from the start up to it. */
  function ScanOrder(cur: int, n: nat): (r: seq<nat>)
    requires cur >= -1
    ensures |r| == (if cur + 1 < n then n - cur - 1 else 0) + (if cur > 0 then cur else 0)
    ensures forall k :: 0 <= k < |r| ==> r[k] != cur
  {
    Range(cur + 1, n) + Range(0, cur)
  }

  /** From an index the setter stores, every other row is looked at exactly once, and the current one never. */
  lemma ScanOrderVisitsOthers(cur: int, n: nat)
    requires InBounds(cur, n)
    ensures |ScanOrder(cur, n)| == if n > 0 then n - 1 else 0
    ensures forall p: nat :: p in ScanOrder(cur, n) <==> p < n && p != cur
    ensures forall j, k :: 0 <= j < k < |ScanOrder(cur, n)| ==> ScanOrder(cur, n)[j] != ScanOrder(cur, n)[k]
  {
    ScanOrderMembers(cur, n);
  }

  /** The positions looked at are the rows other than the current one. */
  lemma ScanOrderMembers(cur: int, n: nat)
    requires InBounds(cur, n)
    ensures forall p: nat :: p in ScanOrder(cur, n) <==> p < n && p != cur
  {
    var a, b := Range(cur + 1, n), Range(0, cur);
    forall p: nat | p < n && p != cur ensures p in ScanOrder(cur, n) {
      if p > cur {
        assert a[p - cur - 1] == p;
      } else {
        assert b[p] == p;
      }
    }
  }

  /** The k-th position looked at is k + 1 places after the current one, wrapping around at the end. */
  lemma ScanOrderWraps(cur: int, n: nat, k: nat)
    requires 0 <= cur < n
    requires k < |ScanOrder(cur, n)|
    ensures ScanOrder(cur, n)[k] == (cur + 1 + k) % n
  {
    var a := Range(cur + 1, n);
    if k < |a| {
      assert ScanOrder(cur, n)[k] == cur + 1 + k;
      ModBelow(cur + 1 + k, n);
    } else {
      var x := k - |a|;
      assert ScanOrder(cur, n)[k] == x;
      assert cur + 1 + k == x + n;
      ModBelow(x, n);
      ModWrap(x, n);
    }
  }

  lemma ModBelow(x: int, n: int)
    requires 0 <= x < n
    ensures x % n == x
  {
  }

  lemma ModWrap(x: int, n: int)
    requires 0 <= x < n
    ensures (x + n) % n == x % n
  {
  }

  /** The test `search` applies to one cell: present, truthy, and holding the term regardless of case. */
  predicate Matches(row: Row, column: string, term: string)
    ensures Matches(row, column, term) ==> column in row && Truthy(row[column])
    ensures column in row && Truthy(row[column]) && term == "" ==> Matches(row, column, term)
  {
    if column !in row then false
    else
      ContainsEmpty(Lower(ToStr(row[column])));
      Truthy(row[column]) && Contains(Lower(ToStr(row[column])), Lower(term))
  }

  lemma ContainsEmpty(s: string)
    ensures Contains(s, Lower(""))
  {
    assert OccursAt(s, Lower(""), 0);
  }

  /** Every position before `k` is a row index whose row does not match. */
  predicate MissedBefore(rows: seq<Row>, column: string, positions: seq<nat>, term: string, k: int) {
    forall j :: 0 <= j < k && j < |positions| ==> positions[j] < |rows| && !Matches(rows[positions[j]], column, term)
  }

  /**
   * The inner loop of `search` for one column: the first position whose
   * row matches; a position past the last row raises IndexError.
   */
  function ScanColumn(rows: seq<Row>, column: string, positions: seq<nat>, term: string): (r: Result<Option<nat>>)
    ensures r.Ok? && r.value.Some? ==>
      exists k :: 0 <= k < |positions| && positions[k] == r.value.value && positions[k] < |rows|
        && Matches(rows[positions[k]], column, term) && MissedBefore(rows, column, positions, term, k)
    ensures r == Ok(None) ==> MissedBefore(rows, column, positions, term, |positions|)
    ensures r.Err? ==>
      exists k :: (0 <= k < |positions| && positions[k] >= |rows| && r.error == RowIndex(positions[k])
                   && MissedBefore(rows, column, positions, term, k))
    decreases |positions|
  {
    if |positions| == 0 then Ok(None)
    else if positions[0] >= |rows| then Err(RowIndex(positions[0]))
    else if Matches(rows[positions[0]], column, term) then Ok(Some(positions[0]))
    else
      var r := ScanColumn(rows, column, positions[1..], term);
      assert forall k :: 0 < k <= |positions[1..]| ==> positions[1..][k - 1] == positions[k];
      r
  }

  /** The outer loop of `search`: each column of the search order in turn, over all positions. */
  function SearchIn(rows: seq<Row>, columns: seq<string>, positions: seq<nat>, term: string): (r: Result<Option<nat>>)
    ensures r.Ok? && r.value.Some? ==>
      exists c :: 0 <= c < |columns| && ScanColumn(rows, columns[c], positions, term) == r
        && forall d :: 0 <= d < c ==> ScanColumn(rows, columns[d], positions, term) == Ok(None)
    ensures r == Ok(None) ==> forall c :: 0 <= c < |columns| ==> ScanColumn(rows, columns[c], positions, term) == Ok(None)
    ensures r.Err? ==>
      exists c :: 0 <= c < |columns| && ScanColumn(rows, columns[c], positions, term) == r
        && forall d :: 0 <= d < c ==> ScanColumn(rows, columns[d], positions, term) == Ok(None)
    decreases |columns|
  {
    if |columns| == 0 then Ok(None)
    else
      var first := ScanColumn(rows, columns[0], positions, term);
      if first != Ok(None) then first
      else
        var r := SearchIn(rows, columns[1..], positions, term);
        assert forall c :: 0 < c <= |columns[1..]| ==> columns[1..][c - 1] == columns[c];
        r
  }

  /** The row `search` moves to, from the current index `cur`. */
  function SearchHit(rows: seq<Row>, columns: seq<string>, cur: int, term: string): (r: Result<Option<nat>>)
    requires cur >= -1
    ensures r.Ok? && r.value.Some? ==> r.value.value < |rows| && r.value.value in ScanOrder(cur, |rows|)
  {
    var r := SearchIn(rows, columns, ScanOrder(cur, |rows|), term);
    if r.Ok? && r.value.Some? then
      SearchInVisited(rows, columns, ScanOrder(cur, |rows|), term, r.value.value);
      r
    else r
  }

  /** A row that the outer loop finds is one of the positions and one of the rows. */
  lemma SearchInVisited(rows: seq<Row>, columns: seq<string>, positions: seq<nat>, term: string, i: nat)
    requires SearchIn(rows, columns, positions, term) == Ok(Some(i))
    ensures i in positions && i < |rows|
  {
    var c :| 0 <= c < |columns| && ScanColumn(rows, columns[c], positions, term) == Ok(Some(i));
    ScanFindsMatch(rows, columns[c], positions, term, i);
  }

  /** A row that `search` finds is one of the rows. */
  lemma SearchHitInRows(rows: seq<Row>, columns: seq<string>, positions: seq<nat>, term: string, i: nat)
    requires SearchIn(rows, columns, positions, term) == Ok(Some(i))
    ensures i < |rows|
  {
    var c :| 0 <= c < |columns| && ScanColumn(rows, columns[c], positions, term) == Ok(Some(i));
  }

  /** From an index the setter stores, the scan never runs past the rows. */
  lemma SearchNeverFails(rows: seq<Row>, columns: seq<string>, cur: int, term: string)
    requires InBounds(cur, |rows|)
    ensures SearchHit(rows, columns, cur, term).Ok?
  {
    ScanOrderMembers(cur, |rows|);
    var positions := ScanOrder(cur, |rows|);
    forall c | 0 <= c < |columns| ensures ScanColumn(rows, columns[c], positions, term).Ok? {
      assert forall k :: 0 <= k < |positions| ==> positions[k] in positions;
      ScanColumnInRange(rows, columns[c], positions, term);
    }
  }

  /** A scan over row indices only never raises. */
  lemma ScanColumnInRange(rows: seq<Row>, column: string, positions: seq<nat>, term: string)
    requires forall k :: 0 <= k < |positions| ==> positions[k] < |rows|
    ensures ScanColumn(rows, column, positions, term).Ok?
  {
  }

  /** The row found is another row than the current one, and it matches in some column. */
  lemma SearchSound(rows: seq<Row>, columns: seq<string>, cur: int, term: string, i: nat)
    requires InBounds(cur, |rows|)
    requires SearchHit(rows, columns, cur, term) == Ok(Some(i))
    ensures i < |rows| && i != cur
    ensures exists c :: 0 <= c < |columns| && Matches(rows[i], columns[c], term)
  {
    ScanOrderMembers(cur, |rows|);
    var positions := ScanOrder(cur, |rows|);
    var c :| 0 <= c < |columns| && ScanColumn(rows, columns[c], positions, term) == Ok(Some(i));
    ScanFindsMatch(rows, columns[c], positions, term, i);
  }

  /** A position a scan finds is one of its positions, and its row matches. */
  lemma ScanFindsMatch(rows: seq<Row>, column: string, positions: seq<nat>, term: string, i: nat)
    requires ScanColumn(rows, column, positions, term) == Ok(Some(i))
    ensures i in positions && i < |rows| && Matches(rows[i], column, term)
  {
    var k :| 0 <= k < |positions| && positions[k] == i && positions[k] < |rows|
          && Matches(rows[positions[k]], column, term);
  }

  /** Nothing is found exactly when no column of any other row matches. */
  lemma SearchComplete(rows: seq<Row>, columns: seq<string>, cur: int, term: string)
    requires InBounds(cur, |rows|)
    ensures SearchHit(rows, columns, cur, term) == Ok(None) <==>
      forall c, i :: 0 <= c < |columns| && 0 <= i < |rows| && i != cur ==> !Matches(rows[i], columns[c], term)
  {
    ScanOrderMembers(cur, |rows|);
    SearchNeverFails(rows, columns, cur, term);
    var positions := ScanOrder(cur, |rows|);
    if SearchHit(rows, columns, cur, term) == Ok(None) {
      forall c, i | 0 <= c < |columns| && 0 <= i < |rows| && i != cur
        ensures !Matches(rows[i], columns[c], term)
      {
        assert i in positions;
        ScanMissesAll(rows, columns[c], positions, term, i);
      }
    } else {
      var i :| SearchHit(rows, columns, cur, term) == Ok(Some(i));
      SearchSound(rows, columns, cur, term, i);
    }
  }

  /**
   * The search order decides first: a row is only chosen for a column
   * when no other row matches any earlier column.
   */
  lemma SearchPrefersEarlierColumns(rows: seq<Row>, columns: seq<string>, cur: int, term: string, i: nat)
    requires InBounds(cur, |rows|)
    requires SearchHit(rows, columns, cur, term) == Ok(Some(i))
    ensures exists c :: (0 <= c < |columns| && Matches(rows[i], columns[c], term)
                         && forall d, j :: 0 <= d < c && 0 <= j < |rows| && j != cur ==> !Matches(rows[j], columns[d], term))
  {
    ScanOrderMembers(cur, |rows|);
    var positions := ScanOrder(cur, |rows|);
    var c :| 0 <= c < |columns| && ScanColumn(rows, columns[c], positions, term) == Ok(Some(i))
          && forall d :: 0 <= d < c ==> ScanColumn(rows, columns[d], positions, term) == Ok(None);
    ScanFindsMatch(rows, columns[c], positions, term, i);
    forall d, j | 0 <= d < c && 0 <= j < |rows| && j != cur ensures !Matches(rows[j], columns[d], term) {
      assert j in positions;
      ScanMissesAll(rows, columns[d], positions, term, j);
    }
  }

  /** A scan that finds nothing looked at every position and found no match there. */
  lemma ScanMissesAll(rows: seq<Row>, column: string, positions: seq<nat>, term: string, p: nat)
    requires ScanColumn(rows, column, positions, term) == Ok(None)
    requires p in positions
    ensures p < |rows| && !Matches(rows[p], column, term)
  {
    var m :| 0 <= m < |positions| && positions[m] == p;
  }
}

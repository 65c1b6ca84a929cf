/**
 * The Query class: the in-memory copy of one table's rows, the record the
 * user is on, the navigation and search that move it, the callback
 * registry, and the SQL clauses built from the form's relationships.
 * The form's relationship list and its other queries are parameters; the
 * connection is not modelled and fetched rows arrive through `Load`.
 */
module Cursor {
  import opened Values
  import opened Strings
  import opened Records
  import opened Relationships

  /** A callback function, known only by identity. */
  datatype Hook = Hook(id: nat)

  /** The callback names `set_callback` accepts. */
  const SupportedCallbacks: set<string> :=
    {"before_save", "after_save", "before_delete", "after_delete",
     "before_update", "after_update", "before_search", "after_search", "record_changed"}

  /**
   * The name a callback is stored under: `before_update` and `after_update`
   * are aliases of `before_save` and `after_save`; any unsupported name has none.
   */
  function CanonicalCallback(name: string): (c: Option<string>)
    ensures c.None? <==> name !in SupportedCallbacks
    ensures c.Some? ==> c.value in SupportedCallbacks - {"before_update", "after_update"}
    ensures c.Some? && name != "before_update" && name != "after_update" ==> c.value == name
  {
    if name !in SupportedCallbacks then None
    else if name == "before_update" then Some("before_save")
    else if name == "after_update" then Some("after_save")
    else Some(name)
  }

  /** A stored name is its own canonical name, so registering through an alias or the real name is the same. */
  lemma CanonicalCallbackIdempotent(name: string)
    requires CanonicalCallback(name).Some?
    ensures CanonicalCallback(CanonicalCallback(name).value) == CanonicalCallback(name)
  {
  }

  /** The aliases name the same slot as the save callbacks they stand for. */
  lemma UpdateAliasesSave()
    ensures CanonicalCallback("before_update") == CanonicalCallback("before_save") == Some("before_save")
    ensures CanonicalCallback("after_update") == CanonicalCallback("after_save") == Some("after_save")
  {
  }

  /** How `search` ended; Python returns False only for `NotFound` and raises for `Failed`. */
  datatype SearchOutcome =
    | Cancelled            // before_search returned false
    | EmptyTerm            // nothing to search for
    | Moved(index: nat)    // the found row became current
    | Reverted(index: nat) // after_search returned false and the old index was set back
    | NotFound
    | Failed(error: Error)

  /**
   * What `search` returns and the index it leaves behind: a refusing
   * before_search callback stops it before anything else, a refusing
   * after_search callback sets the index back through the setter, and
   * only a find that stands moves the index.
   */
  function SearchEffect(rows: seq<Row>, cur: int, columns: seq<string>, term: string,
                        hasBefore: bool, beforeOk: bool, hasAfter: bool, afterOk: bool): (r: (SearchOutcome, int))
    requires cur >= -1
    ensures r.0 == Cancelled <==> hasBefore && !beforeOk
    ensures r.0 == EmptyTerm <==> !(hasBefore && !beforeOk) && term == ""
    ensures r.0.Reverted? ==> hasAfter && !afterOk && r.1 == Clamp(cur, |rows|)
    ensures r.0.Moved? ==> r.1 == r.0.index && r.1 < |rows|
    ensures !r.0.Moved? && !r.0.Reverted? ==> r.1 == cur
  {
    if hasBefore && !beforeOk then (Cancelled, cur)
    else if term == "" then (EmptyTerm, cur)
    else match SearchHit(rows, columns, cur, term)
      case Err(e) => (Failed(e), cur)
      case Ok(None) => (NotFound, cur)
      case Ok(Some(i)) => if hasAfter && !afterOk then (Reverted(i), Clamp(cur, |rows|)) else (Moved(i), i)
  }

  /**
   * From an index the setter stores, a search never raises and leaves such
   * an index; it only moves to a different, matching row, and every other
   * outcome keeps the index.
   */
  lemma SearchEffectInBounds(rows: seq<Row>, cur: int, columns: seq<string>, term: string,
                             hasBefore: bool, beforeOk: bool, hasAfter: bool, afterOk: bool)
    requires InBounds(cur, |rows|)
    ensures var (outcome, idx) := SearchEffect(rows, cur, columns, term, hasBefore, beforeOk, hasAfter, afterOk);
      && !outcome.Failed?
      && InBounds(idx, |rows|)
      && (outcome.Moved? ==> idx == outcome.index && idx != cur
                             && exists c :: 0 <= c < |columns| && Matches(rows[idx], columns[c], term))
      && (!outcome.Moved? && |rows| > 0 ==> idx == cur)
  {
    ClampInBounds(cur, |rows|);
    if !(hasBefore && !beforeOk) && term != "" {
      SearchNeverFails(rows, columns, cur, term);
      var r := SearchHit(rows, columns, cur, term);
      if r.value.Some? {
        SearchSound(rows, columns, cur, term, r.value.value);
      }
    }
  }

  /** A search that is let run reports nothing found exactly when no other row matches any search column. */
  lemma SearchEffectNotFound(rows: seq<Row>, cur: int, columns: seq<string>, term: string,
                             hasBefore: bool, beforeOk: bool, hasAfter: bool, afterOk: bool)
    requires InBounds(cur, |rows|)
    requires !(hasBefore && !beforeOk) && term != ""
    ensures SearchEffect(rows, cur, columns, term, hasBefore, beforeOk, hasAfter, afterOk).0 == NotFound <==>
      forall c, i :: 0 <= c < |columns| && 0 <= i < |rows| && i != cur ==> !Matches(rows[i], columns[c], term)
  {
    SearchComplete(rows, columns, cur, term);
  }

  /** One step of the outer search loop: a column that finds something or fails decides the search. */
  lemma SearchInStep(rows: seq<Row>, columns: seq<string>, positions: seq<nat>, term: string)
    requires |columns| > 0
    ensures SearchIn(rows, columns, positions, term)
         == if ScanColumn(rows, columns[0], positions, term) != Ok(None) then ScanColumn(rows, columns[0], positions, term)
            else SearchIn(rows, columns[1..], positions, term)
  {
  }

  /**
   * After `set_by_pk` found its row, `get_current_pk()` reads the key back,
   * unless the key is the empty text, which `get_current` turns into its default.
   */
  lemma FoundPkIsCurrent(rows: seq<Row>, pkColumn: string, pk: Value, i: nat)
    requires FindRow(rows, pkColumn, pk) == Ok(Some(i))
    ensures CurrentValue(rows, i, pkColumn, Text("")) == Ok(pk)
  {
  }

  class Query {
    const name: string
    const table: string
    const pkColumn: string
    var descriptionColumn: string
    var query: string
    var order: string
    var join: string
    var where: string
    var rows: seq<Row>
    var currentIndex: int
    var searchOrder: seq<string>
    var callbacks: map<string, Hook>
    var columnNames: seq<string>

    /** The setter never stores an index below -1. */
    ghost predicate Valid()
      reads this
    {
      currentIndex >= -1
    }

    /** What the form's other code reads from this query. */
    function Snapshot(): QuerySnapshot
      reads this
    {
      QuerySnapshot(rows, currentIndex, pkColumn, descriptionColumn)
    }

    /** `Query(...)`: an empty query string selects the whole table, an empty order sorts by the description. */
    constructor (name: string, table: string, pkColumn: string, descriptionColumn: string, query: string, order: string)
      ensures Valid()
      ensures this.name == name && this.table == table && this.pkColumn == pkColumn
      ensures this.descriptionColumn == descriptionColumn
      ensures this.query == (if query == "" then "SELECT * FROM " + table else query)
      ensures this.order == (if order == "" then " ORDER BY " + descriptionColumn + " COLLATE NOCASE ASC" else order)
      ensures join == "" && where == "" && rows == [] && currentIndex == 0
      ensures searchOrder == [] && callbacks == map[] && columnNames == []
    {
      this.name := name;
      this.table := table;
      this.pkColumn := pkColumn;
      this.descriptionColumn := descriptionColumn;
      this.query := if query == "" then "SELECT * FROM " + table else query;
      this.order := if order == "" then " ORDER BY " + descriptionColumn + " COLLATE NOCASE ASC" else order;
      join := "";
      where := "";
      rows := [];
      currentIndex := 0;
      searchOrder := [];
      callbacks := map[];
      columnNames := [];
    }

    /** The `current_index` setter. */
    method SetCurrentIndex(val: int)
      modifies this`currentIndex
      ensures currentIndex == Clamp(val, |rows|)
      ensures Valid()
    {
      if val > |rows| - 1 {
        currentIndex := |rows| - 1;
      } else if val < 0 {
        currentIndex := 0;
      } else {
        currentIndex := val;
      }
    }

    /**
     * What `requery` does to the query's state: the fetched rows replace
     * the old ones, and with `selectFirst` the first record is selected.
     */
    method Load(fetched: seq<Row>, selectFirst: bool)
      requires Valid()
      modifies this`rows, this`currentIndex
      ensures rows == fetched
      ensures currentIndex == if selectFirst then Clamp(0, |fetched|) else old(currentIndex)
      ensures Valid()
    {
      rows := fetched;
      if selectFirst {
        First();
      }
    }

    /** `first()`: the first row, or -1 when there are none. */
    method First()
      modifies this`currentIndex
      ensures currentIndex == if |rows| > 0 then 0 else -1
      ensures Valid()
    {
      SetCurrentIndex(0);
    }

    /** `last()`: the last row, or 0 when there are none. */
    method Last()
      modifies this`currentIndex
      ensures currentIndex == if |rows| > 0 then |rows| - 1 else 0
      ensures Valid()
    {
      SetCurrentIndex(|rows| - 1);
    }

    /** `next()`: one row on, unless already at the last row; `moved` tells whether the record changed. */
    method Next() returns (moved: bool)
      requires Valid()
      modifies this`currentIndex
      ensures moved == (old(currentIndex) < |rows| - 1)
      ensures moved ==> currentIndex == old(currentIndex) + 1
      ensures !moved ==> currentIndex == old(currentIndex)
      ensures Valid()
    {
      moved := currentIndex < |rows| - 1;
      if moved {
        SetCurrentIndex(currentIndex + 1);
      }
    }

    /**
     * `previous()`: one row back, unless already at the first row. From an
     * index beyond the rows the setter clamps to the last row instead.
     */
    method Previous() returns (moved: bool)
      requires Valid()
      modifies this`currentIndex
      ensures moved == (old(currentIndex) > 0)
      ensures moved ==> currentIndex == Clamp(old(currentIndex) - 1, |rows|)
      ensures moved && InBounds(old(currentIndex), |rows|) ==> currentIndex == old(currentIndex) - 1
      ensures !moved ==> currentIndex == old(currentIndex)
      ensures Valid()
    {
      moved := currentIndex > 0;
      if moved {
        SetCurrentIndex(currentIndex - 1);
      }
    }

    /** `set_by_index(index)`. */
    method SetByIndex(index: int)
      modifies this`currentIndex
      ensures currentIndex == Clamp(index, |rows|)
      ensures Valid()
    {
      SetCurrentIndex(index);
    }

    /**
     * `set_by_pk(pk)`: the first row holding `pk` becomes current; without
     * such a row the index stays; a row without the key column raises.
     */
    method SetByPk(pk: Value) returns (r: Result<()>)
      requires Valid()
      modifies this`currentIndex
      ensures r.Ok? == FindRow(rows, pkColumn, pk).Ok?
      ensures r.Err? ==> r.error == MissingColumn(pkColumn)
      ensures forall i: nat :: FindRow(rows, pkColumn, pk) == Ok(Some(i)) ==> currentIndex == i
      ensures FindRow(rows, pkColumn, pk) != Ok(None) || currentIndex == old(currentIndex)
      ensures r.Err? ==> currentIndex == old(currentIndex)
      ensures Valid()
    {
      var i := 0;
      while i < |rows|
        invariant 0 <= i <= |rows|
        invariant forall j :: 0 <= j < i ==> pkColumn in rows[j] && rows[j][pkColumn] != pk
        invariant currentIndex == old(currentIndex)
      {
        FindRowAt(rows, pkColumn, pk, i);
        if pkColumn !in rows[i] {
          return Err(MissingColumn(pkColumn));
        }
        if rows[i][pkColumn] == pk {
          SetCurrentIndex(i);
          return Ok(());
        }
        i := i + 1;
      }
      FindRowAt(rows, pkColumn, pk, i);
      return Ok(());
    }

    /**
     * `search(string)`: from the row after the current one, wrapping
     * around, the first row whose cell in a search column holds the text,
     * trying the search columns one after another.
     */
    method Search(term: string, windowValues: map<string, string>, beforeOk: bool, afterOk: bool)
      returns (outcome: SearchOutcome)
      requires Valid()
      modifies this`currentIndex
      ensures (outcome, currentIndex)
           == SearchEffect(rows, old(currentIndex), searchOrder, if term in windowValues then windowValues[term] else term,
                           "before_search" in callbacks, beforeOk, "after_search" in callbacks, afterOk)
      ensures Valid()
    {
      if "before_search" in callbacks && !beforeOk {
        return Cancelled;
      }
      var s := if term in windowValues then windowValues[term] else term;
      if s == "" {
        return EmptyTerm;
      }
      var start := currentIndex;
      var hit := SearchColumnsOf(Range(start + 1, |rows|) + Range(0, start), s);
      match hit {
        case Err(e) =>
          return Failed(e);
        case Ok(None) =>
          return NotFound;
        case Ok(Some(i)) =>
          SearchHitInRows(rows, searchOrder, ScanOrder(start, |rows|), s, i);
          SetCurrentIndex(i);
          if "after_search" in callbacks && !afterOk {
            SetCurrentIndex(start);
            return Reverted(i);
          }
          return Moved(i);
      }
    }

    /** The outer loop of `search`: the search columns in order, each scanned over all positions. */
    method SearchColumnsOf(positions: seq<nat>, s: string) returns (hit: Result<Option<nat>>)
      ensures hit == SearchIn(rows, searchOrder, positions, s)
    {
      for c := 0 to |searchOrder|
        invariant SearchIn(rows, searchOrder, positions, s) == SearchIn(rows, searchOrder[c..], positions, s)
      {
        var found := ScanColumnOf(searchOrder[c], positions, s);
        SearchInStep(rows, searchOrder[c..], positions, s);
        if found != Ok(None) {
          return found;
        }
        assert searchOrder[c..][1..] == searchOrder[c + 1..];
      }
      return Ok(None);
    }

    /** The inner loop of `search`: the first of `positions` whose row matches in `column`. */
    method ScanColumnOf(column: string, positions: seq<nat>, s: string) returns (hit: Result<Option<nat>>)
      ensures hit == ScanColumn(rows, column, positions, s)
    {
      for k := 0 to |positions|
        invariant ScanColumn(rows, column, positions, s) == ScanColumn(rows, column, positions[k..], s)
      {
        var i := positions[k];
        if i >= |rows| {
          return Err(RowIndex(i));
        }
        if column in rows[i] && Truthy(rows[i][column]) && Contains(Lower(ToStr(rows[i][column])), Lower(s)) {
          return Ok(Some(i));
        }
        assert positions[k..][1..] == positions[k + 1..];
      }
      return Ok(None);
    }

    /** `set_search_order(order)`. */
    method SetSearchOrder(order: seq<string>)
      modifies this`searchOrder
      ensures searchOrder == order
    {
      searchOrder := order;
    }

    /** `set_join_clause(clause)`. */
    method SetJoinClause(clause: string)
      modifies this`join
      ensures join == clause
    {
      join := clause;
    }

    /** `set_where_clause(clause)`. */
    method SetWhereClause(clause: string)
      modifies this`where
      ensures where == clause
    {
      where := clause;
    }

    /**
     * `set_callback(callback, fctn)`: stored under its canonical name; an
     * unsupported name raises and leaves the callbacks as they were.
     */
    method SetCallback(callback: string, fctn: Hook) returns (r: Result<()>)
      modifies this`callbacks
      ensures r.Ok? <==> callback in SupportedCallbacks
      ensures r.Err? ==> r.error == UnsupportedCallback(callback) && callbacks == old(callbacks)
      ensures r.Ok? ==> callbacks == old(callbacks)[CanonicalCallback(callback).value := fctn]
    {
      var supported := SupportedCallbacks;
      if callback in supported {
        var stored := if callback == "before_update" then "before_save" else callback;
        stored := if stored == "after_update" then "after_save" else stored;
        callbacks := callbacks[stored := fctn];
        return Ok(());
      }
      return Err(UnsupportedCallback(callback));
    }

    /** `get_keyed_value(value_column, key_column, key_value)`. */
    method GetKeyedValue(valueColumn: string, keyColumn: string, key: Value) returns (r: Result<Value>)
      ensures r == KeyedValue(rows, valueColumn, keyColumn, key)
    {
      var i := 0;
      while i < |rows|
        invariant 0 <= i <= |rows|
        invariant forall j :: 0 <= j < i ==> keyColumn in rows[j] && rows[j][keyColumn] != key
      {
        FindRowAt(rows, keyColumn, key, i);
        if keyColumn !in rows[i] {
          return Err(MissingColumn(keyColumn));
        }
        if rows[i][keyColumn] == key {
          if valueColumn !in rows[i] {
            return Err(MissingColumn(valueColumn));
          }
          return Ok(rows[i][valueColumn]);
        }
        i := i + 1;
      }
      FindRowAt(rows, keyColumn, key, i);
      return Ok(Null);
    }

    /** `get_description_for_pk(pk)`. */
    method GetDescriptionForPk(pk: Value) returns (r: Result<Value>)
      ensures r == DescriptionForPk(Snapshot(), pk)
    {
      r := GetKeyedValue(descriptionColumn, pkColumn, pk);
    }

    /** `generate_join_clause()`, over the form's relationships. */
    method GenerateJoinClause(rels: seq<Relationship>) returns (clause: string)
      ensures join != "" ==> clause == join
      ensures join == "" ==> clause == JoinPieces(ForTable(rels, table))
    {
      var generated := "";
      for k := 0 to |rels|
        invariant generated == AutoJoin(rels[..k], table)
      {
        assert rels[..k + 1][..k] == rels[..k];
        var r := rels[k];
        if table == r.child {
          var piece := " " + r.join + " " + r.parent + " ON " + r.child + "." + r.fk + " = " + r.parent + "." + r.pk;
          assert piece == JoinPiece(r);
          generated := generated + piece;
        }
      }
      assert rels[..|rels|] == rels;
      clause := if join == "" then generated else join;
    }

    /** `generate_where_clause()`, over the form's relationships and queries. */
    method GenerateWhereClause(rels: seq<Relationship>, queries: map<string, QuerySnapshot>) returns (clause: Result<string>)
      ensures clause == WhereClause(where, rels, table, queries)
    {
      var generated := "";
      for k := 0 to |rels|
        invariant AutoWhere(rels[..k], table, queries) == Ok(generated)
      {
        assert rels[..k + 1][..k] == rels[..k];
        var r := rels[k];
        if table == r.child && r.requeryTable {
          var v := ParentValue(r, queries);
          if v.Err? {
            assert AutoWhere(rels[..k + 1], table, queries) == Err(v.error);
            AutoWhereErrPrefix(rels, table, queries, k + 1);
            return Err(v.error);
          }
          var piece := " WHERE " + Condition(table, r, v.value);
          if generated != "" {
            piece := Replace(piece, "WHERE", "AND");
          }
          generated := generated + piece;
        }
      }
      assert rels[..|rels|] == rels;
      if generated == "" {
        clause := Ok(where);
      } else {
        clause := Ok(generated + " " + Replace(where, "WHERE", "AND"));
      }
    }

    /**
     * `generate_query(join, where, order)`: the stored query, then a blank
     * before each of the stored join, where and order clauses, a clause
     * being left empty when its flag is off. The clauses are the stored
     * ones; nothing is generated from the relationships.
     */
    function GenerateQuery(withJoin: bool, withWhere: bool, withOrder: bool): (q: string)
      reads this
      ensures |q| == |query| + 3 + (if withJoin then |join| else 0) + (if withWhere then |where| else 0)
                     + (if withOrder then |order| else 0)
      ensures q[..|query|] == query
      ensures !withJoin && !withWhere && !withOrder ==> q == query + "   "
      ensures withJoin ==> q[|query| + 1..|query| + 1 + |join|] == join
    {
      query + " " + (if withJoin then join else "") + " " + (if withWhere then where else "")
        + " " + (if withOrder then order else "")
    }

    /**
     * A flag whose stored clause is empty adds nothing, whatever join or
     * where clause the form's relationships would give.
     */
    lemma UnsetClausesAddNothing(withJoin: bool, withWhere: bool, withOrder: bool)
      ensures join == "" ==> GenerateQuery(true, withWhere, withOrder) == GenerateQuery(false, withWhere, withOrder)
      ensures where == "" ==> GenerateQuery(withJoin, true, withOrder) == GenerateQuery(withJoin, false, withOrder)
      ensures order == "" ==> GenerateQuery(withJoin, withWhere, true) == GenerateQuery(withJoin, withWhere, false)
    {
    }

    /**
     * With no stored join the generated query holds no join even when the
     * table's relationships give one: the relationships are not consulted.
     */
    lemma StoredJoinOnly(rels: seq<Relationship>)
      requires join == "" && JoinClause(join, rels, table) != ""
      ensures GenerateQuery(true, true, true) == query + "  " + where + " " + order
      ensures GenerateQuery(true, true, true) == GenerateQuery(false, true, true)
    {
    }

    /**
     * `table_values(columns)`: a list per row with a cell per column
     * (the query's column names when `columns` is None); a foreign key
     * cell shows the parent's description.
     */
    method TableValuesOf(rels: seq<Relationship>, queries: map<string, QuerySnapshot>, columns: Option<seq<string>>)
      returns (values: Result<seq<seq<Value>>>)
      ensures values == TableValues(rows, if columns.None? then columnNames else columns.value, ForTable(rels, table), queries)
    {
      var names := if columns.None? then columnNames else columns.value;
      var own := ForTable(rels, table);
      var acc: seq<seq<Value>> := [];
      for i := 0 to |rows|
        invariant TableValues(rows[..i], names, own, queries) == Ok(acc)
      {
        TableValuesStep(rows, names, own, queries, i);
        var lst := RowValuesOf(rows[i], names, own, queries);
        if lst.Err? {
          assert TableValues(rows[..i + 1], names, own, queries) == Err(lst.error);
          TableValuesErrPrefix(rows, names, own, queries, i + 1);
          return Err(lst.error);
        }
        acc := acc + [lst.value];
      }
      assert rows[..|rows|] == rows;
      values := Ok(acc);
    }

    /** One row of `table_values`: a cell per column. */
    method RowValuesOf(row: Row, names: seq<string>, own: seq<Relationship>, queries: map<string, QuerySnapshot>)
      returns (lst: Result<seq<Value>>)
      ensures lst == RowValues(row, names, own, queries)
    {
      var acc: seq<Value> := [];
      for j := 0 to |names|
        invariant RowValues(row, names[..j], own, queries) == Ok(acc)
      {
        RowValuesStep(row, names, own, queries, j);
        var cell := CellOf(row, names[j], own, queries);
        if cell.Err? {
          assert RowValues(row, names[..j + 1], own, queries) == Err(cell.error);
          RowValuesErrPrefix(row, names, own, queries, j + 1);
          return Err(cell.error);
        }
        acc := acc + [cell.value];
      }
      assert names[..|names|] == names;
      lst := Ok(acc);
    }

    /** The inner loops of `table_values` for one cell. */
    method CellOf(row: Row, col: string, own: seq<Relationship>, queries: map<string, QuerySnapshot>) returns (cell: Result<Value>)
      ensures cell == CellValue(row, col, own, queries)
    {
      for m := 0 to |own|
        invariant FirstWithFk(own, col) == FirstWithFk(own[m..], col)
      {
        var rel := own[m];
        if col == rel.fk {
          if rel.parent !in queries {
            return Err(MissingQuery(rel.parent));
          }
          if col !in row {
            return Err(MissingColumn(col));
          }
          return DescriptionForPk(queries[rel.parent], row[col]);
        }
        assert own[m..][1..] == own[m + 1..];
      }
      if col !in row {
        return Err(MissingColumn(col));
      }
      return Ok(row[col]);
    }
  }
}

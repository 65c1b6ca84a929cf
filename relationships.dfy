/**
 * Foreign-key relationships between the queries of a form, and the SQL
 * fragments and table values derived from them: the relationship's join
 * text, the join clause and the where clause of a child query, and the
 * rows of a query with foreign keys shown as the parent's description.
 */
module Relationships {
  import opened Values
  import opened Strings
  import opened Records

  /** `child.fk` refers to `parent.pk`; `requeryTable` cascades requeries from the parent to the child. */
  datatype Relationship = Relationship(join: string, child: string, fk: string, parent: string, pk: string, requeryTable: bool)

  /** `Relationship.__str__`: `join parent ON child.fk=parent.pk`. */
  function ToString(r: Relationship): (s: string)
    ensures NoEquals(r) ==> Split(s, '=') == [JoinSide(r), KeySide(r)]
  {
    var s := r.join + " " + r.parent + " ON " + r.child + "." + r.fk + "=" + r.parent + "." + r.pk;
    if NoEquals(r) then
      SidesWithoutEquals(r);
      JoinTwo(JoinSide(r), KeySide(r), '=');
      SplitJoin([JoinSide(r), KeySide(r)], '=');
      assert s == JoinSide(r) + ['='] + KeySide(r);
      s
    else s
  }

  /** No name of the relationship holds an '='. */
  predicate NoEquals(r: Relationship) {
    '=' !in r.join && '=' !in r.parent && '=' !in r.child && '=' !in r.fk && '=' !in r.pk
  }

  /** The text before the '=' of the relationship's string: the join, the parent and the child's key. */
  function JoinSide(r: Relationship): string {
    r.join + " " + r.parent + " ON " + r.child + "." + r.fk
  }

  /** The text after the '=': the parent's key. */
  function KeySide(r: Relationship): string {
    r.parent + "." + r.pk
  }

  lemma SidesWithoutEquals(r: Relationship)
    requires NoEquals(r)
    ensures '=' !in JoinSide(r) && '=' !in KeySide(r)
  {
    NotInAppend(r.join, " ", '=');
    NotInAppend(r.join + " ", r.parent, '=');
    NotInAppend(r.join + " " + r.parent, " ON ", '=');
    NotInAppend(r.join + " " + r.parent + " ON ", r.child, '=');
    NotInAppend(r.join + " " + r.parent + " ON " + r.child, ".", '=');
    NotInAppend(r.join + " " + r.parent + " ON " + r.child + ".", r.fk, '=');
    NotInAppend(r.parent, ".", '=');
    NotInAppend(r.parent + ".", r.pk, '=');
  }

  /** The piece `generate_join_clause` writes for one relationship: a blank before, blanks around '='. */
  function JoinPiece(r: Relationship): string {
    " " + r.join + " " + r.parent + " ON " + r.child + "." + r.fk + " = " + r.parent + "." + r.pk
  }

  /** The two renderings differ only in the blanks: around the one '=' and at the front. */
  lemma JoinPieceIsSpacedString(r: Relationship)
    requires NoEquals(r)
    ensures JoinPiece(r) == " " + Replace(ToString(r), "=", " = ")
  {
    var left, right := JoinSide(r), KeySide(r);
    Renderings(r, left, right);
    SidesWithoutEquals(r);
    ReplaceSeparator(left, '=', right, " = ");
  }

  lemma Renderings(r: Relationship, left: string, right: string)
    requires left == r.join + " " + r.parent + " ON " + r.child + "." + r.fk
    requires right == r.parent + "." + r.pk
    ensures ToString(r) == left + ['='] + right
    ensures JoinPiece(r) == " " + (left + " = " + right)
  {
  }

  lemma NotInAppend(a: string, b: string, c: char)
    requires c !in a && c !in b
    ensures c !in a + b
  {
  }

  /** `get_relationships_for_table`: the relationships whose child is `table`, in their order. */
  function ForTable(rels: seq<Relationship>, table: string): (r: seq<Relationship>)
    ensures |r| <= |rels|
    ensures forall x :: x in r <==> x in rels && x.child == table
    decreases |rels|
  {
    if |rels| == 0 then []
    else
      var last := rels[|rels| - 1];
      ForTable(rels[..|rels| - 1], table) + (if last.child == table then [last] else [])
  }

  /** The join pieces of the given relationships, one after the other. */
  function JoinPieces(rels: seq<Relationship>): string
    decreases |rels|
  {
    if |rels| == 0 then "" else JoinPieces(rels[..|rels| - 1]) + JoinPiece(rels[|rels| - 1])
  }

  /**
   * The loop of `generate_join_clause`: a piece for every relationship
   * whose child is `table`, which makes it the pieces of exactly the
   * table's own relationships.
   */
  function AutoJoin(rels: seq<Relationship>, table: string): (j: string)
    ensures j == JoinPieces(ForTable(rels, table))
    decreases |rels|
  {
    if |rels| == 0 then ""
    else
      var pre, last := rels[..|rels| - 1], rels[|rels| - 1];
      var f := ForTable(pre, table);
      assert last.child == table ==> ForTable(rels, table) == f + [last] && (f + [last])[..|f|] == f;
      assert last.child != table ==> ForTable(rels, table) == f;
      AutoJoin(pre, table) + (if last.child == table then JoinPiece(last) else "")
  }

  /** `generate_join_clause`: the query's own join clause wins over the generated one. */
  function JoinClause(userJoin: string, rels: seq<Relationship>, table: string): (r: string)
    ensures userJoin != "" ==> r == userJoin
    ensures userJoin == "" ==> r == JoinPieces(ForTable(rels, table))
  {
    if userJoin == "" then AutoJoin(rels, table) else userJoin
  }

  /** A table with no relationship of its own gets no generated join. */
  lemma {:induction false} NoRelationshipNoJoin(rels: seq<Relationship>, table: string)
    requires forall k :: 0 <= k < |rels| ==> rels[k].child != table
    ensures JoinClause("", rels, table) == ""
    decreases |rels|
  {
    if |rels| > 0 {
      var pre := rels[..|rels| - 1];
      assert forall k :: 0 <= k < |pre| ==> pre[k] == rels[k];
      NoRelationshipNoJoin(pre, table);
    }
  }

  /** A relationship that makes `table` follow its parent. */
  predicate Cascades(r: Relationship, table: string) {
    r.child == table && r.requeryTable
  }

  /**
   * `str(self.frm[r.parent].get_current(r.pk, 0))`: the parent's current
   * key, as text; "0" when the parent has no rows or the key is empty text.
   * The current index is used as Python indexes a list.
   */
  function ParentValue(r: Relationship, queries: map<string, QuerySnapshot>): (v: Result<string>)
    ensures r.parent !in queries ==> v == Err(MissingQuery(r.parent))
    ensures r.parent in queries && |queries[r.parent].rows| == 0 ==> v == Ok("0")
    ensures r.parent in queries && |queries[r.parent].rows| > 0 ==>
      var q := queries[r.parent];
      match ListIndex(q.currentIndex, |q.rows|)
      case Err(e) => v == Err(RowIndex(q.currentIndex))
      case Ok(k) =>
        v == (if r.pk !in q.rows[k] then Err(MissingColumn(r.pk))
              else if q.rows[k][r.pk] == Text("") then Ok("0")
              else Ok(ToStr(q.rows[k][r.pk])))
  {
    assert ToStr(Int(0)) == "0" by {
      assert NatToString(0) == [Digit(0)];
    }
    if r.parent !in queries then Err(MissingQuery(r.parent))
    else
      var q := queries[r.parent];
      match CurrentValue(q.rows, q.currentIndex, r.pk, Int(0))
      case Err(e) => Err(e)
      case Ok(x) => Ok(ToStr(x))
  }

  /** The condition one cascading relationship adds: the child's key equals the parent's current key. */
  function Condition(table: string, r: Relationship, v: string): string {
    table + "." + r.fk + "=" + v
  }

  /**
   * The loop of `generate_where_clause`: a ` WHERE` clause per cascading
   * relationship; every clause after the first has its `WHERE` replaced
   * by `AND`. The first parent lookup that raises stops the loop.
   */
  function AutoWhere(rels: seq<Relationship>, table: string, queries: map<string, QuerySnapshot>): (w: Result<string>)
    ensures w.Err? <==> Conditions(rels, table, queries).Err?
    ensures w.Err? ==> w.error == Conditions(rels, table, queries).error
    ensures w.Ok? ==> (w.value == "" <==> Conditions(rels, table, queries).value == [])
    ensures w.Ok? && w.value != "" ==> |w.value| >= 7 && w.value[..7] == " WHERE "
    decreases |rels|
  {
    if |rels| == 0 then Ok("")
    else
      var last := rels[|rels| - 1];
      match AutoWhere(rels[..|rels| - 1], table, queries)
      case Err(e) => Err(e)
      case Ok(acc) =>
        if !Cascades(last, table) then Ok(acc)
        else match ParentValue(last, queries)
          case Err(e) => Err(e)
          case Ok(v) =>
            var clause := " WHERE " + Condition(table, last, v);
            Ok(acc + if acc != "" then Replace(clause, "WHERE", "AND") else clause)
  }

  /** The conditions of the cascading relationships of `table`, in their order. */
  function Conditions(rels: seq<Relationship>, table: string, queries: map<string, QuerySnapshot>): Result<seq<string>>
    decreases |rels|
  {
    if |rels| == 0 then Ok([])
    else
      var last := rels[|rels| - 1];
      match Conditions(rels[..|rels| - 1], table, queries)
      case Err(e) => Err(e)
      case Ok(cs) =>
        if !Cascades(last, table) then Ok(cs)
        else match ParentValue(last, queries)
          case Err(e) => Err(e)
          case Ok(v) => Ok(cs + [Condition(table, last, v)])
  }

  /** ` AND c` for every condition, one after the other. */
  function AndChain(cs: seq<string>): string
    decreases |cs|
  {
    if |cs| == 0 then "" else AndChain(cs[..|cs| - 1]) + " AND " + cs[|cs| - 1]
  }

  /** The conjunction of the conditions as a where clause; empty when there are none. */
  function Conjunction(cs: seq<string>): string {
    if |cs| == 0 then "" else " WHERE " + cs[0] + AndChain(cs[1..])
  }

  /** Replacing the keyword of a clause whose condition does not spell `WHERE` turns it into an `AND` clause. */
  lemma WhereBecomesAnd(condition: string)
    requires !Contains(condition, "WHERE")
    ensures Replace(" WHERE " + condition, "WHERE", "AND") == " AND " + condition
  {
    var s := " WHERE " + condition;
    var rest := [' '] + condition;
    WhereClauseShape(condition);
    ReplaceFirst(s, "WHERE", "AND", 1);
    ConsAbsent(' ', condition, "WHERE");
    ReplaceAbsent(rest, "WHERE", "AND");
    assert " " + "AND" + rest == " AND " + condition;
  }

  /** Where the keyword of a ` WHERE` clause sits, and what is around it. */
  lemma WhereClauseShape(condition: string)
    ensures OccursAt(" WHERE " + condition, "WHERE", 1)
    ensures forall j: nat :: j < 1 ==> !OccursAt(" WHERE " + condition, "WHERE", j)
    ensures (" WHERE " + condition)[..1] == " "
    ensures (" WHERE " + condition)[6..] == [' '] + condition
  {
    var s := " WHERE " + condition;
    assert s[1..6] == "WHERE";
    assert s[0..5][0] == ' ';
  }

  /** No condition of a cascading relationship spells `WHERE`. */
  predicate PlainConditions(rels: seq<Relationship>, table: string, queries: map<string, QuerySnapshot>) {
    forall k :: 0 <= k < |rels| && Cascades(rels[k], table) && ParentValue(rels[k], queries).Ok? ==>
      !Contains(Condition(table, rels[k], ParentValue(rels[k], queries).value), "WHERE")
  }

  /**
   * The generated where clause is `WHERE` and the conditions of the
   * cascading relationships joined by `AND`, as long as no condition
   * spells `WHERE` (which the keyword replacement would also rewrite).
   */
  lemma {:induction false} AutoWhereIsConjunction(rels: seq<Relationship>, table: string, queries: map<string, QuerySnapshot>)
    requires PlainConditions(rels, table, queries)
    ensures Conditions(rels, table, queries).Ok? ==> AutoWhere(rels, table, queries) == Ok(Conjunction(Conditions(rels, table, queries).value))
    ensures Conditions(rels, table, queries).Err? ==> AutoWhere(rels, table, queries) == Err(Conditions(rels, table, queries).error)
    decreases |rels|
  {
    if |rels| > 0 {
      var pre, last := rels[..|rels| - 1], rels[|rels| - 1];
      var c := Conditions(pre, table, queries);
      assert forall k :: 0 <= k < |pre| ==> pre[k] == rels[k];
      AutoWhereIsConjunction(pre, table, queries);
      if c.Ok? && Cascades(last, table) && ParentValue(last, queries).Ok? {
        var cond := Condition(table, last, ParentValue(last, queries).value);
        var cs := c.value;
        assert Conditions(rels, table, queries) == Ok(cs + [cond]);
        if |cs| > 0 {
          assert AutoWhere(pre, table, queries) == Ok(Conjunction(cs));
          assert Conjunction(cs) != "";
          assert AutoWhere(rels, table, queries) == Ok(Conjunction(cs) + Replace(" WHERE " + cond, "WHERE", "AND"));
          WhereBecomesAnd(cond);
          ConjunctionAppend(cs, cond);
        } else {
          assert cs + [cond] == [cond];
          assert AutoWhere(pre, table, queries) == Ok("");
          assert [cond][1..] == [];
          assert Conjunction([cond]) == " WHERE " + cond + AndChain([]);
          assert AutoWhere(rels, table, queries) == Ok("" + (" WHERE " + cond));
          assert "" + (" WHERE " + cond) == " WHERE " + cond + "";
        }
      }
    }
  }

  lemma ConjunctionAppend(cs: seq<string>, cond: string)
    requires |cs| > 0
    ensures Conjunction(cs + [cond]) == Conjunction(cs) + (" AND " + cond)
  {
    var t := cs[1..];
    assert (cs + [cond])[0] == cs[0];
    assert (cs + [cond])[1..] == t + [cond];
    AndChainAppend(t, cond);
    ConcatAssoc(" WHERE " + cs[0] + AndChain(t), " AND ", cond);
  }

  lemma AndChainAppend(cs: seq<string>, cond: string)
    ensures AndChain(cs + [cond]) == AndChain(cs) + " AND " + cond
  {
    assert (cs + [cond])[..|cs|] == cs;
  }

  /**
   * `generate_where_clause`: the query's own where clause alone when no
   * relationship cascades; otherwise appended to the generated one with its
   * `WHERE` replaced by `AND`.
   */
  function WhereClause(userWhere: string, rels: seq<Relationship>, table: string, queries: map<string, QuerySnapshot>): (r: Result<string>)
    ensures r.Err? <==> Conditions(rels, table, queries).Err?
    ensures r.Err? ==> r.error == Conditions(rels, table, queries).error
    ensures Conditions(rels, table, queries) == Ok([]) ==> r == Ok(userWhere)
    ensures r.Ok? && Conditions(rels, table, queries).value != [] ==> |r.value| >= 7 && r.value[..7] == " WHERE "
  {
    match AutoWhere(rels, table, queries)
    case Err(e) => Err(e)
    case Ok(w) => if w == "" then Ok(userWhere) else Ok(w + " " + Replace(userWhere, "WHERE", "AND"))
  }

  /** Without a cascading relationship the query's own where clause is used, and no parent is looked up. */
  lemma {:induction false} NoCascadeOwnWhere(userWhere: string, rels: seq<Relationship>, table: string, queries: map<string, QuerySnapshot>)
    requires forall k :: 0 <= k < |rels| ==> !Cascades(rels[k], table)
    ensures AutoWhere(rels, table, queries) == Ok("")
    ensures WhereClause(userWhere, rels, table, queries) == Ok(userWhere)
    decreases |rels|
  {
    if |rels| > 0 {
      NoCascadeOwnWhere(userWhere, rels[..|rels| - 1], table, queries);
    }
  }

  /** With cascading relationships, the where clause is their conjunction followed by the query's own conditions. */
  lemma CascadeWhere(userWhere: string, rels: seq<Relationship>, table: string, queries: map<string, QuerySnapshot>, cs: seq<string>)
    requires PlainConditions(rels, table, queries)
    requires Conditions(rels, table, queries) == Ok(cs)
    requires |cs| > 0
    ensures WhereClause(userWhere, rels, table, queries)
         == Ok(" WHERE " + cs[0] + AndChain(cs[1..]) + " " + Replace(userWhere, "WHERE", "AND"))
  {
    AutoWhereIsConjunction(rels, table, queries);
  }

  /** The tables that requery together: both ends of every cascading relationship. */
  function RequeryTables(rels: seq<Relationship>): (tables: set<string>)
    ensures forall t :: t in tables <==> exists k :: 0 <= k < |rels| && rels[k].requeryTable && (rels[k].parent == t || rels[k].child == t)
    decreases |rels|
  {
    if |rels| == 0 then {}
    else
      var last := rels[|rels| - 1];
      var pre := RequeryTables(rels[..|rels| - 1]);
      assert forall k :: 0 <= k < |rels| - 1 ==> rels[..|rels| - 1][k] == rels[k];
      pre + if last.requeryTable then {last.parent, last.child} else {}
  }

  /** `get_parent(table)`: the parent of the first relationship that makes `table` follow it. */
  function ParentOf(rels: seq<Relationship>, table: string): (p: Option<string>)
    ensures p.None? <==> forall k :: 0 <= k < |rels| ==> !Cascades(rels[k], table)
    ensures p.Some? ==> exists k :: 0 <= k < |rels| && Cascades(rels[k], table) && rels[k].parent == p.value
                                   && forall j :: 0 <= j < k ==> !Cascades(rels[j], table)
    decreases |rels|
  {
    if |rels| == 0 then None
    else if Cascades(rels[0], table) then Some(rels[0].parent)
    else
      var p := ParentOf(rels[1..], table);
      assert forall k :: 1 <= k < |rels| ==> rels[1..][k - 1] == rels[k];
      p
  }

  /** The first of the relationships whose foreign key is `column`. */
  function FirstWithFk(rels: seq<Relationship>, column: string): (r: Option<Relationship>)
    ensures r.None? <==> forall k :: 0 <= k < |rels| ==> rels[k].fk != column
    ensures r.Some? ==> exists k :: 0 <= k < |rels| && rels[k] == r.value && rels[k].fk == column
                                   && forall j :: 0 <= j < k ==> rels[j].fk != column
    decreases |rels|
  {
    if |rels| == 0 then None
    else if rels[0].fk == column then Some(rels[0])
    else
      var r := FirstWithFk(rels[1..], column);
      assert forall k :: 1 <= k < |rels| ==> rels[1..][k - 1] == rels[k];
      r
  }

  /**
   * One cell of `table_values`: a foreign key column shows the parent's
   * description of the key, any other column its own value. The parent
   * query is looked up before the cell is read.
   */
  function CellValue(row: Row, column: string, rels: seq<Relationship>, queries: map<string, QuerySnapshot>): (r: Result<Value>)
    ensures column !in row ==> r.Err?
    ensures r.Err? ==> r.error.MissingColumn? || r.error.MissingQuery?
  {
    match FirstWithFk(rels, column)
    case None => Cell(row, column)
    case Some(rel) =>
      if rel.parent !in queries then Err(MissingQuery(rel.parent))
      else match Cell(row, column)
        case Err(e) => Err(e)
        case Ok(key) => DescriptionForPk(queries[rel.parent], key)
  }

  /** A column that no relationship uses as its foreign key shows the row's own value. */
  lemma CellValueOfPlainColumn(row: Row, column: string, rels: seq<Relationship>, queries: map<string, QuerySnapshot>)
    requires forall k :: 0 <= k < |rels| ==> rels[k].fk != column
    ensures CellValue(row, column, rels, queries) == Cell(row, column)
  {
  }

  /** The first relationship with `column` as its foreign key is the one `table_values` consults. */
  lemma FirstWithFkAt(rels: seq<Relationship>, column: string, k: nat)
    requires k < |rels| && rels[k].fk == column
    requires forall j :: 0 <= j < k ==> rels[j].fk != column
    ensures FirstWithFk(rels, column) == Some(rels[k])
  {
    var r := FirstWithFk(rels, column);
    var m :| 0 <= m < |rels| && rels[m] == r.value && rels[m].fk == column
           && forall j :: 0 <= j < m ==> rels[j].fk != column;
    assert !(m < k) && !(k < m);
  }

  /** A foreign key whose relationship names a parent the form does not hold raises. */
  lemma CellValueOfMissingParent(row: Row, column: string, rels: seq<Relationship>, queries: map<string, QuerySnapshot>, k: nat)
    requires k < |rels| && rels[k].fk == column
    requires forall j :: 0 <= j < k ==> rels[j].fk != column
    requires rels[k].parent !in queries
    ensures CellValue(row, column, rels, queries) == Err(MissingQuery(rels[k].parent))
  {
    FirstWithFkAt(rels, column, k);
  }

  /**
   * A foreign key shows the description of the first parent row whose
   * primary key is the cell's value, when every parent row has both columns.
   */
  lemma CellValueOfForeignKey(row: Row, column: string, rels: seq<Relationship>, queries: map<string, QuerySnapshot>, k: nat, i: nat)
    requires k < |rels| && rels[k].fk == column
    requires forall j :: 0 <= j < k ==> rels[j].fk != column
    requires rels[k].parent in queries && column in row
    requires var p := queries[rels[k].parent];
      forall j :: 0 <= j < |p.rows| ==> p.pkColumn in p.rows[j] && p.descriptionColumn in p.rows[j]
    requires var p := queries[rels[k].parent];
      i < |p.rows| && p.rows[i][p.pkColumn] == row[column]
      && forall j :: 0 <= j < i ==> p.rows[j][p.pkColumn] != row[column]
    ensures var p := queries[rels[k].parent];
      CellValue(row, column, rels, queries) == Ok(p.rows[i][p.descriptionColumn])
  {
    var p := queries[rels[k].parent];
    FirstWithFkAt(rels, column, k);
    KeyedValueOfFirstKey(p.rows, p.descriptionColumn, p.pkColumn, row[column], i);
  }

  /** A foreign key that no parent row holds shows None. */
  lemma CellValueOfUnknownKey(row: Row, column: string, rels: seq<Relationship>, queries: map<string, QuerySnapshot>, k: nat)
    requires k < |rels| && rels[k].fk == column
    requires forall j :: 0 <= j < k ==> rels[j].fk != column
    requires rels[k].parent in queries && column in row
    requires var p := queries[rels[k].parent];
      forall j :: 0 <= j < |p.rows| ==> p.pkColumn in p.rows[j] && p.rows[j][p.pkColumn] != row[column]
    ensures CellValue(row, column, rels, queries) == Ok(Null)
  {
    var p := queries[rels[k].parent];
    FirstWithFkAt(rels, column, k);
    KeyedValueOfAbsentKey(p.rows, p.descriptionColumn, p.pkColumn, row[column]);
  }

  /** The list `table_values` builds for one row: a cell per column, in order. */
  function RowValues(row: Row, columns: seq<string>, rels: seq<Relationship>, queries: map<string, QuerySnapshot>): (r: Result<seq<Value>>)
    ensures r.Ok? ==> |r.value| == |columns|
    decreases |columns|
  {
    if |columns| == 0 then Ok([])
    else
      match RowValues(row, columns[..|columns| - 1], rels, queries)
      case Err(e) => Err(e)
      case Ok(vs) =>
        match CellValue(row, columns[|columns| - 1], rels, queries)
        case Err(e) => Err(e)
        case Ok(v) => Ok(vs + [v])
  }

  /** A row's list holds each column's cell value, in column order. */
  lemma {:induction false} RowValuesCells(row: Row, columns: seq<string>, rels: seq<Relationship>, queries: map<string, QuerySnapshot>)
    requires RowValues(row, columns, rels, queries).Ok?
    ensures forall j :: 0 <= j < |columns| ==> CellValue(row, columns[j], rels, queries) == Ok(RowValues(row, columns, rels, queries).value[j])
    decreases |columns|
  {
    if |columns| > 0 {
      var n := |columns| - 1;
      var pre := columns[..n];
      var vs := RowValues(row, pre, rels, queries).value;
      var v := CellValue(row, columns[n], rels, queries).value;
      RowValuesCells(row, pre, rels, queries);
      assert RowValues(row, columns, rels, queries).value == vs + [v];
      forall j | 0 <= j < n ensures CellValue(row, columns[j], rels, queries) == Ok((vs + [v])[j]) {
        assert pre[j] == columns[j];
      }
    }
  }

  /** A row's values fail only with the error of one of its columns' cells. */
  lemma {:induction false} RowValuesError(row: Row, columns: seq<string>, rels: seq<Relationship>, queries: map<string, QuerySnapshot>)
    requires RowValues(row, columns, rels, queries).Err?
    ensures exists j :: 0 <= j < |columns| && CellValue(row, columns[j], rels, queries) == Err(RowValues(row, columns, rels, queries).error)
    decreases |columns|
  {
    var n := |columns| - 1;
    var pre := columns[..n];
    var e := RowValues(row, columns, rels, queries).error;
    if RowValues(row, pre, rels, queries).Err? {
      RowValuesError(row, pre, rels, queries);
      var j :| 0 <= j < n && CellValue(row, pre[j], rels, queries) == Err(e);
      assert pre[j] == columns[j];
    } else {
      assert CellValue(row, columns[n], rels, queries) == Err(e);
    }
  }

  /** When every cell of the row can be shown, so can the row. */
  lemma {:induction false} RowValuesTotal(row: Row, columns: seq<string>, rels: seq<Relationship>, queries: map<string, QuerySnapshot>)
    requires forall j :: 0 <= j < |columns| ==> CellValue(row, columns[j], rels, queries).Ok?
    ensures RowValues(row, columns, rels, queries).Ok?
    decreases |columns|
  {
    if |columns| > 0 {
      var pre := columns[..|columns| - 1];
      assert forall j :: 0 <= j < |pre| ==> pre[j] == columns[j];
      RowValuesTotal(row, pre, rels, queries);
    }
  }

  /** `table_values(columns)`: a list of cells per row, in row order. */
  function TableValues(rows: seq<Row>, columns: seq<string>, rels: seq<Relationship>, queries: map<string, QuerySnapshot>): (r: Result<seq<seq<Value>>>)
    ensures r.Ok? ==> |r.value| == |rows|
    decreases |rows|
  {
    if |rows| == 0 then Ok([])
    else
      match TableValues(rows[..|rows| - 1], columns, rels, queries)
      case Err(e) => Err(e)
      case Ok(t) =>
        match RowValues(rows[|rows| - 1], columns, rels, queries)
        case Err(e) => Err(e)
        case Ok(vs) => Ok(t + [vs])
  }

  /** The table's list holds each row's list, in row order. */
  lemma {:induction false} TableValuesRows(rows: seq<Row>, columns: seq<string>, rels: seq<Relationship>, queries: map<string, QuerySnapshot>)
    requires TableValues(rows, columns, rels, queries).Ok?
    ensures forall i :: 0 <= i < |rows| ==> RowValues(rows[i], columns, rels, queries) == Ok(TableValues(rows, columns, rels, queries).value[i])
    decreases |rows|
  {
    if |rows| > 0 {
      var n := |rows| - 1;
      var pre := rows[..n];
      var t := TableValues(pre, columns, rels, queries).value;
      var vs := RowValues(rows[n], columns, rels, queries).value;
      TableValuesRows(pre, columns, rels, queries);
      assert TableValues(rows, columns, rels, queries).value == t + [vs];
      forall i | 0 <= i < n ensures RowValues(rows[i], columns, rels, queries) == Ok((t + [vs])[i]) {
        assert pre[i] == rows[i];
      }
    }
  }

  /** The table's values fail only with the error of one of its rows. */
  lemma {:induction false} TableValuesError(rows: seq<Row>, columns: seq<string>, rels: seq<Relationship>, queries: map<string, QuerySnapshot>)
    requires TableValues(rows, columns, rels, queries).Err?
    ensures exists i :: 0 <= i < |rows| && RowValues(rows[i], columns, rels, queries) == Err(TableValues(rows, columns, rels, queries).error)
    decreases |rows|
  {
    var n := |rows| - 1;
    var pre := rows[..n];
    var e := TableValues(rows, columns, rels, queries).error;
    if TableValues(pre, columns, rels, queries).Err? {
      TableValuesError(pre, columns, rels, queries);
      var i :| 0 <= i < n && RowValues(pre[i], columns, rels, queries) == Err(e);
      assert pre[i] == rows[i];
    } else {
      assert RowValues(rows[n], columns, rels, queries) == Err(e);
    }
  }

  /** When every row can be shown, so can the table. */
  lemma {:induction false} TableValuesTotal(rows: seq<Row>, columns: seq<string>, rels: seq<Relationship>, queries: map<string, QuerySnapshot>)
    requires forall i :: 0 <= i < |rows| ==> RowValues(rows[i], columns, rels, queries).Ok?
    ensures TableValues(rows, columns, rels, queries).Ok?
    decreases |rows|
  {
    if |rows| > 0 {
      var pre := rows[..|rows| - 1];
      assert forall i :: 0 <= i < |pre| ==> pre[i] == rows[i];
      TableValuesTotal(pre, columns, rels, queries);
    }
  }

  /**
   * Without foreign keys among the columns, `table_values` is just the
   * rows' cells, as long as every row has every column.
   */
  lemma PlainTableValues(rows: seq<Row>, columns: seq<string>, rels: seq<Relationship>, queries: map<string, QuerySnapshot>)
    requires forall k, j :: 0 <= k < |rels| && 0 <= j < |columns| ==> rels[k].fk != columns[j]
    requires forall i, j :: 0 <= i < |rows| && 0 <= j < |columns| ==> columns[j] in rows[i]
    ensures TableValues(rows, columns, rels, queries).Ok?
    ensures forall i :: 0 <= i < |rows| ==> |TableValues(rows, columns, rels, queries).value[i]| == |columns|
    ensures forall i, j :: 0 <= i < |rows| && 0 <= j < |columns| ==>
      TableValues(rows, columns, rels, queries).value[i][j] == rows[i][columns[j]]
  {
    forall i | 0 <= i < |rows| ensures RowValues(rows[i], columns, rels, queries).Ok? {
      forall j | 0 <= j < |columns| ensures CellValue(rows[i], columns[j], rels, queries).Ok? {
        CellValueOfPlainColumn(rows[i], columns[j], rels, queries);
      }
      RowValuesTotal(rows[i], columns, rels, queries);
    }
    TableValuesTotal(rows, columns, rels, queries);
    TableValuesRows(rows, columns, rels, queries);
    var t := TableValues(rows, columns, rels, queries);
    forall i | 0 <= i < |rows| ensures |t.value[i]| == |columns| {
      assert RowValues(rows[i], columns, rels, queries) == Ok(t.value[i]);
    }
    forall i, j | 0 <= i < |rows| && 0 <= j < |columns| ensures t.value[i][j] == rows[i][columns[j]] {
      CellValueOfPlainColumn(rows[i], columns[j], rels, queries);
      RowValuesCells(rows[i], columns, rels, queries);
      assert RowValues(rows[i], columns, rels, queries) == Ok(t.value[i]);
    }
  }

  /** The where clause raises the first error met: a failing prefix decides the whole list. */
  lemma {:induction false} AutoWhereErrPrefix(rels: seq<Relationship>, table: string, queries: map<string, QuerySnapshot>, k: nat)
    requires k <= |rels|
    requires AutoWhere(rels[..k], table, queries).Err?
    ensures AutoWhere(rels, table, queries) == AutoWhere(rels[..k], table, queries)
    decreases |rels|
  {
    if k == |rels| {
      assert rels[..k] == rels;
    } else {
      var pre := rels[..|rels| - 1];
      assert pre[..k] == rels[..k];
      AutoWhereErrPrefix(pre, table, queries, k);
    }
  }

  /** A row's values raise the error of the first failing column. */
  lemma {:induction false} RowValuesErrPrefix(row: Row, columns: seq<string>, rels: seq<Relationship>, queries: map<string, QuerySnapshot>, k: nat)
    requires k <= |columns|
    requires RowValues(row, columns[..k], rels, queries).Err?
    ensures RowValues(row, columns, rels, queries) == RowValues(row, columns[..k], rels, queries)
    decreases |columns|
  {
    if k == |columns| {
      assert columns[..k] == columns;
    } else {
      var pre := columns[..|columns| - 1];
      assert pre[..k] == columns[..k];
      RowValuesErrPrefix(row, pre, rels, queries, k);
    }
  }

  /** The table's values raise the error of the first failing row. */
  lemma {:induction false} TableValuesErrPrefix(rows: seq<Row>, columns: seq<string>, rels: seq<Relationship>, queries: map<string, QuerySnapshot>, k: nat)
    requires k <= |rows|
    requires TableValues(rows[..k], columns, rels, queries).Err?
    ensures TableValues(rows, columns, rels, queries) == TableValues(rows[..k], columns, rels, queries)
    decreases |rows|
  {
    if k == |rows| {
      assert rows[..k] == rows;
    } else {
      var pre := rows[..|rows| - 1];
      assert pre[..k] == rows[..k];
      TableValuesErrPrefix(pre, columns, rels, queries, k);
    }
  }

  /** One more row: its values are appended unless an earlier row or this one fails. */
  lemma TableValuesStep(rows: seq<Row>, columns: seq<string>, rels: seq<Relationship>, queries: map<string, QuerySnapshot>, i: nat)
    requires i < |rows|
    ensures TableValues(rows[..i + 1], columns, rels, queries)
         == match TableValues(rows[..i], columns, rels, queries)
            case Err(e) => Err(e)
            case Ok(t) =>
              match RowValues(rows[i], columns, rels, queries)
              case Err(e) => Err(e)
              case Ok(vs) => Ok(t + [vs])
  {
    assert rows[..i + 1][..i] == rows[..i];
  }

  /** One more column: its cell is appended unless an earlier column or this one fails. */
  lemma RowValuesStep(row: Row, columns: seq<string>, rels: seq<Relationship>, queries: map<string, QuerySnapshot>, j: nat)
    requires j < |columns|
    ensures RowValues(row, columns[..j + 1], rels, queries)
         == match RowValues(row, columns[..j], rels, queries)
            case Err(e) => Err(e)
            case Ok(vs) =>
              match CellValue(row, columns[j], rels, queries)
              case Err(e) => Err(e)
              case Ok(v) => Ok(vs + [v])
  {
    assert columns[..j + 1][..j] == columns[..j];
  }
}

/**
 * The Form class: the list of relationships between the queries' tables,
 * the event map, and the tally that `save_records` makes of the results of
 * saving each query. Saving itself goes through the database and is not
 * modelled: its per-table results are a parameter.
 */
module Forms {
  import opened Values
  import opened Relationships
  import opened Cursor

  /** One entry of `event_map`: `{'event':, 'function':, 'table':}`. */
  datatype EventEntry = EventEntry(event: string, handler: Hook, table: Option<string>)

  /** The result codes of `Query.save_record`. */
  const SaveFail := 0
  const SaveSuccess := 1
  const SaveNone := 2

  /** The messages `save_records` shows. */
  const NothingToUpdate := "There was nothing to update."
  const UpdatesSaved := "Updates saved successfully!"
  const SaveProblem := "There was a problem saving some updates."

  /**
   * An entry after `replace_event(event, function, table)`: an entry for
   * that event gets the new function, and the new table unless none is given.
   */
  function ReplacedEntry(e: EventEntry, event: string, handler: Hook, table: Option<string>): (r: EventEntry)
    ensures r.event == e.event
    ensures e.event != event ==> r == e
    ensures e.event == event ==> r.handler == handler && r.table == (if table.None? then e.table else table)
  {
    if e.event == event then EventEntry(e.event, handler, if table.None? then e.table else table) else e
  }

  /** Replacing an event twice with the same arguments changes nothing the second time. */
  lemma ReplacedEntryIdempotent(e: EventEntry, event: string, handler: Hook, table: Option<string>)
    ensures ReplacedEntry(ReplacedEntry(e, event, handler, table), event, handler, table)
         == ReplacedEntry(e, event, handler, table)
  {
  }

  /** The message `save_records` shows for its tally. */
  function SaveMessage(successes: nat, failures: nat): (m: string)
    ensures m in {NothingToUpdate, UpdatesSaved, SaveProblem}
    ensures m == SaveProblem <==> failures > 0
    ensures m == NothingToUpdate <==> failures == 0 && successes == 0
  {
    if failures == 0 then
      if successes == 0 then NothingToUpdate else UpdatesSaved
    else SaveProblem
  }

  class Form {
    var relationships: seq<Relationship>
    var eventMap: seq<EventEntry>

    constructor ()
      ensures relationships == [] && eventMap == []
    {
      relationships := [];
      eventMap := [];
    }

    /** `add_relationship(join, child, fk, parent, pk, requery_table)`. */
    method AddRelationship(join: string, child: string, fk: string, parent: string, pk: string, requeryTable: bool)
      modifies this`relationships
      ensures relationships == old(relationships) + [Relationship(join, child, fk, parent, pk, requeryTable)]
    {
      relationships := relationships + [Relationship(join, child, fk, parent, pk, requeryTable)];
    }

    /** `get_relationships_for_table(table)`: the relationships whose child is the table, in order. */
    method GetRelationshipsForTable(table: string) returns (rel: seq<Relationship>)
      ensures rel == ForTable(relationships, table)
    {
      rel := [];
      for k := 0 to |relationships|
        invariant rel == ForTable(relationships[..k], table)
      {
        assert relationships[..k + 1][..k] == relationships[..k];
        var r := relationships[k];
        if r.child == table {
          rel := rel + [r];
        }
      }
      assert relationships[..|relationships|] == relationships;
    }

    /**
     * `get_cascaded_relationships()`: each table that is the parent or the
     * child of a relationship that requeries, once.
     */
    method GetCascadedRelationships() returns (tables: seq<string>)
      ensures forall i, j :: 0 <= i < j < |tables| ==> tables[i] != tables[j]
      ensures forall t :: t in tables <==> t in RequeryTables(relationships)
    {
      tables := [];
      for k := 0 to |relationships|
        invariant forall i, j :: 0 <= i < j < |tables| ==> tables[i] != tables[j]
        invariant forall t :: t in tables <==> t in RequeryTables(relationships[..k])
      {
        assert relationships[..k + 1][..k] == relationships[..k];
        var r := relationships[k];
        if r.requeryTable {
          if r.parent !in tables {
            tables := tables + [r.parent];
          }
          if r.child !in tables {
            tables := tables + [r.child];
          }
        }
      }
      assert relationships[..|relationships|] == relationships;
    }

    /** `get_parent(table)`: the parent of the first relationship that requeries `table`. */
    method GetParent(table: string) returns (parent: Option<string>)
      ensures parent == ParentOf(relationships, table)
    {
      for k := 0 to |relationships|
        invariant ParentOf(relationships, table) == ParentOf(relationships[k..], table)
      {
        var r := relationships[k];
        if r.child == table && r.requeryTable {
          return Some(r.parent);
        }
        assert relationships[k..][1..] == relationships[k + 1..];
      }
      return None;
    }

    /** `map_event(event, fctn, table)`. */
    method MapEvent(event: string, fctn: Hook, table: Option<string>)
      modifies this`eventMap
      ensures eventMap == old(eventMap) + [EventEntry(event, fctn, table)]
    {
      eventMap := eventMap + [EventEntry(event, fctn, table)];
    }

    /** `replace_event(event, function, table)`: every entry for the event, in place. */
    method ReplaceEvent(event: string, handler: Hook, table: Option<string>)
      modifies this`eventMap
      ensures |eventMap| == |old(eventMap)|
      ensures forall k :: 0 <= k < |eventMap| ==> eventMap[k] == ReplacedEntry(old(eventMap)[k], event, handler, table)
    {
      for i := 0 to |eventMap|
        invariant |eventMap| == |old(eventMap)|
        invariant forall k :: 0 <= k < i ==> eventMap[k] == ReplacedEntry(old(eventMap)[k], event, handler, table)
        invariant forall k :: i <= k < |eventMap| ==> eventMap[k] == old(eventMap)[k]
      {
        var e := eventMap[i];
        if e.event == event {
          eventMap := eventMap[i := EventEntry(e.event, handler, if table.None? then e.table else table)];
        }
      }
    }

    /**
     * The tally of `save_records`: `results` holds what saving each table
     * returned, in order; a code other than the three is counted nowhere.
     */
    method SaveRecords(results: seq<int>) returns (successes: nat, failures: nat, noActions: nat, message: string)
      ensures successes == multiset(results)[SaveSuccess]
      ensures failures == multiset(results)[SaveFail]
      ensures noActions == multiset(results)[SaveNone]
      ensures message == SaveProblem <==> SaveFail in results
      ensures message == NothingToUpdate <==> SaveFail !in results && SaveSuccess !in results
      ensures message == UpdatesSaved <==> SaveFail !in results && SaveSuccess in results
    {
      successes, failures, noActions := 0, 0, 0;
      for i := 0 to |results|
        invariant successes == multiset(results[..i])[SaveSuccess]
        invariant failures == multiset(results[..i])[SaveFail]
        invariant noActions == multiset(results[..i])[SaveNone]
      {
        assert results[..i + 1] == results[..i] + [results[i]];
        var result := results[i];
        if result == SaveFail {
          failures := failures + 1;
        } else if result == SaveSuccess {
          successes := successes + 1;
        } else if result == SaveNone {
          noActions := noActions + 1;
        }
      }
      assert results[..|results|] == results;
      if failures == 0 {
        if successes == 0 {
          message := NothingToUpdate;
        } else {
          message := UpdatesSaved;
        }
      } else {
        message := SaveProblem;
      }
    }
  }
}

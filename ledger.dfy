/**
 * The dedup ledger each bot keeps in SQLite: the table `Replied_To`, keyed by
 * the comment identifier, with the poster's name and one boolean flag. Only
 * its contents and its two operations are modelled, as a map from identifier
 * to the rest of the row.
 */
module Ledger {
  import opened Wrappers
  import opened Reddit

  /** The non-key columns of a `Replied_To` row. */
  datatype Record = Record(poster: string, flag: bool)

  class Database {
    var records: map<string, Record>

    /** The store is durable: it opens with the rows earlier runs left in it. */
    constructor (existing: map<string, Record>)
      ensures records == existing
    {
      records := existing;
    }

    /** `identifier_exists`: whether a row with this identifier is stored. */
    method IdentifierExists(identifier: string) returns (found: bool)
      ensures found <==> identifier in records
    {
      found := identifier in records;
    }

    /**
     * `insert_new_record`: adds one row. The identifier is the primary key, so
     * inserting one that is already stored fails (`inserted` is false, where
     * SQLite raises an integrity error) and changes nothing.
     */
    method InsertNewRecord(identifier: string, poster: string, flag: bool) returns (inserted: bool)
      modifies this
      ensures inserted <==> identifier !in old(records)
      ensures records == if inserted then old(records)[identifier := Record(poster, flag)] else old(records)
    {
      inserted := identifier !in records;
      if inserted {
        records := records[identifier := Record(poster, flag)];
      }
    }
  }
  /**
   * The ledger `records` after a stream has handled the first |rows| comments
   * of `events`, starting from `initial`. `rows[j]` is the row written for
   * comment j, or None when it was skipped. Earlier rows are untouched, each
   * comment not yet recorded got exactly its row, and a comment whose
   * identifier was already recorded (before or earlier in the stream) was
   * skipped.
   */
  ghost predicate LedgerAfter(initial: map<string, Record>, records: map<string, Record>,
                              events: seq<Event>, rows: seq<Option<Record>>)
  {
    && |rows| <= |events|
    && records.Keys == initial.Keys + CommentIds(events[..|rows|])
    && (forall id | id in initial :: records[id] == initial[id])
    && (forall j | 0 <= j < |rows| ::
          rows[j].None? <==> events[j].comment.id in initial || events[j].comment.id in CommentIds(events[..j]))
    && (forall j | 0 <= j < |rows| && rows[j].Some? ::
          events[j].comment.id in records && records[events[j].comment.id] == rows[j].value)
  }

  /**
   * Handling one more comment, by skipping it exactly when its identifier is
   * stored and otherwise storing its row under it, keeps `LedgerAfter`.
   */
  lemma LedgerAfterStep(initial: map<string, Record>, before: map<string, Record>, after: map<string, Record>,
                        events: seq<Event>, rows: seq<Option<Record>>, row: Option<Record>)
    requires |rows| < |events|
    requires LedgerAfter(initial, before, events, rows)
    requires var id := events[|rows|].comment.id;
             && (row.None? <==> id in before)
             && after == if row.None? then before else before[id := row.value]
    ensures LedgerAfter(initial, after, events, rows + [row])
  {
    var i := |rows|;
    var extended := rows + [row];
    CommentIdsPrefix(events, i);
    CommentIdsSnoc(events, i);
    forall j | 0 <= j < i + 1
      ensures extended[j].None? <==>
                events[j].comment.id in initial || events[j].comment.id in CommentIds(events[..j])
    {
      if j < i {
        assert extended[j] == rows[j];
      }
    }
    forall j | 0 <= j < i + 1 && extended[j].Some?
      ensures events[j].comment.id in after && after[events[j].comment.id] == extended[j].value
    {
      if j < i {
        assert extended[j] == rows[j];
        assert events[j].comment.id in before;
      }
    }
  }
}

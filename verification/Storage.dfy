/** The ordered index: one row per identity, created once, moved by revision
    compare-and-swap, and tombstoned forever. */
module Storage {
  import opened Wrappers
  import opened Bytes

  datatype Due = NotDue | DueAt(unixMillis: int)

  datatype Rank = Unranked | Ranked(value: int)

  datatype Row<+V> = Row(value: V, revision: nat, rank: Rank, due: Due, order: nat, deleted: bool)

  datatype IndexError = NotFound | Tombstoned | RevisionConflict(actual: nat)

  type Rows<V> = map<Text, Row<V>>

  /** A compare-and-swap moves the value and both derived views together, onto
      exactly the revision it names. */
  function Swapped<V>(rows: Rows<V>, key: Text, expected: nat, value: V, rank: Rank, due: Due): Result<Rows<V>, IndexError> {
    if key !in rows then Err(NotFound)
    else if rows[key].deleted then Err(Tombstoned)
    else if rows[key].revision != expected then Err(RevisionConflict(rows[key].revision))
    else Ok(rows[key := rows[key].(value := value, rank := rank, due := due, revision := expected + 1)])
  }

  /** A tombstone keeps the identity and its bytes, and leaves both views. */
  function Buried<V>(rows: Rows<V>, key: Text, expected: nat): Result<Rows<V>, IndexError> {
    if key !in rows then Err(NotFound)
    else if rows[key].deleted then Err(Tombstoned)
    else if rows[key].revision != expected then Err(RevisionConflict(rows[key].revision))
    else Ok(rows[key := rows[key].(rank := Unranked, due := NotDue, revision := expected + 1, deleted := true)])
  }

  class OrderedIndex<V> {
    var rows: Rows<V>
    var lastOrder: nat

    constructor ()
      ensures rows == map[] && lastOrder == 0
    {
      rows, lastOrder := map[], 0;
    }

    method Get(key: Text) returns (row: Option<Row<V>>)
      ensures row == if key in rows then Some(rows[key]) else None
    {
      row := if key in rows then Some(rows[key]) else None;
    }

    /** Atomically idempotent by identity: a duplicate is handed the winner's row. */
    method Create(key: Text, value: V, rank: Rank, due: Due) returns (row: Row<V>, created: bool)
      modifies this
      ensures created <==> key !in old(rows)
      ensures created ==> row == Row(value, 1, rank, due, old(lastOrder) + 1, false)
      ensures created ==> rows == old(rows)[key := row] && lastOrder == old(lastOrder) + 1
      ensures !created ==> row == old(rows)[key] && rows == old(rows) && lastOrder == old(lastOrder)
    {
      if key in rows {
        return rows[key], false;
      }
      lastOrder := lastOrder + 1;
      row := Row(value, 1, rank, due, lastOrder, false);
      rows := rows[key := row];
      created := true;
    }

    method Update(key: Text, expected: nat, value: V, rank: Rank, due: Due) returns (r: Result<Row<V>, IndexError>)
      modifies this
      ensures lastOrder == old(lastOrder)
      ensures match Swapped(old(rows), key, expected, value, rank, due)
              case Ok(next) => rows == next && r == Ok(next[key])
              case Err(e) => rows == old(rows) && r == Err(e)
    {
      var next := Swapped(rows, key, expected, value, rank, due);
      if next.Err? {
        return Err(next.error);
      }
      rows := next.value;
      r := Ok(rows[key]);
    }

    method Delete(key: Text, expected: nat) returns (r: Result<Row<V>, IndexError>)
      modifies this
      ensures lastOrder == old(lastOrder)
      ensures match Buried(old(rows), key, expected)
              case Ok(next) => rows == next && r == Ok(next[key])
              case Err(e) => rows == old(rows) && r == Err(e)
    {
      var next := Buried(rows, key, expected);
      if next.Err? {
        return Err(next.error);
      }
      rows := next.value;
      r := Ok(rows[key]);
    }
  }
}

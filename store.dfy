/**
 * The `users` table seen through the connection pool: a map from id to
 * (name, email), the table's scan order, and the id sequence. Each query
 * method takes a failure oracle standing for the error sqlx can return.
 */
module Store {
  import opened Wrappers
  import opened Users

  datatype Row = Row(name: string, email: string)

  predicate Distinct(s: seq<int>)
  {
    forall i, j :: 0 <= i < j < |s| ==> s[i] != s[j]
  }

  /** `s` without the element `x`; order of the rest is kept. */
  function Without(s: seq<int>, x: int): (r: seq<int>)
    ensures forall y :: y in r <==> y in s && y != x
    ensures Distinct(s) ==> Distinct(r)
  {
    if s == [] then []
    else if s[0] == x then Without(s[1..], x)
    else
      var r := [s[0]] + Without(s[1..], x);
      assert Distinct(s) ==> Distinct(r) by {
        if Distinct(s) {
          assert s[0] !in s[1..];
          assert s[0] !in Without(s[1..], x);
        }
      }
      r
  }

  /** A duplicate-free sequence has as many elements as its set. */
  lemma {:induction false} DistinctCardinality(s: seq<int>)
    requires Distinct(s)
    ensures |set x | x in s| == |s|
  {
    if s != [] {
      assert Distinct(s[1..]);
      DistinctCardinality(s[1..]);
      assert (set x | x in s) == {s[0]} + (set x | x in s[1..]);
      assert s[0] !in (set x | x in s[1..]);
    }
  }

  class UserStore {
    /** The rows, keyed by id. */
    var rows: map<int, Row>
    /** The ids in the order a full scan returns them. */
    var order: seq<int>
    /** The next value of the table's serial id sequence. */
    var nextId: int

    /** Ids are positive, below the sequence, and listed once each in `order`. */
    ghost predicate Valid()
      reads this
    {
      && 1 <= nextId
      && (forall id :: id in rows ==> 1 <= id < nextId)
      && Distinct(order)
      && (forall id :: id in order <==> id in rows)
    }

    /** A fresh, empty table whose sequence starts at 1. */
    constructor ()
      ensures Valid()
      ensures rows == map[] && order == [] && nextId == 1
    {
      rows := map[];
      order := [];
      nextId := 1;
    }

    /** The users a full scan returns, in scan order: one per row. */
    function Listing(): (users: seq<User>)
      reads this
      requires Valid()
      ensures |users| == |rows| == |order|
      ensures forall i :: 0 <= i < |users| ==>
        order[i] in rows && users[i] == User(Some(order[i]), rows[order[i]].name, rows[order[i]].email)
    {
      DistinctCardinality(order);
      assert (set x | x in order) == rows.Keys;
      seq(|order|, i requires 0 <= i < |order| && order[i] in rows reads this =>
        User(Some(order[i]), rows[order[i]].name, rows[order[i]].email))
    }

    /**
     * `INSERT INTO users (name, email) VALUES ($1, $2) RETURNING id`: on
     * success a fresh id is drawn from the sequence and mapped to the row;
     * on failure nothing changes and the error text is returned.
     */
    method Insert(name: string, email: string, fault: Option<string>) returns (r: Result<int, string>)
      requires Valid()
      modifies this
      ensures Valid()
      ensures fault.Some? ==> r == Failure(fault.value) && unchanged(this)
      ensures fault.None? ==>
        && r == Success(old(nextId))
        && old(nextId) !in old(rows)
        && rows == old(rows)[old(nextId) := Row(name, email)]
        && order == old(order) + [old(nextId)]
        && nextId == old(nextId) + 1
    {
      if fault.Some? {
        return Failure(fault.value);
      }
      var id := nextId;
      assert id !in order;
      rows := rows[id := Row(name, email)];
      order := order + [id];
      nextId := nextId + 1;
      r := Success(id);
    }

    /**
     * `SELECT * FROM users WHERE id = $1` with `fetch_one`: the row when the
     * id is present and the query does not fail, otherwise an error.
     */
    method Fetch(id: int, fault: bool) returns (r: Option<Row>)
      requires Valid()
      ensures r.Some? <==> !fault && id in rows
      ensures r.Some? ==> r.value == rows[id]
    {
      if fault || id !in rows {
        return None;
      }
      r := Some(rows[id]);
    }

    /** `SELECT * FROM users` with `fetch_all`: every row, or an error. */
    method FetchAll(fault: bool) returns (r: Option<seq<User>>)
      requires Valid()
      ensures r.Some? <==> !fault
      ensures r.Some? ==> r.value == Listing()
    {
      if fault {
        return None;
      }
      r := Some(Listing());
    }

    /**
     * `UPDATE users SET name = $1, email = $2 WHERE id = $3`: succeeds
     * whether or not the id exists; only that row's name and email change.
     */
    method Update(id: int, name: string, email: string, fault: bool) returns (ok: bool)
      requires Valid()
      modifies this
      ensures Valid()
      ensures ok == !fault
      ensures order == old(order) && nextId == old(nextId)
      ensures rows == if ok && id in old(rows) then old(rows)[id := Row(name, email)] else old(rows)
    {
      if fault {
        return false;
      }
      if id in rows {
        rows := rows[id := Row(name, email)];
      }
      ok := true;
    }

    /**
     * `DELETE FROM users WHERE id = $1`: succeeds whether or not the id
     * exists; removes that row and leaves every other one alone.
     */
    method Delete(id: int, fault: bool) returns (ok: bool)
      requires Valid()
      modifies this
      ensures Valid()
      ensures ok == !fault
      ensures nextId == old(nextId)
      ensures rows == if ok then old(rows) - {id} else old(rows)
      ensures order == if ok then Without(old(order), id) else old(order)
    {
      if fault {
        return false;
      }
      rows := rows - {id};
      order := Without(order, id);
      ok := true;
    }
  }
}

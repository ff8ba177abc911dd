/**
 * The `quotes` table as the server uses it, whichever engine holds it (SQLite's
 * `INTEGER PRIMARY KEY AUTOINCREMENT` or Postgres's `SERIAL PRIMARY KEY`): insert
 * under a fresh id, list newest id first, delete by id.
 */
module Store {
  import opened Quotes

  /** Ids strictly increase along the sequence. */
  predicate Ascending(s: seq<Quote>) {
    forall i, j :: 0 <= i < j < |s| ==> s[i].id < s[j].id
  }

  /** Ids strictly decrease along the sequence: the `ORDER BY id DESC` order. */
  predicate Descending(s: seq<Quote>) {
    forall i, j :: 0 <= i < j < |s| ==> s[i].id > s[j].id
  }

  predicate HasId(s: seq<Quote>, id: int) {
    exists k :: 0 <= k < |s| && s[k].id == id
  }

  /** `DELETE FROM quotes WHERE id = ?`: every row except those with that id, in order. */
  function Without(s: seq<Quote>, id: int): (r: seq<Quote>)
    ensures |r| <= |s|
  {
    if s == [] then []
    else if s[0].id == id then Without(s[1..], id)
    else [s[0]] + Without(s[1..], id)
  }

  /** The rows left are exactly the stored rows whose id differs. */
  lemma {:induction false} WithoutMembers(s: seq<Quote>, id: int)
    ensures forall q :: q in Without(s, id) <==> q in s && q.id != id
  {
    if s != [] {
      WithoutMembers(s[1..], id);
      assert s == [s[0]] + s[1..];
    }
  }

  lemma HasIdTail(s: seq<Quote>, id: int)
    requires s != []
    ensures HasId(s, id) <==> s[0].id == id || HasId(s[1..], id)
  {
    if HasId(s[1..], id) {
      var k :| 0 <= k < |s[1..]| && s[1..][k].id == id;
      assert s[k + 1].id == id;
    }
    if HasId(s, id) && s[0].id != id {
      var k :| 0 <= k < |s| && s[k].id == id;
      assert s[1..][k - 1].id == id;
    }
  }

  /** Deleting an id that is not stored changes nothing. */
  lemma {:induction false} DeleteAbsent(s: seq<Quote>, id: int)
    requires !HasId(s, id)
    ensures Without(s, id) == s
  {
    if s != [] {
      HasIdTail(s, id);
      DeleteAbsent(s[1..], id);
      assert [s[0]] + s[1..] == s;
    }
  }

  /** Deleting keeps the rows in ascending id order. */
  lemma {:induction false} DeleteKeepsOrder(s: seq<Quote>, id: int)
    requires Ascending(s)
    ensures Ascending(Without(s, id))
  {
    if s != [] {
      var rest := s[1..];
      assert Ascending(rest);
      DeleteKeepsOrder(rest, id);
      WithoutMembers(rest, id);
      forall q | q in Without(rest, id) ensures s[0].id < q.id {
        var k :| 0 <= k < |rest| && rest[k] == q;
        assert s[k + 1] == q;
      }
    }
  }

  /** Deleting a stored id removes exactly one row: ids are unique in an ascending table. */
  lemma {:induction false} DeletePresent(s: seq<Quote>, id: int)
    requires Ascending(s) && HasId(s, id)
    ensures |Without(s, id)| == |s| - 1 && !HasId(Without(s, id), id)
  {
    var rest := s[1..];
    HasIdTail(s, id);
    assert Ascending(rest);
    if s[0].id == id {
      forall k | 0 <= k < |rest| ensures rest[k].id != id {
        assert rest[k] == s[k + 1];
      }
      DeleteAbsent(rest, id);
      assert Without(s, id) == rest;
    } else {
      DeletePresent(rest, id);
      assert Without(s, id) == [s[0]] + Without(rest, id);
    }
  }

  /**
   * The table. `rows` holds the stored quotes in insertion order; `nextId` is the id
   * the engine hands out next; `issued` records every id handed out so far, including
   * those of rows deleted since. Neither engine ever reuses an id.
   */
  class QuoteStore {
    var rows: seq<Quote>
    var nextId: nat
    ghost var issued: set<nat>

    ghost predicate Valid()
      reads this
    {
      && nextId >= 1
      && (forall i :: i in issued ==> 1 <= i < nextId)
      && (forall k :: 0 <= k < |rows| ==> rows[k].id in issued)
      && Ascending(rows)
    }

    /** `CREATE TABLE IF NOT EXISTS quotes (...)` on a fresh database. */
    constructor ()
      ensures Valid() && rows == [] && nextId == 1 && issued == {}
    {
      rows := [];
      nextId := 1;
      issued := {};
    }

    /**
     * `insertQuote(values)`: one new row, appended, under an id larger than every id
     * issued before (so never one of them); every other row as it was.
     */
    method Insert(values: seq<string>)
      requires Valid() && |values| == 14
      modifies this
      ensures Valid()
      ensures rows == old(rows) + [QuoteOf(old(nextId), values)]
      ensures nextId == old(nextId) + 1
      ensures forall i :: i in old(issued) ==> i < old(nextId)
      ensures issued == old(issued) + {old(nextId)}
    {
      rows := rows + [QuoteOf(nextId, values)];
      issued := issued + {nextId};
      nextId := nextId + 1;
    }

    /** `getQuotes()`: every stored row, newest id first. */
    method List() returns (result: seq<Quote>)
      requires Valid()
      ensures |result| == |rows|
      ensures forall k :: 0 <= k < |result| ==> result[k] == rows[|rows| - 1 - k]
      ensures Descending(result)
      ensures multiset(result) == multiset(rows)
    {
      result := [];
      var i := |rows|;
      while i > 0
        invariant 0 <= i <= |rows|
        invariant |result| == |rows| - i
        invariant forall k :: 0 <= k < |result| ==> result[k] == rows[|rows| - 1 - k]
        invariant multiset(result) == multiset(rows[i..])
      {
        i := i - 1;
        assert rows[i..] == [rows[i]] + rows[i + 1..];
        result := result + [rows[i]];
      }
      assert rows[0..] == rows;
    }

    /** `deleteQuote(id)`: the row with that id is gone, if there was one; nothing else changes. */
    method Delete(id: int)
      requires Valid()
      modifies this
      ensures Valid()
      ensures rows == Without(old(rows), id)
      ensures nextId == old(nextId) && issued == old(issued)
    {
      DeleteKeepsOrder(rows, id);
      WithoutMembers(rows, id);
      rows := Without(rows, id);
    }
  }
}

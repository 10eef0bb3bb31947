/** Partitioning the validated rows into one group per Journal Entry Id
    (`df.groupby(["Journal Entry Id"])`). Groups come out in the order their
    ids first appear; each group keeps the input order of its rows. */
module Grouping {
  import opened Input

  /** The rows `groupby` keeps, in input order: those with a Journal Entry
      Id. pandas drops a row whose key is NaN; the empty id stands for that
      blank cell. */
  function Identified(rows: seq<Row>): (r: seq<Row>)
    ensures forall x :: x in r <==> x in rows && x.journalEntryId != ""
    ensures |r| <= |rows|
    decreases |rows|
  {
    if rows == [] then []
    else (if rows[0].journalEntryId != "" then [rows[0]] else []) + Identified(rows[1..])
  }

  /** The rows whose Journal Entry Id is `id`, in input order. */
  function RowsWithId(rows: seq<Row>, id: string): seq<Row>
    decreases |rows|
  {
    if rows == [] then []
    else (if rows[0].journalEntryId == id then [rows[0]] else []) + RowsWithId(rows[1..], id)
  }

  /** The rows whose Journal Entry Id is not `id`, in input order. */
  function RowsWithoutId(rows: seq<Row>, id: string): (r: seq<Row>)
    ensures |r| + |RowsWithId(rows, id)| == |rows|
    decreases |rows|
  {
    if rows == [] then []
    else (if rows[0].journalEntryId != id then [rows[0]] else []) + RowsWithoutId(rows[1..], id)
  }

  /** The rows with id `id` are exactly the input rows with that id. */
  lemma {:induction false} RowsWithIdMembers(rows: seq<Row>, id: string)
    ensures forall x :: x in RowsWithId(rows, id) <==> x in rows && x.journalEntryId == id
    decreases |rows|
  {
    if rows != [] {
      RowsWithIdMembers(rows[1..], id);
      assert rows == [rows[0]] + rows[1..];
    }
  }

  /** The rows without id `id` are exactly the input rows with another id. */
  lemma {:induction false} RowsWithoutIdMembers(rows: seq<Row>, id: string)
    ensures forall x :: x in RowsWithoutId(rows, id) <==> x in rows && x.journalEntryId != id
    decreases |rows|
  {
    if rows != [] {
      RowsWithoutIdMembers(rows[1..], id);
      assert rows == [rows[0]] + rows[1..];
    }
  }

  /** One group per distinct Journal Entry Id. */
  function GroupBy(rows: seq<Row>): (groups: seq<seq<Row>>)
    ensures forall k :: 0 <= k < |groups| ==> groups[k] != []
    decreases |rows|
  {
    if rows == [] then []
    else
      var id := rows[0].journalEntryId;
      assert |RowsWithId(rows, id)| >= 1;
      [RowsWithId(rows, id)] + GroupBy(RowsWithoutId(rows, id))
  }

  /** The groups' rows laid end to end. */
  function Flatten(groups: seq<seq<Row>>): seq<Row>
    decreases |groups|
  {
    if groups == [] then [] else groups[0] + Flatten(groups[1..])
  }

  /** Selecting by id distributes over concatenation: rows keep their
      relative input order inside their group. */
  lemma {:induction false} RowsWithIdKeepsOrder(rows1: seq<Row>, rows2: seq<Row>, id: string)
    ensures RowsWithId(rows1 + rows2, id) == RowsWithId(rows1, id) + RowsWithId(rows2, id)
    decreases |rows1|
  {
    if rows1 != [] {
      assert (rows1 + rows2)[1..] == rows1[1..] + rows2;
      RowsWithIdKeepsOrder(rows1[1..], rows2, id);
    } else {
      assert rows1 + rows2 == rows2;
    }
  }

  /** Dropping the rows without an id keeps, for every id, all its rows
      in their input order. */
  lemma {:induction false} IdentifiedKeepsIdRows(rows: seq<Row>, id: string)
    requires id != ""
    ensures RowsWithId(Identified(rows), id) == RowsWithId(rows, id)
    decreases |rows|
  {
    if rows != [] {
      IdentifiedKeepsIdRows(rows[1..], id);
      var head := if rows[0].journalEntryId != "" then [rows[0]] else [];
      RowsWithIdKeepsOrder(head, Identified(rows[1..]), id);
      if rows[0].journalEntryId != "" {
        assert head[1..] == [];
      }
    }
  }

  /** Taking one id out does not change the rows of any other id. */
  lemma {:induction false} RowsWithIdAfterRemoval(rows: seq<Row>, id: string, other: string)
    requires other != id
    ensures RowsWithId(RowsWithoutId(rows, id), other) == RowsWithId(rows, other)
    decreases |rows|
  {
    if rows != [] {
      RowsWithIdAfterRemoval(rows[1..], id, other);
      var head := if rows[0].journalEntryId != id then [rows[0]] else [];
      RowsWithIdKeepsOrder(head, RowsWithoutId(rows[1..], id), other);
    }
  }

  /** The rows with and without an id together are the input rows. */
  lemma {:induction false} SelectionSplitsRows(rows: seq<Row>, id: string)
    ensures multiset(RowsWithId(rows, id)) + multiset(RowsWithoutId(rows, id)) == multiset(rows)
    decreases |rows|
  {
    if rows != [] {
      var tail := rows[1..];
      SelectionSplitsRows(tail, id);
      assert rows == [rows[0]] + tail;
      assert multiset(rows) == multiset([rows[0]]) + multiset(tail);
      if rows[0].journalEntryId == id {
        assert RowsWithId(rows, id) == [rows[0]] + RowsWithId(tail, id);
        assert RowsWithoutId(rows, id) == [] + RowsWithoutId(tail, id);
      } else {
        assert RowsWithId(rows, id) == [] + RowsWithId(tail, id);
        assert RowsWithoutId(rows, id) == [rows[0]] + RowsWithoutId(tail, id);
      }
    }
  }

  /** The first row of a group, whose id is the group's key. */
  function Key(group: seq<Row>): string
    requires group != []
  {
    group[0].journalEntryId
  }

  /** Every group is non-empty and is exactly the rows of its key, in input
      order. */
  lemma {:induction false} GroupsAreSelections(rows: seq<Row>)
    ensures forall k :: 0 <= k < |GroupBy(rows)| ==>
      GroupBy(rows)[k] != [] && GroupBy(rows)[k] == RowsWithId(rows, Key(GroupBy(rows)[k]))
    decreases |rows|
  {
    if rows != [] {
      var id := rows[0].journalEntryId;
      var rest := RowsWithoutId(rows, id);
      var groups: seq<seq<Row>> := GroupBy(rows);
      var later: seq<seq<Row>> := GroupBy(rest);
      GroupsAreSelections(rest);
      assert groups == [RowsWithId(rows, id)] + later;
      assert RowsWithId(rows, id)[0] == rows[0];
      forall k | 0 <= k < |groups|
        ensures groups[k] != [] && groups[k] == RowsWithId(rows, Key(groups[k]))
      {
        if k > 0 {
          assert groups[k] == later[k - 1];
          RowsWithIdMembers(rest, Key(later[k - 1]));
          RowsWithoutIdMembers(rows, id);
          assert later[k - 1][0] in rest;
          RowsWithIdAfterRemoval(rows, id, Key(later[k - 1]));
        }
      }
    }
  }

  /** No two groups share a key. */
  lemma {:induction false} GroupKeysDistinct(rows: seq<Row>)
    ensures forall k1, k2 :: 0 <= k1 < k2 < |GroupBy(rows)| ==> Key(GroupBy(rows)[k1]) != Key(GroupBy(rows)[k2])
    decreases |rows|
  {
    if rows != [] {
      var id := rows[0].journalEntryId;
      var rest := RowsWithoutId(rows, id);
      var groups: seq<seq<Row>> := GroupBy(rows);
      var later: seq<seq<Row>> := GroupBy(rest);
      GroupKeysDistinct(rest);
      GroupsAreSelections(rest);
      assert groups == [RowsWithId(rows, id)] + later;
      assert RowsWithId(rows, id)[0] == rows[0];
      RowsWithoutIdMembers(rows, id);
      forall k | 0 <= k < |later|
        ensures Key(later[k]) != id
      {
        RowsWithIdMembers(rest, Key(later[k]));
        assert later[k][0] in later[k];
      }
      forall k1, k2 | 0 <= k1 < k2 < |groups|
        ensures Key(groups[k1]) != Key(groups[k2])
      {
        assert groups[k2] == later[k2 - 1];
        if k1 > 0 {
          assert groups[k1] == later[k1 - 1];
        }
      }
    }
  }

  /** Some group has key `id`. */
  predicate HasGroup(groups: seq<seq<Row>>, id: string)
  {
    exists k :: 0 <= k < |groups| && groups[k] != [] && Key(groups[k]) == id
  }

  /** Every row's id is the key of some group. */
  lemma {:induction false} EveryIdHasGroup(rows: seq<Row>)
    ensures forall x :: x in rows ==> HasGroup(GroupBy(rows), x.journalEntryId)
    decreases |rows|
  {
    if rows != [] {
      var id := rows[0].journalEntryId;
      var rest := RowsWithoutId(rows, id);
      var groups: seq<seq<Row>> := GroupBy(rows);
      var later: seq<seq<Row>> := GroupBy(rest);
      EveryIdHasGroup(rest);
      RowsWithoutIdMembers(rows, id);
      assert groups == [RowsWithId(rows, id)] + later;
      assert RowsWithId(rows, id)[0] == rows[0];
      forall x | x in rows
        ensures HasGroup(groups, x.journalEntryId)
      {
        if x.journalEntryId != id {
          assert x in rest;
          var k :| 0 <= k < |later| && later[k] != [] && Key(later[k]) == x.journalEntryId;
          assert groups[k + 1] == later[k];
        } else {
          assert Key(groups[0]) == x.journalEntryId;
        }
      }
    }
  }

  /** Grouping loses and invents no row. */
  lemma {:induction false} GroupByIsPartition(rows: seq<Row>)
    ensures multiset(Flatten(GroupBy(rows))) == multiset(rows)
    decreases |rows|
  {
    if rows != [] {
      var id := rows[0].journalEntryId;
      GroupByIsPartition(RowsWithoutId(rows, id));
      SelectionSplitsRows(rows, id);
      var groups: seq<seq<Row>> := GroupBy(rows);
      assert groups[1..] == GroupBy(RowsWithoutId(rows, id));
    }
  }

  /** Each row lies in exactly one group: the one for its own id. */
  lemma RowInExactlyOneGroup(rows: seq<Row>, x: Row)
    requires x in rows
    ensures exists k :: 0 <= k < |GroupBy(rows)| && x in GroupBy(rows)[k]
    ensures forall k1, k2 ::
      (0 <= k1 < |GroupBy(rows)| && 0 <= k2 < |GroupBy(rows)| && x in GroupBy(rows)[k1] && x in GroupBy(rows)[k2])
      ==> k1 == k2
  {
    var groups: seq<seq<Row>> := GroupBy(rows);
    GroupsAreSelections(rows);
    GroupKeysDistinct(rows);
    EveryIdHasGroup(rows);
    var k :| 0 <= k < |groups| && groups[k] != [] && Key(groups[k]) == x.journalEntryId;
    RowsWithIdMembers(rows, x.journalEntryId);
    assert x in groups[k];
    forall k1, k2 | 0 <= k1 < |groups| && 0 <= k2 < |groups| && x in groups[k1] && x in groups[k2]
      ensures k1 == k2
    {
      RowsWithIdMembers(rows, Key(groups[k1]));
      RowsWithIdMembers(rows, Key(groups[k2]));
      assert Key(groups[k1]) == x.journalEntryId;
      assert Key(groups[k2]) == x.journalEntryId;
    }
  }
}

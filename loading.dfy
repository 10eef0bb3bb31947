/** Loading the Journal Entries CSV: refuse a CSV without the required
    columns, then build one entry per Journal Entry Id group; a failure in
    any group fails the whole run. */
module Loading {
  import opened Wrappers
  import opened References
  import opened Input
  import opened Grouping
  import opened Assembly
  import opened AssemblyFacts

  datatype LoadError =
    | MissingColumns(found: seq<string>, required: seq<string>)
    | BuildFailed(error: BuildError)

  /** The entries of the groups in order, or the first failing group's
      failure. */
  function BuildAll(columns: seq<string>, groups: seq<seq<Row>>, refs: RefData): (r: Result<seq<Entry>, BuildError>)
    ensures r.Ok? <==> forall k :: 0 <= k < |groups| ==> Assemble(Frame(columns, groups[k]), refs).Ok?
    ensures r.Ok? ==> |r.value| == |groups|
    ensures r.Ok? ==> forall k :: 0 <= k < |groups| ==> Assemble(Frame(columns, groups[k]), refs) == Ok(r.value[k])
    ensures r.Err? ==>
      exists k :: 0 <= k < |groups| && Assemble(Frame(columns, groups[k]), refs) == Err(r.error)
                  && forall k' :: 0 <= k' < k ==> Assemble(Frame(columns, groups[k']), refs).Ok?
    decreases |groups|
  {
    if groups == [] then Ok([])
    else
      match Assemble(Frame(columns, groups[0]), refs)
      case Err(e) => Err(e)
      case Ok(entry) =>
        match BuildAll(columns, groups[1..], refs)
        case Err(e) =>
          assert forall k :: 1 <= k < |groups| ==> groups[k] == groups[1..][k - 1];
          Err(e)
        case Ok(entries) =>
          assert forall k :: 1 <= k < |groups| ==> groups[k] == groups[1..][k - 1];
          Ok([entry] + entries)
  }

  /** `load_journal_entries` after the CSV is read: the schema check, then
      `build_lines` applied to every group of the rows that have a Journal
      Entry Id. */
  function LoadJournalEntries(columns: seq<string>, rows: seq<Row>, refs: RefData): (r: Result<seq<Entry>, LoadError>)
    ensures r.Err? && r.error.MissingColumns? <==> !AllPresent(REQUIRED_COLUMNS, columns)
    ensures r.Err? && r.error.MissingColumns? ==> r.error == MissingColumns(columns, REQUIRED_COLUMNS)
  {
    if !AllPresent(REQUIRED_COLUMNS, columns) then Err(MissingColumns(columns, REQUIRED_COLUMNS))
    else
      match BuildAll(columns, GroupBy(Identified(rows)), refs)
      case Err(e) => Err(BuildFailed(e))
      case Ok(entries) => Ok(entries)
  }

  /** A loaded CSV gives one entry per group, each the one its group
      assembles to and named by the group's Journal Entry Id; the group is
      every input row with that id, in input order. No two entries
      share an id, every row with an id names an entry, and no entry has a
      blank id. */
  lemma LoadedEntriesFollowGroups(columns: seq<string>, rows: seq<Row>, refs: RefData)
    requires LoadJournalEntries(columns, rows, refs).Ok?
    ensures var entries := LoadJournalEntries(columns, rows, refs).value;
      var groups := GroupBy(Identified(rows));
      && |entries| == |groups|
      && (forall k :: 0 <= k < |groups| ==>
            && Assemble(Frame(columns, groups[k]), refs) == Ok(entries[k])
            && entries[k].externalId == Key(groups[k])
            && groups[k] == RowsWithId(rows, Key(groups[k])))
      && (forall k1, k2 :: 0 <= k1 < k2 < |entries| ==> entries[k1].externalId != entries[k2].externalId)
      && (forall x :: x in rows && x.journalEntryId != "" ==>
            exists k :: 0 <= k < |entries| && entries[k].externalId == x.journalEntryId)
      && (forall k :: 0 <= k < |entries| ==> entries[k].externalId != "")
  {
    var entries := LoadJournalEntries(columns, rows, refs).value;
    var kept := Identified(rows);
    var groups := GroupBy(kept);
    assert BuildAll(columns, groups, refs) == Ok(entries);
    GroupsAreSelections(kept);
    forall k | 0 <= k < |groups|
      ensures entries[k].externalId == Key(groups[k]) && Key(groups[k]) != ""
      ensures groups[k] == RowsWithId(rows, Key(groups[k]))
    {
      AssembleOutcome(Frame(columns, groups[k]), refs);
      RowsWithIdMembers(kept, Key(groups[k]));
      assert groups[k][0] in groups[k];
      IdentifiedKeepsIdRows(rows, Key(groups[k]));
    }
    GroupKeysDistinct(kept);
    EveryIdHasGroup(kept);
    forall x | x in rows && x.journalEntryId != ""
      ensures exists k :: 0 <= k < |entries| && entries[k].externalId == x.journalEntryId
    {
      assert x in kept;
      var k :| 0 <= k < |groups| && groups[k] != [] && Key(groups[k]) == x.journalEntryId;
      assert entries[k].externalId == x.journalEntryId;
    }
  }

  /** Since Transaction Date and Description are required columns, every
      loaded entry carries its group's first transaction date as both dates,
      and every line carries the group's first description as its memo. */
  lemma LoadedEntriesAreDatedAndMemoed(columns: seq<string>, rows: seq<Row>, refs: RefData)
    requires LoadJournalEntries(columns, rows, refs).Ok?
    ensures var entries := LoadJournalEntries(columns, rows, refs).value;
      var groups := GroupBy(Identified(rows));
      && |entries| == |groups|
      && forall k :: 0 <= k < |groups| ==>
           && entries[k].createdDate == Some(groups[k][0].transactionDate)
           && entries[k].tranDate == Some(groups[k][0].transactionDate)
           && forall l :: l in entries[k].lineList ==> l.memo == Some(groups[k][0].description)
  {
    var entries := LoadJournalEntries(columns, rows, refs).value;
    var groups := GroupBy(Identified(rows));
    assert BuildAll(columns, groups, refs) == Ok(entries);
    AllPresentIff(REQUIRED_COLUMNS, columns);
    assert "Transaction Date" in columns by { assert REQUIRED_COLUMNS[0] == "Transaction Date"; }
    assert "Description" in columns by { assert REQUIRED_COLUMNS[7] == "Description"; }
    forall k | 0 <= k < |groups|
      ensures entries[k].createdDate == Some(groups[k][0].transactionDate)
      ensures entries[k].tranDate == Some(groups[k][0].transactionDate)
      ensures forall l :: l in entries[k].lineList ==> l.memo == Some(groups[k][0].description)
    {
      AssembleOutcome(Frame(columns, groups[k]), refs);
      AllLinesShareFirstMemo(Frame(columns, groups[k]), refs);
    }
  }

  /** A failing group fails the whole run with that group's failure, unless
      an earlier group failed first. */
  lemma FailingGroupFailsLoad(columns: seq<string>, rows: seq<Row>, refs: RefData, k: nat)
    requires AllPresent(REQUIRED_COLUMNS, columns)
    requires k < |GroupBy(Identified(rows))| && Assemble(Frame(columns, GroupBy(Identified(rows))[k]), refs).Err?
    ensures LoadJournalEntries(columns, rows, refs).Err? && LoadJournalEntries(columns, rows, refs).error.BuildFailed?
    ensures exists k' ::
      0 <= k' <= k && Assemble(Frame(columns, GroupBy(Identified(rows))[k']), refs)
                      == Err(LoadJournalEntries(columns, rows, refs).error.error)
  {
    var groups := GroupBy(Identified(rows));
    var r := BuildAll(columns, groups, refs);
    assert r.Err?;
    var k' :| 0 <= k' < |groups| && Assemble(Frame(columns, groups[k']), refs) == Err(r.error)
              && forall j :: 0 <= j < k' ==> Assemble(Frame(columns, groups[j]), refs).Ok?;
    assert k' <= k;
  }

  /** A CSV with the required columns and no row that has a Journal Entry
      Id loads no entries. */
  lemma NoIdentifiedRowsLoadNothing(columns: seq<string>, rows: seq<Row>, refs: RefData)
    requires AllPresent(REQUIRED_COLUMNS, columns)
    requires forall x :: x in rows ==> x.journalEntryId == ""
    ensures LoadJournalEntries(columns, rows, refs) == Ok([])
  {
  }
}

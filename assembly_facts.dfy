/** What the assembler promises about the entry it builds for one group:
    which rows fail the group, which rows become lines and in what order,
    what each line holds and how the subsidiary keys come about. Two worked
    scenarios close the module: a group where only one row's account
    resolves, giving a single credit line, and a Credit and a Debit row
    with the same Subsidiary, where `toSubsidiary` is dropped. */
module AssemblyFacts {
  import opened Wrappers
  import opened References
  import opened Input
  import opened Assembly

  // ---------------------------------------------------------------------
  // Failures

  /** No failure among the first `n` rows exactly when none of them fails;
      a failure is that of the first failing row. */
  lemma {:induction false} FirstFailureIsFirst(frame: Frame, refs: RefData, n: nat)
    requires n <= |frame.rows|
    ensures FirstFailure(frame, refs, n).None? <==> forall i :: 0 <= i < n ==> RowFailure(frame, refs, i).None?
    ensures FirstFailure(frame, refs, n).Some? ==>
      exists i :: 0 <= i < n && RowFailure(frame, refs, i) == FirstFailure(frame, refs, n)
                  && forall j :: 0 <= j < i ==> RowFailure(frame, refs, j).None?
    decreases n
  {
    if n > 0 {
      FirstFailureIsFirst(frame, refs, n - 1);
    }
  }

  /** The first failing row decides the outcome of the whole group. */
  lemma FirstFailingRowFailsEntry(frame: Frame, refs: RefData, i: nat)
    requires i < |frame.rows| && RowFailure(frame, refs, i).Some?
    requires forall j :: 0 <= j < i ==> RowFailure(frame, refs, j).None?
    ensures Assemble(frame, refs) == Err(RowFailure(frame, refs, i).value)
  {
    FirstFailureIsFirst(frame, refs, i);
    FailureIsFinal(frame, refs, i + 1, |frame.rows|);
  }

  /** Without any accounts (none fetched, or the fetch failed) no row takes
      the Accounts branch, and the first row already fails. */
  lemma NoAccountsFailsAtFirstRow(frame: Frame, refs: RefData)
    requires frame.rows != [] && refs.accounts == []
    ensures Assemble(frame, refs) == Err(AccountNotLookedUp(0))
  {
    FirstFailingRowFailsEntry(frame, refs, 0);
  }

  // ---------------------------------------------------------------------
  // Which rows become lines

  /** The lines of the first `n` rows are, one for one, the lines of the
      rows listed by `Sources`. */
  lemma {:induction false} LinesFollowSources(frame: Frame, refs: RefData, n: nat)
    requires n <= |frame.rows|
    ensures |Lines(frame, refs, n)| == |Sources(frame, refs, n)|
    ensures forall k :: 0 <= k < |Lines(frame, refs, n)| && k < |Sources(frame, refs, n)| ==>
      LineAt(frame, refs, Sources(frame, refs, n)[k]) == Some(Lines(frame, refs, n)[k])
    decreases n
  {
    if n > 0 {
      LinesFollowSources(frame, refs, n - 1);
      var lines, sources := Lines(frame, refs, n - 1), Sources(frame, refs, n - 1);
      var last := LineAt(frame, refs, n - 1);
      var extra := if last.Some? then [n - 1] else [];
      assert last.Some? <==> ResolveAccount(refs, frame.rows[n - 1]).Some?;
      assert Lines(frame, refs, n) == lines + Emitted(last);
      assert Sources(frame, refs, n) == sources + extra;
      forall k | 0 <= k < |Lines(frame, refs, n)| && k < |Sources(frame, refs, n)|
        ensures LineAt(frame, refs, Sources(frame, refs, n)[k]) == Some(Lines(frame, refs, n)[k])
      {
        if k < |lines| {
          assert Lines(frame, refs, n)[k] == lines[k];
          assert Sources(frame, refs, n)[k] == sources[k];
        } else {
          assert Lines(frame, refs, n)[k] == last.value;
          assert Sources(frame, refs, n)[k] == n - 1;
        }
      }
    }
  }

  /** The row indices in `Sources` strictly increase. */
  lemma {:induction false} SourcesIncrease(frame: Frame, refs: RefData, n: nat)
    requires n <= |frame.rows|
    ensures forall k1, k2 :: 0 <= k1 < k2 < |Sources(frame, refs, n)| ==> Sources(frame, refs, n)[k1] < Sources(frame, refs, n)[k2]
    decreases n
  {
    if n > 0 {
      SourcesIncrease(frame, refs, n - 1);
      var extra := if ResolveAccount(refs, frame.rows[n - 1]).Some? then [n - 1] else [];
      assert Sources(frame, refs, n) == Sources(frame, refs, n - 1) + extra;
    }
  }

  /** A row index is in `Sources` exactly when that row's account resolves. */
  lemma {:induction false} SourcesMembers(frame: Frame, refs: RefData, n: nat)
    requires n <= |frame.rows|
    ensures forall i :: 0 <= i < n ==> (i in Sources(frame, refs, n) <==> ResolveAccount(refs, frame.rows[i]).Some?)
    decreases n
  {
    if n > 0 {
      SourcesMembers(frame, refs, n - 1);
      var prev := Sources(frame, refs, n - 1);
      var extra := if ResolveAccount(refs, frame.rows[n - 1]).Some? then [n - 1] else [];
      assert Sources(frame, refs, n) == prev + extra;
      forall i | 0 <= i < n
        ensures i in Sources(frame, refs, n) <==> ResolveAccount(refs, frame.rows[i]).Some?
      {
        if i < n - 1 {
          assert i !in extra;
        } else {
          assert i !in prev;
        }
      }
    }
  }

  /** `Sources` lists, in increasing order, exactly the rows whose account
      resolves. */
  lemma SourcesAreResolvedRows(frame: Frame, refs: RefData, n: nat)
    requires n <= |frame.rows|
    ensures forall k1, k2 :: 0 <= k1 < k2 < |Sources(frame, refs, n)| ==> Sources(frame, refs, n)[k1] < Sources(frame, refs, n)[k2]
    ensures forall i :: 0 <= i < n ==> (i in Sources(frame, refs, n) <==> ResolveAccount(refs, frame.rows[i]).Some?)
  {
    SourcesIncrease(frame, refs, n);
    SourcesMembers(frame, refs, n);
  }

  /** Lines come out in row order, one per row whose account resolves and
      none for any other row, so there are never more lines than rows. */
  lemma LinesComeFromResolvedRows(frame: Frame, refs: RefData)
    ensures |LinesOf(frame, refs)| == |SourcesOf(frame, refs)| <= |frame.rows|
    ensures forall k1, k2 :: 0 <= k1 < k2 < |SourcesOf(frame, refs)| ==> SourcesOf(frame, refs)[k1] < SourcesOf(frame, refs)[k2]
    ensures forall i :: 0 <= i < |frame.rows| ==>
      (i in SourcesOf(frame, refs) <==> ResolveAccount(refs, frame.rows[i]).Some?)
    ensures forall k :: 0 <= k < |LinesOf(frame, refs)| ==>
      SourcesOf(frame, refs)[k] < |frame.rows|
      && ResolveAccount(refs, frame.rows[SourcesOf(frame, refs)[k]]).Some?
      && LinesOf(frame, refs)[k]
         == MakeLine(frame.rows[SourcesOf(frame, refs)[k]],
                     ResolveAccount(refs, frame.rows[SourcesOf(frame, refs)[k]]).value, refs, Memo(frame))
  {
    LinesFollowSources(frame, refs, |frame.rows|);
    SourcesAreResolvedRows(frame, refs, |frame.rows|);
  }

  /** Each line's account, class, department and location are those its
      source row looks up. */
  lemma LineReferences(frame: Frame, refs: RefData)
    ensures |LinesOf(frame, refs)| == |SourcesOf(frame, refs)|
    ensures forall k :: 0 <= k < |LinesOf(frame, refs)| ==>
      SourcesOf(frame, refs)[k] < |frame.rows|
      && var row := frame.rows[SourcesOf(frame, refs)[k]];
         ResolveAccount(refs, row).Some?
         && LinesOf(frame, refs)[k].account == AccountRef(ResolveAccount(refs, row).value)
         && LinesOf(frame, refs)[k].classRef == TokenLookup(refs.classifications, row.classLabel)
         && LinesOf(frame, refs)[k].department == TokenLookup(refs.departments, row.department)
         && LinesOf(frame, refs)[k].location == NameLookup(refs.locations, row.location)
  {
    LinesComeFromResolvedRows(frame, refs);
  }

  /** A line gets `credit` exactly for a Credit row and `debit` exactly for
      a Debit row, each the row's amount, so no line has both. */
  lemma CreditDebitPlacement(frame: Frame, refs: RefData)
    ensures |LinesOf(frame, refs)| == |SourcesOf(frame, refs)|
    ensures forall k :: 0 <= k < |LinesOf(frame, refs)| ==>
      SourcesOf(frame, refs)[k] < |frame.rows|
      && var row := frame.rows[SourcesOf(frame, refs)[k]];
         LinesOf(frame, refs)[k].credit == (if row.postingType == CREDIT then Some(row.amount) else None)
         && LinesOf(frame, refs)[k].debit == (if row.postingType == DEBIT then Some(row.amount) else None)
    ensures forall l :: l in LinesOf(frame, refs) ==> !(l.credit.Some? && l.debit.Some?)
  {
    LinesComeFromResolvedRows(frame, refs);
  }

  /** Every line carries the first row's Description as its memo when that
      column exists, whatever its own row's Description, and no memo
      otherwise. */
  lemma AllLinesShareFirstMemo(frame: Frame, refs: RefData)
    ensures forall l :: l in LinesOf(frame, refs) ==>
      frame.rows != []
      && l.memo == (if "Description" in frame.columns then Some(frame.rows[0].description) else None)
  {
    LinesComeFromResolvedRows(frame, refs);
    forall l | l in LinesOf(frame, refs)
      ensures frame.rows != []
    {
      var k :| 0 <= k < |LinesOf(frame, refs)| && LinesOf(frame, refs)[k] == l;
    }
  }

  // ---------------------------------------------------------------------
  // A row whose account does not resolve

  /** A row that is looked up but whose account number matches no account
      is skipped: it adds no line, leaves both subsidiary keys as they were
      and does not fail the group. */
  lemma UnresolvedRowContributesNothing(frame: Frame, refs: RefData, i: nat)
    requires i < |frame.rows|
    requires LookupAttempted(refs, frame.rows[i])
    requires forall j :: 0 <= j < |refs.accounts| ==> refs.accounts[j].acctNumber != Str(frame.rows[i].accountNumber)
    ensures Lines(frame, refs, i + 1) == Lines(frame, refs, i)
    ensures Subs(frame, refs, i + 1) == Subs(frame, refs, i)
    ensures FirstFailure(frame, refs, i + 1) == FirstFailure(frame, refs, i)
  {
    ResolveAccountFirstMatch(refs, frame.rows[i]);
  }

  // ---------------------------------------------------------------------
  // Subsidiaries

  /** A truthy Subsidiary cell, a blank one included, wins over the
      account's own subsidiaries: the derived subsidiary is the same
      whatever the account, and the account's list is never read. */
  lemma ExplicitSubsidiaryWins(row: Row, a1: Account, a2: Account)
    requires Truthy(row.subsidiary)
    ensures DerivedSubsidiary(row, a1) == DerivedSubsidiary(row, a2)
    ensures DerivedSubsidiary(row, a1) == Some(RecordRef(None, Some(Str(row.subsidiary)), None, None))
    ensures !ListMissing(row, a1) && !ListMissing(row, a2)
  {
  }

  /** A resolved row without a truthy Subsidiary cell whose account has no
      subsidiary list fails the group. */
  lemma MissingSubsidiaryListFails(frame: Frame, refs: RefData, i: nat)
    requires i < |frame.rows| && ResolveAccount(refs, frame.rows[i]).Some?
    requires !Truthy(frame.rows[i].subsidiary) && ResolveAccount(refs, frame.rows[i]).value.subsidiaryList.None?
    requires forall j :: 0 <= j < i ==> RowFailure(frame, refs, j).None?
    ensures Assemble(frame, refs) == Err(SubsidiaryListMissing(i))
  {
    FirstFailingRowFailsEntry(frame, refs, i);
  }

  /** A resolved Credit or Debit row whose subsidiary is found, in a group
      without an Amount column, fails the group on `row["Amount"]`. */
  lemma AmountColumnMissingFails(frame: Frame, refs: RefData, i: nat)
    requires i < |frame.rows| && ResolveAccount(refs, frame.rows[i]).Some?
    requires !ListMissing(frame.rows[i], ResolveAccount(refs, frame.rows[i]).value)
    requires SideOf(frame.rows[i].postingType).Some? && "Amount" !in frame.columns
    requires forall j :: 0 <= j < i ==> RowFailure(frame, refs, j).None?
    ensures Assemble(frame, refs) == Err(AmountColumnMissing(i))
  {
    FirstFailingRowFailsEntry(frame, refs, i);
  }

  /** Recording a row changes the key its side selects, and only when a
      subsidiary was derived. */
  lemma RecordedSlot(subs: Subsidiaries, side: Option<Side>, derived: Option<RecordRef>, s: Side)
    ensures Slot(Recorded(subs, side, derived), s)
            == if derived.Some? && side == Some(s) then derived else Slot(subs, s)
  {
  }

  /** For each side, the key is set exactly when some row writes it, and
      it holds what the last such row derived. */
  lemma {:induction false} LastWriteWins(frame: Frame, refs: RefData, n: nat, s: Side)
    requires n <= |frame.rows|
    ensures Slot(Subs(frame, refs, n), s).Some? <==> exists i :: 0 <= i < n && WritesSlot(frame, refs, i, s)
    ensures forall i :: 0 <= i < n && WritesSlot(frame, refs, i, s)
                        && (forall j :: i < j < n ==> !WritesSlot(frame, refs, j, s))
                        ==> Slot(Subs(frame, refs, n), s) == DerivedAt(frame, refs, i)
    decreases n
  {
    if n > 0 {
      LastWriteWins(frame, refs, n - 1, s);
      RecordedSlot(Subs(frame, refs, n - 1), SideOf(frame.rows[n - 1].postingType), DerivedAt(frame, refs, n - 1), s);
      if WritesSlot(frame, refs, n - 1, s) {
        assert Slot(Subs(frame, refs, n), s) == DerivedAt(frame, refs, n - 1);
      } else {
        assert Slot(Subs(frame, refs, n), s) == Slot(Subs(frame, refs, n - 1), s);
        if exists i :: 0 <= i < n && WritesSlot(frame, refs, i, s) {
          var i :| 0 <= i < n && WritesSlot(frame, refs, i, s);
          assert i < n - 1;
        }
      }
      forall i | 0 <= i < n && WritesSlot(frame, refs, i, s) && (forall j :: i < j < n ==> !WritesSlot(frame, refs, j, s))
        ensures Slot(Subs(frame, refs, n), s) == DerivedAt(frame, refs, i)
      {
        if i < n - 1 {
          assert !WritesSlot(frame, refs, n - 1, s);
          assert forall j :: i < j < n - 1 ==> !WritesSlot(frame, refs, j, s);
        }
      }
    }
  }

  // ---------------------------------------------------------------------
  // The whole entry

  /** The group yields an entry exactly when it has rows, none of them
      fails and the last row's currency resolves; the entry's header comes
      from the first row, its currency from the last, its lines are the
      resolved rows' lines and `toSubsidiary` is dropped when it equals
      `subsidiary`. */
  lemma AssembleOutcome(frame: Frame, refs: RefData)
    ensures Assemble(frame, refs).Ok? <==>
      frame.rows != []
      && (forall i :: 0 <= i < |frame.rows| ==> RowFailure(frame, refs, i).None?)
      && CurrencyOf(refs, frame.rows[|frame.rows| - 1]).Ok?
    ensures Assemble(frame, refs).Ok? ==>
      var e := Assemble(frame, refs).value;
      var subs := Subs(frame, refs, |frame.rows|);
      && e.externalId == frame.rows[0].journalEntryId
      && e.createdDate == e.tranDate
      && e.createdDate == (if "Transaction Date" in frame.columns then Some(frame.rows[0].transactionDate) else None)
      && e.lineList == LinesOf(frame, refs)
      && e.currency == CurrencyOf(refs, frame.rows[|frame.rows| - 1]).value
      && e.subsidiary == subs.subsidiary
      && e.toSubsidiary == (if subs.toSubsidiary == subs.subsidiary then None else subs.toSubsidiary)
    ensures frame.rows == [] ==> Assemble(frame, refs) == Err(EmptyGroup)
  {
    FirstFailureIsFirst(frame, refs, |frame.rows|);
  }

  // ---------------------------------------------------------------------
  // Scenarios

  /** Row A (account 100, Credit 150.00) resolves, row B (account 999)
      does not: one entry JE1 with a single credit line. */
  lemma OneCreditLineScenario()
    ensures
      var cash := Account("100", Some("Cash"), None, Some("1"), Some([]));
      var refs := RefData([cash], [], [], [], []);
      var a := Row("JE1", "2024-01-31", Text("100"), "Credit", 15000, Missing, Blank, Missing, Missing, Missing, "Rent");
      var b := Row("JE1", "2024-01-31", Text("999"), "Debit", 15000, Missing, Blank, Missing, Missing, Missing, "Rent");
      var frame := Frame(REQUIRED_COLUMNS + ["Amount"], [a, b]);
      Assemble(frame, refs)
      == Ok(Entry(Some("2024-01-31"), Some("2024-01-31"), "JE1",
                  [Line(Ref(Some("Cash"), None, Some("1")), None, None, None, Some(15000), None, Some("Rent"))],
                  None, None, None))
  {
    var cash := Account("100", Some("Cash"), None, Some("1"), Some([]));
    var refs := RefData([cash], [], [], [], []);
    var a := Row("JE1", "2024-01-31", Text("100"), "Credit", 15000, Missing, Blank, Missing, Missing, Missing, "Rent");
    var b := Row("JE1", "2024-01-31", Text("999"), "Debit", 15000, Missing, Blank, Missing, Missing, Missing, "Rent");
    var frame := Frame(REQUIRED_COLUMNS + ["Amount"], [a, b]);
    assert frame.columns[8] == "Amount";
    assert ResolveAccount(refs, a) == Some(cash);
    assert ResolveAccount(refs, b) == None;
    assert RowFailure(frame, refs, 0) == None;
    assert RowFailure(frame, refs, 1) == None;
    assert FirstFailure(frame, refs, 1) == None;
    assert FirstFailure(frame, refs, 2) == None;
    var line := Line(Ref(Some("Cash"), None, Some("1")), None, None, None, Some(15000), None, Some("Rent"));
    assert Memo(frame) == Some("Rent");
    assert LineAt(frame, refs, 0) == Some(line);
    assert LineAt(frame, refs, 1) == None;
    assert Lines(frame, refs, 1) == [line];
    assert LinesOf(frame, refs) == [line];
    assert DerivedAt(frame, refs, 0) == None;
    assert DerivedAt(frame, refs, 1) == None;
    assert Subs(frame, refs, 1) == NO_SUBSIDIARIES;
    assert Subs(frame, refs, 2) == NO_SUBSIDIARIES;
    assert CurrencyOf(refs, b) == Ok(None);
  }

  /** A Credit row and a Debit row with the same Subsidiary: the entry keeps
      `subsidiary` and has no `toSubsidiary`. */
  lemma SameSubsidiaryCollapses()
    ensures
      var acct := Account("100", None, None, Some("1"), Some([]));
      var refs := RefData([acct], [], [], [], []);
      var credit := Row("JE2", "2024-02-01", Text("100"), "Credit", 500, Text("5"), Blank, Missing, Missing, Missing, "Transfer");
      var debit := Row("JE2", "2024-02-01", Text("100"), "Debit", 500, Text("5"), Blank, Missing, Missing, Missing, "Transfer");
      var frame := Frame(REQUIRED_COLUMNS + ["Amount"], [credit, debit]);
      Assemble(frame, refs).Ok?
      && Assemble(frame, refs).value.subsidiary == Some(RecordRef(None, Some("5"), None, None))
      && Assemble(frame, refs).value.toSubsidiary == None
  {
    var acct := Account("100", None, None, Some("1"), Some([]));
    var refs := RefData([acct], [], [], [], []);
    var credit := Row("JE2", "2024-02-01", Text("100"), "Credit", 500, Text("5"), Blank, Missing, Missing, Missing, "Transfer");
    var debit := Row("JE2", "2024-02-01", Text("100"), "Debit", 500, Text("5"), Blank, Missing, Missing, Missing, "Transfer");
    var frame := Frame(REQUIRED_COLUMNS + ["Amount"], [credit, debit]);
    assert frame.columns[8] == "Amount";
    assert ResolveAccount(refs, credit) == Some(acct);
    assert ResolveAccount(refs, debit) == Some(acct);
    var five := RecordRef(None, Some("5"), None, None);
    assert Subs(frame, refs, 1) == Subsidiaries(None, Some(five));
    assert Subs(frame, refs, 2) == Subsidiaries(Some(five), Some(five));
    assert RowFailure(frame, refs, 0) == None;
    assert RowFailure(frame, refs, 1) == None;
    assert FirstFailure(frame, refs, 1) == None;
    assert FirstFailure(frame, refs, 2) == None;
  }
}

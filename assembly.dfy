/** Turning one group of rows into one journal entry (`build_lines`).
    `BuildLines` follows the source loop step by step; `Assemble` is its
    specification, built from per-row functions, and the lemmas below state
    what the source promises about the entry it builds. */
module Assembly {
  import opened Wrappers
  import opened Text
  import opened References
  import opened Input

  /** One journal entry line. The account is always there; the other
      references, the amounts and the memo may be missing. */
  datatype Line = Line(
    account: Ref,
    classRef: Option<Ref>,
    department: Option<Ref>,
    location: Option<Ref>,
    credit: Option<int>,
    debit: Option<int>,
    memo: Option<string>)

  /** The `subsidiaries` dictionary: the `subsidiary` (debit side) and
      `toSubsidiary` (credit side) keys, each present or not. */
  datatype Subsidiaries = Subsidiaries(subsidiary: Option<RecordRef>, toSubsidiary: Option<RecordRef>)

  const NO_SUBSIDIARIES := Subsidiaries(None, None)

  /** The journal entry handed to the poster. `currency` is always a key
      (possibly None); the two subsidiary keys appear only when set. */
  datatype Entry = Entry(
    createdDate: Option<string>,
    tranDate: Option<string>,
    externalId: string,
    lineList: seq<Line>,
    currency: Option<Ref>,
    subsidiary: Option<RecordRef>,
    toSubsidiary: Option<RecordRef>)

  /** One group: the CSV's columns and the group's rows in input order. */
  datatype Frame = Frame(columns: seq<string>, rows: seq<Row>)

  /** The ways the source fails while building an entry, each the point at
      which it reads a variable it never bound or a column that is absent:
      - EmptyGroup: `row` (or `.iloc[0]`) with no rows;
      - AccountNotLookedUp(i): row i skips the Accounts branch (no
        accounts, or a falsy account number), so `journal_entry_line` is
        unbound or still the previous row's line;
      - SubsidiaryListMissing(i): row i has no Subsidiary cell and its
        account's `subsidiaryList` is None, which the source indexes;
      - AmountColumnMissing(i): row i is a Credit or Debit and `row["Amount"]`
        has no column;
      - CurrencyUnresolved(c): the last row's currency `c` matches no
        currency, so `currency_ref` is never bound. */
  datatype BuildError =
    | EmptyGroup
    | AccountNotLookedUp(row: nat)
    | SubsidiaryListMissing(row: nat)
    | AmountColumnMissing(row: nat)
    | CurrencyUnresolved(symbol: string)

  const CREDIT := "Credit"
  const DEBIT := "Debit"

  /** The side of the ledger a Posting Type writes to, if any. */
  datatype Side = DebitSide | CreditSide

  function SideOf(postingType: string): Option<Side>
  {
    if postingType == CREDIT then Some(CreditSide)
    else if postingType == DEBIT then Some(DebitSide)
    else None
  }

  /** The subsidiary key a side writes: `subsidiary` for Debit,
      `toSubsidiary` for Credit. */
  function Slot(subs: Subsidiaries, side: Side): Option<RecordRef>
  {
    match side
    case DebitSide => subs.subsidiary
    case CreditSide => subs.toSubsidiary
  }

  // ---------------------------------------------------------------------
  // One row

  /** The Accounts branch is taken: there are accounts and the row has an
      account number. */
  predicate LookupAttempted(refs: RefData, row: Row)
  {
    |refs.accounts| > 0 && Truthy(row.accountNumber)
  }

  /** The account a row resolves to: the first whose number is the
      `str(...)` of the row's cell (a blank cell gives "nan"). */
  function ResolveAccount(refs: RefData, row: Row): Option<Account>
  {
    if !LookupAttempted(refs, row) then None
    else
      match FindAccount(refs.accounts, Str(row.accountNumber))
      case None => None
      case Some(j) => Some(refs.accounts[j])
  }

  /** A row resolves exactly when it is looked up and some account carries
      its number, and then to the first such account. */
  lemma ResolveAccountFirstMatch(refs: RefData, row: Row)
    ensures ResolveAccount(refs, row).Some? <==>
      LookupAttempted(refs, row)
      && exists j :: 0 <= j < |refs.accounts| && refs.accounts[j].acctNumber == Str(row.accountNumber)
    ensures ResolveAccount(refs, row).Some? ==>
      exists j :: 0 <= j < |refs.accounts| && refs.accounts[j] == ResolveAccount(refs, row).value
                  && refs.accounts[j].acctNumber == Str(row.accountNumber)
                  && forall k :: 0 <= k < j ==> refs.accounts[k].acctNumber != Str(row.accountNumber)
  {
    if LookupAttempted(refs, row) {
      FindAccountFirstMatch(refs.accounts, Str(row.accountNumber));
      var found := FindAccount(refs.accounts, Str(row.accountNumber));
      if found.Some? {
        assert refs.accounts[found.value].acctNumber == Str(row.accountNumber);
      }
    }
  }

  /** The subsidiary a resolved row derives: its own Subsidiary cell when
      truthy (a blank cell too), otherwise the first of the account's
      subsidiaries, if any. */
  function DerivedSubsidiary(row: Row, acct: Account): Option<RecordRef>
  {
    if Truthy(row.subsidiary) then Some(RecordRef(None, Some(Str(row.subsidiary)), None, None))
    else
      match acct.subsidiaryList
      case Some(list) => if |list| > 0 then Some(list[0]) else None
      case None => None
  }

  /** The source reaches for the account's subsidiary list, and there is
      none. */
  predicate ListMissing(row: Row, acct: Account)
  {
    !Truthy(row.subsidiary) && acct.subsidiaryList.None?
  }

  /** The memo every line of the group carries: the first row's
      Description, when that column exists. */
  function Memo(frame: Frame): Option<string>
  {
    if "Description" in frame.columns && frame.rows != [] then Some(frame.rows[0].description) else None
  }

  /** The line a row resolved to `acct` produces. */
  function MakeLine(row: Row, acct: Account, refs: RefData, memo: Option<string>): Line
  {
    Line(
      AccountRef(acct),
      TokenLookup(refs.classifications, row.classLabel),
      TokenLookup(refs.departments, row.department),
      NameLookup(refs.locations, row.location),
      if row.postingType == CREDIT then Some(row.amount) else None,
      if row.postingType == DEBIT then Some(row.amount) else None,
      memo)
  }

  /** The failure row `i` raises, if any. */
  function RowFailure(frame: Frame, refs: RefData, i: nat): Option<BuildError>
    requires i < |frame.rows|
  {
    var row := frame.rows[i];
    if !LookupAttempted(refs, row) then Some(AccountNotLookedUp(i))
    else
      match ResolveAccount(refs, row)
      case None => None
      case Some(acct) =>
        if ListMissing(row, acct) then Some(SubsidiaryListMissing(i))
        else if SideOf(row.postingType).Some? && "Amount" !in frame.columns then Some(AmountColumnMissing(i))
        else None
  }

  /** The line row `i` contributes: none when its account does not resolve. */
  function LineAt(frame: Frame, refs: RefData, i: nat): Option<Line>
    requires i < |frame.rows|
  {
    match ResolveAccount(refs, frame.rows[i])
    case None => None
    case Some(acct) => Some(MakeLine(frame.rows[i], acct, refs, Memo(frame)))
  }

  /** The subsidiary row `i` derives: none when its account does not resolve. */
  function DerivedAt(frame: Frame, refs: RefData, i: nat): Option<RecordRef>
    requires i < |frame.rows|
  {
    match ResolveAccount(refs, frame.rows[i])
    case None => None
    case Some(acct) => DerivedSubsidiary(frame.rows[i], acct)
  }

  /** Row `i` writes its derived subsidiary to the `side` key. */
  predicate WritesSlot(frame: Frame, refs: RefData, i: nat, side: Side)
    requires i < |frame.rows|
  {
    DerivedAt(frame, refs, i).Some? && SideOf(frame.rows[i].postingType) == Some(side)
  }

  /** The dictionary after a row with posting side `side` derived `derived`. */
  function Recorded(subs: Subsidiaries, side: Option<Side>, derived: Option<RecordRef>): Subsidiaries
  {
    match derived
    case None => subs
    case Some(s) =>
      match side
      case None => subs
      case Some(DebitSide) => subs.(subsidiary := Some(s))
      case Some(CreditSide) => subs.(toSubsidiary := Some(s))
  }

  // ---------------------------------------------------------------------
  // The first n rows

  /** The first failure among the first `n` rows. */
  function FirstFailure(frame: Frame, refs: RefData, n: nat): Option<BuildError>
    requires n <= |frame.rows|
  {
    if n == 0 then None
    else
      match FirstFailure(frame, refs, n - 1)
      case Some(e) => Some(e)
      case None => RowFailure(frame, refs, n - 1)
  }

  /** The lines of the first `n` rows, in row order. */
  function Lines(frame: Frame, refs: RefData, n: nat): seq<Line>
    requires n <= |frame.rows|
  {
    if n == 0 then []
    else
      Lines(frame, refs, n - 1) + Emitted(LineAt(frame, refs, n - 1))
  }

  /** The lines an optional line adds: itself, or nothing. */
  function Emitted(line: Option<Line>): seq<Line>
  {
    match line
    case None => []
    case Some(l) => [l]
  }

  /** The subsidiary dictionary after the first `n` rows. */
  function Subs(frame: Frame, refs: RefData, n: nat): Subsidiaries
    requires n <= |frame.rows|
  {
    if n == 0 then NO_SUBSIDIARIES
    else Recorded(Subs(frame, refs, n - 1), SideOf(frame.rows[n - 1].postingType), DerivedAt(frame, refs, n - 1))
  }

  /** The indices, in increasing order, of the rows among the first `n`
      whose account resolves. */
  function Sources(frame: Frame, refs: RefData, n: nat): (idx: seq<nat>)
    requires n <= |frame.rows|
    ensures |idx| <= n
    ensures forall k :: 0 <= k < |idx| ==> idx[k] < n
  {
    if n == 0 then []
    else Sources(frame, refs, n - 1) + if ResolveAccount(refs, frame.rows[n - 1]).Some? then [n - 1] else []
  }

  function LinesOf(frame: Frame, refs: RefData): seq<Line>
  {
    Lines(frame, refs, |frame.rows|)
  }

  function SourcesOf(frame: Frame, refs: RefData): seq<nat>
  {
    Sources(frame, refs, |frame.rows|)
  }

  // ---------------------------------------------------------------------
  // After the loop

  /** The entry's currency, from the group's last row. A blank cell is
      truthy but equals no symbol, so it fails like an unknown symbol. */
  function CurrencyOf(refs: RefData, last: Row): (r: Result<Option<Ref>, BuildError>)
    ensures r.Err? <==>
      |refs.currencies| > 0 && Truthy(last.currency)
      && forall j :: 0 <= j < |refs.currencies| ==> !IsText(last.currency, refs.currencies[j].symbol)
    ensures r.Err? ==> r.error == CurrencyUnresolved(Str(last.currency))
    ensures r == Ok(None) <==> |refs.currencies| == 0 || !Truthy(last.currency)
    ensures r.Ok? && r.value.Some? ==>
      exists j :: 0 <= j < |refs.currencies| && IsText(last.currency, refs.currencies[j].symbol)
                  && r.value.value == CurrencyRef(refs.currencies[j])
                  && forall k :: 0 <= k < j ==> !IsText(last.currency, refs.currencies[k].symbol)
  {
    if |refs.currencies| > 0 && Truthy(last.currency) then
      match last.currency
      case Missing => Err(CurrencyUnresolved(Str(last.currency)))
      case Blank => Err(CurrencyUnresolved(Str(last.currency)))
      case Text(symbol) =>
        FindCurrencyFirstMatch(refs.currencies, symbol);
        match FindCurrency(refs.currencies, symbol)
        case None => Err(CurrencyUnresolved(symbol))
        case Some(j) => Ok(Some(CurrencyRef(refs.currencies[j])))
    else Ok(None)
  }

  /** The dictionary after `del subsidiaries['toSubsidiary']` when both keys
      hold the same subsidiary. */
  function Collapse(subs: Subsidiaries): (r: Subsidiaries)
    ensures r.subsidiary == subs.subsidiary
    ensures !(r.toSubsidiary.Some? && r.toSubsidiary == r.subsidiary)
    ensures r.toSubsidiary == subs.toSubsidiary
            || (subs.toSubsidiary.Some? && subs.toSubsidiary == subs.subsidiary && r.toSubsidiary.None?)
  {
    if subs.subsidiary.Some? && subs.toSubsidiary.Some? && subs.subsidiary == subs.toSubsidiary then
      subs.(toSubsidiary := None)
    else subs
  }

  /** The transaction date copied from the first row, when that column exists. */
  function CreatedDate(frame: Frame): Option<string>
    requires frame.rows != []
  {
    if "Transaction Date" in frame.columns then Some(frame.rows[0].transactionDate) else None
  }

  /** The entry the source builds for a group, or the failure it meets. */
  function Assemble(frame: Frame, refs: RefData): Result<Entry, BuildError>
  {
    if frame.rows == [] then Err(EmptyGroup)
    else
      match FirstFailure(frame, refs, |frame.rows|)
      case Some(e) => Err(e)
      case None =>
        match CurrencyOf(refs, frame.rows[|frame.rows| - 1])
        case Err(e) => Err(e)
        case Ok(currency) =>
          var subs := Collapse(Subs(frame, refs, |frame.rows|));
          var date := CreatedDate(frame);
          Ok(Entry(date, date, frame.rows[0].journalEntryId, LinesOf(frame, refs), currency,
                   subs.subsidiary, subs.toSubsidiary))
  }

  // ---------------------------------------------------------------------
  // The source loop

  /** A failure among the first rows is the failure of the whole group. */
  lemma {:induction false} FailureIsFinal(frame: Frame, refs: RefData, m: nat, n: nat)
    requires m <= n <= |frame.rows|
    requires FirstFailure(frame, refs, m).Some?
    ensures FirstFailure(frame, refs, n) == FirstFailure(frame, refs, m)
    decreases n
  {
    if n > m {
      FailureIsFinal(frame, refs, m, n - 1);
    }
  }

  /** The subsidiary dictionary after a resolved row: its derived subsidiary
      goes to `toSubsidiary` for a Credit, to `subsidiary` for a Debit, and
      nowhere for any other posting type. */
  method RecordSubsidiary(subsidiaries: Subsidiaries, row: Row, acct: Account) returns (r: Option<Subsidiaries>)
    ensures r.None? <==> ListMissing(row, acct)
    ensures r.Some? ==> r.value == Recorded(subsidiaries, SideOf(row.postingType), DerivedSubsidiary(row, acct))
  {
    var subsidiary: Option<RecordRef> := None;
    if Truthy(row.subsidiary) {
      subsidiary := Some(RecordRef(None, Some(Str(row.subsidiary)), None, None));
    } else {
      if acct.subsidiaryList.None? {
        return None;
      }
      var list := acct.subsidiaryList.value;
      if |list| > 0 {
        subsidiary := Some(list[0]);
      }
    }
    var subs := subsidiaries;
    if subsidiary.Some? {
      if row.postingType == CREDIT {
        subs := subs.(toSubsidiary := subsidiary);
      } else if row.postingType == DEBIT {
        subs := subs.(subsidiary := subsidiary);
      }
    }
    r := Some(subs);
  }

  /** The line of a resolved row with its class, department and location
      looked up, before amounts and memo. */
  method ReferencedLine(row: Row, acct: Account, refs: RefData) returns (line: Line)
    ensures line == MakeLine(row, acct, refs, None).(credit := None, debit := None)
  {
    line := Line(AccountRef(acct), None, None, None, None, None, None);
    if |refs.classifications| > 0 && Truthy(row.classLabel) {
      var c := if row.classLabel.Text? then FindByToken(refs.classifications, row.classLabel.text) else None;
      if c.Some? {
        line := line.(classRef := Some(NamedRef(refs.classifications[c.value])));
      }
    }
    if |refs.departments| > 0 && Truthy(row.department) {
      var d := if row.department.Text? then FindByToken(refs.departments, row.department.text) else None;
      if d.Some? {
        line := line.(department := Some(NamedRef(refs.departments[d.value])));
      }
    }
    if |refs.locations| > 0 && Truthy(row.location) {
      var l := if row.location.Text? then FindByName(refs.locations, row.location.text) else None;
      if l.Some? {
        line := line.(location := Some(NamedRef(refs.locations[l.value])));
      }
    }
  }

  /** The complete line of row `i`, resolved to `acct`, or None when a
      Credit or Debit row meets a frame without an Amount column. */
  method CompleteLine(frame: Frame, refs: RefData, i: nat, acct: Account) returns (r: Option<Line>)
    requires i < |frame.rows|
    ensures r.None? <==> SideOf(frame.rows[i].postingType).Some? && "Amount" !in frame.columns
    ensures r.Some? ==> r.value == MakeLine(frame.rows[i], acct, refs, Memo(frame))
  {
    var row := frame.rows[i];
    var line := ReferencedLine(row, acct, refs);
    if row.postingType == CREDIT {
      if "Amount" !in frame.columns {
        return None;
      }
      line := line.(credit := Some(row.amount));
    } else if row.postingType == DEBIT {
      if "Amount" !in frame.columns {
        return None;
      }
      line := line.(debit := Some(row.amount));
    }
    if "Description" in frame.columns {
      line := line.(memo := Some(frame.rows[0].description));
    }
    r := Some(line);
  }

  /** One more row, when none before it failed. */
  lemma RowStep(frame: Frame, refs: RefData, i: nat)
    requires i < |frame.rows|
    requires FirstFailure(frame, refs, i) == None
    ensures FirstFailure(frame, refs, i + 1) == RowFailure(frame, refs, i)
    ensures Lines(frame, refs, i + 1)
            == Lines(frame, refs, i) + Emitted(LineAt(frame, refs, i))
    ensures Subs(frame, refs, i + 1)
            == Recorded(Subs(frame, refs, i), SideOf(frame.rows[i].postingType), DerivedAt(frame, refs, i))
  {
  }

  /** The entry's currency looked up from the group's last row. */
  method ResolveCurrency(refs: RefData, last: Row) returns (r: Result<Option<Ref>, BuildError>)
    ensures r == CurrencyOf(refs, last)
  {
    r := Ok(None);
    if |refs.currencies| > 0 && Truthy(last.currency) {
      var c := if last.currency.Text? then FindCurrency(refs.currencies, last.currency.text) else None;
      if c.None? {
        return Err(CurrencyUnresolved(Str(last.currency)));
      }
      r := Ok(Some(CurrencyRef(refs.currencies[c.value])));
    }
  }

  /** The steps after the loop: the empty-group failure, the currency, the
      collapse of equal subsidiaries and the entry's header. */
  method Finish(frame: Frame, refs: RefData, lineItems: seq<Line>, subsidiaries: Subsidiaries)
    returns (res: Result<Entry, BuildError>)
    requires FirstFailure(frame, refs, |frame.rows|) == None
    requires lineItems == LinesOf(frame, refs)
    requires subsidiaries == Subs(frame, refs, |frame.rows|)
    ensures res == Assemble(frame, refs)
  {
    var subsidiaries := subsidiaries;
    if |frame.rows| == 0 {
      return Err(EmptyGroup);
    }
    var currencyRef := ResolveCurrency(refs, frame.rows[|frame.rows| - 1]);
    if currencyRef.Err? {
      return Err(currencyRef.error);
    }

    if subsidiaries.subsidiary.Some? && subsidiaries.toSubsidiary.Some?
       && subsidiaries.subsidiary == subsidiaries.toSubsidiary {
      subsidiaries := subsidiaries.(toSubsidiary := None);
    }

    var createdDate: Option<string> := None;
    if "Transaction Date" in frame.columns {
      createdDate := Some(frame.rows[0].transactionDate);
    }
    res := Ok(Entry(createdDate, createdDate, frame.rows[0].journalEntryId, lineItems, currencyRef.value,
                    subsidiaries.subsidiary, subsidiaries.toSubsidiary));
  }

  /** A row whose account number the lookup finds at index `j`. */
  lemma RowResolved(frame: Frame, refs: RefData, i: nat, j: nat)
    requires i < |frame.rows| && LookupAttempted(refs, frame.rows[i])
    requires FindAccount(refs.accounts, Str(frame.rows[i].accountNumber)) == Some(j)
    ensures ResolveAccount(refs, frame.rows[i]) == Some(refs.accounts[j])
    ensures LineAt(frame, refs, i) == Some(MakeLine(frame.rows[i], refs.accounts[j], refs, Memo(frame)))
    ensures DerivedAt(frame, refs, i) == DerivedSubsidiary(frame.rows[i], refs.accounts[j])
    ensures ListMissing(frame.rows[i], refs.accounts[j]) ==> RowFailure(frame, refs, i) == Some(SubsidiaryListMissing(i))
    ensures !ListMissing(frame.rows[i], refs.accounts[j]) ==>
      (RowFailure(frame, refs, i).Some? <==> SideOf(frame.rows[i].postingType).Some? && "Amount" !in frame.columns)
    ensures !ListMissing(frame.rows[i], refs.accounts[j]) && RowFailure(frame, refs, i).Some? ==>
      RowFailure(frame, refs, i) == Some(AmountColumnMissing(i))
  {
  }

  /** A row whose account number the lookup does not find. */
  lemma RowUnresolved(frame: Frame, refs: RefData, i: nat)
    requires i < |frame.rows| && LookupAttempted(refs, frame.rows[i])
    requires FindAccount(refs.accounts, Str(frame.rows[i].accountNumber)) == None
    ensures LineAt(frame, refs, i) == None && DerivedAt(frame, refs, i) == None
    ensures RowFailure(frame, refs, i) == None
  {
  }

  /** The source loop over the group's rows and the steps after it. */
  method BuildLines(frame: Frame, refs: RefData) returns (res: Result<Entry, BuildError>)
    ensures res == Assemble(frame, refs)
  {
    var lineItems: seq<Line> := [];
    var subsidiaries := NO_SUBSIDIARIES;
    var i := 0;
    while i < |frame.rows|
      invariant 0 <= i <= |frame.rows|
      invariant FirstFailure(frame, refs, i) == None
      invariant lineItems == Lines(frame, refs, i)
      invariant subsidiaries == Subs(frame, refs, i)
    {
      var row := frame.rows[i];
      RowStep(frame, refs, i);
      if !(|refs.accounts| > 0 && Truthy(row.accountNumber)) {
        FailureIsFinal(frame, refs, i + 1, |frame.rows|);
        return Err(AccountNotLookedUp(i));
      }
      var found := FindAccount(refs.accounts, Str(row.accountNumber));
      if found.Some? {
        var acct := refs.accounts[found.value];
        RowResolved(frame, refs, i, found.value);
        var recorded := RecordSubsidiary(subsidiaries, row, acct);
        if recorded.None? {
          FailureIsFinal(frame, refs, i + 1, |frame.rows|);
          return Err(SubsidiaryListMissing(i));
        }
        subsidiaries := recorded.value;
        var line := CompleteLine(frame, refs, i, acct);
        if line.None? {
          FailureIsFinal(frame, refs, i + 1, |frame.rows|);
          return Err(AmountColumnMissing(i));
        }
        lineItems := lineItems + [line.value];
      } else {
        RowUnresolved(frame, refs, i);
      }
      i := i + 1;
    }

    res := Finish(frame, refs, lineItems, subsidiaries);
  }
}

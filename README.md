# target-netsuite journal entry assembly, modelled in Dafny

This project models the part of the `target-netsuite` Singer target that turns
the rows of a `JournalEntries.csv` into NetSuite Journal Entry payloads.

- **Schema check.** The loader refuses a CSV that lacks any of the eight
  required columns.
- **Grouping.** It splits the rows into one group per Journal Entry Id.
- **Assembly.** `build_lines` builds one entry per group:
  - Each row whose Account Number resolves to an account becomes a line. The
    line carries the account reference, the class, department and location
    references (a class or department matches on a `" - "`-separated name
    segment; a location matches on its exact name), a credit or a debit, and
    the group's first Description as its memo.
  - A row whose account number matches no account is skipped.
  - The `subsidiary` key (Debit rows) and the `toSubsidiary` key (Credit rows)
    each take the last value written to them. An explicit Subsidiary cell
    wins over the account's first subsidiary.
  - `toSubsidiary` is dropped when it equals `subsidiary`.
  - The currency comes from the group's last row.
  - The dates and the external id come from the first row.
- **Logged message.** A fetch-failure message is sanitised before it is
  logged.

The places where the source reads a variable it never bound, indexes
something that is None, or reads a column that is absent, are modelled as
explicit error results (`Assembly.BuildError`). They are:
- an empty group;
- a row that never enters the Accounts branch;
- a resolved row with no Subsidiary cell whose account has no subsidiary list;
- a Credit or Debit row without an Amount column;
- a last-row currency that matches nothing.

No outcome is guessed for these paths.

A cell the source reads with `row.get` is an `Input.Cell`. It is `Missing`
when the column is absent, `Blank` when the field is empty, or its text.
pandas reads an empty field as NaN, which is truthy and equal to no string,
so a blank cell behaves differently from a missing column:
- a blank Account Number is looked up as "nan";
- a blank Subsidiary still overrides the account's subsidiary;
- a blank Currency on the last row fails when currencies exist.

Rows with a blank Journal Entry Id are dropped before grouping, as
`groupby` drops NaN keys.

Modules:

- `Wrappers`: `Option` and `Result`.
- `Text`: split, join and replace on strings, with their laws.
- `References`: the reference collections, first-match lookups and message
  sanitising.
- `Input`: the CSV row and the required-column check.
- `Grouping`: the per-id partition of the rows.
- `Assembly`: the per-row specification functions, the entry `Assemble`
  builds, and the imperative `BuildLines` that follows the source loop and is
  proved equal to `Assemble`.
- `AssemblyFacts`: the properties of `Assemble`.
- `Loading`: the schema check followed by assembly of every group.

## Model

| member | source | states |
|---|---|---|
| Assembly.BuildLines | target_netsuite/__init__.py:109-224 | The loop over the group's rows returns exactly the entry, or the exact failure, that the specification `Assemble` gives for the same frame and reference data. |
| Assembly.RecordSubsidiary | target_netsuite/__init__.py:130-140 | It fails exactly when the row has no truthy Subsidiary cell and the account has no subsidiary list. Otherwise the new dictionary is the old one with the derived subsidiary (the cell's own, else the account's first) written to `toSubsidiary` for a Credit row or to `subsidiary` for a Debit row. Nothing is written for any other posting type or when no subsidiary is derived. |
| Assembly.ReferencedLine | target_netsuite/__init__.py:123-173 | The line holds the account reference and the class, department and location references of the first matching records (`TokenLookup`/`NameLookup`), with no amounts and no memo yet. |
| Assembly.CompleteLine | target_netsuite/__init__.py:175-185 | A Credit or Debit row without an Amount column fails; otherwise the line is the full line for that row and account, with the amount under `credit` or `debit` and the group memo. |
| Assembly.ResolveCurrency | target_netsuite/__init__.py:187-200 | The currency computed from the last row equals `CurrencyOf`: none, the first currency whose symbol matches, or the unbound-`currency_ref` failure. |
| Assembly.Finish | target_netsuite/__init__.py:202-224 | After a loop with no failure, the collapse, dates, header and currency give exactly `Assemble`'s result. |
| Assembly.ResolveAccountFirstMatch | target_netsuite/__init__.py:116-122 | A row resolves exactly when accounts exist, its Account Number cell is truthy and some account's number equals the cell's `str(...)` ("nan" for a blank cell). It then resolves to the first such account. |
| Assembly.CurrencyOf | target_netsuite/__init__.py:187-200 | The result is an error exactly when currencies exist, the last row's cell is truthy and no symbol equals it. A blank cell equals no symbol. It is None exactly when there are no currencies or the cell is falsy. Otherwise it is the first currency whose symbol is the cell's text. |
| Assembly.Collapse | target_netsuite/__init__.py:202-205 | `subsidiary` is kept. `toSubsidiary` never equals a present `subsidiary` afterwards. `toSubsidiary` is removed only when both keys hold the same value. |
| Assembly.FailureIsFinal | target_netsuite/__init__.py:114-185 | Once a row fails, the group's outcome is that failure, whatever the later rows. |
| AssemblyFacts.FirstFailureIsFirst | target_netsuite/__init__.py:114-185 | The group fails exactly when some row fails, and then with the failure of the first failing row. |
| AssemblyFacts.FirstFailingRowFailsEntry | target_netsuite/__init__.py:114-185 | If row i is the first failing row, the entry is that row's failure. |
| AssemblyFacts.NoAccountsFailsAtFirstRow | target_netsuite/__init__.py:116 | With no accounts fetched, a non-empty group fails at its first row. |
| AssemblyFacts.LinesFollowSources | target_netsuite/__init__.py:114-185 | The k-th line is the line of the k-th resolved row. |
| AssemblyFacts.SourcesAreResolvedRows | target_netsuite/__init__.py:116-121 | The rows that give lines are the resolved rows, in increasing row order. |
| AssemblyFacts.LinesComeFromResolvedRows | target_netsuite/__init__.py:114-185 | There are at most as many lines as rows, one per resolved row in row order, and each line is built from its row's first matching account and the group memo. |
| AssemblyFacts.LineReferences | target_netsuite/__init__.py:123-173 | Each line's account, class, department and location references are those of its row's first matching records. |
| AssemblyFacts.CreditDebitPlacement | target_netsuite/__init__.py:175-179 | A line has `credit` exactly for a Credit row and `debit` exactly for a Debit row, each the row's amount. No line has both. |
| AssemblyFacts.AllLinesShareFirstMemo | target_netsuite/__init__.py:181-183 | Every line's memo is the group's first Description when that column exists, and absent otherwise. |
| AssemblyFacts.UnresolvedRowContributesNothing | target_netsuite/__init__.py:118-121 | A looked-up row with an unknown account number changes neither the lines, nor the subsidiaries, nor the failure. |
| AssemblyFacts.ExplicitSubsidiaryWins | target_netsuite/__init__.py:131-132 | A truthy Subsidiary cell (a blank one included) gives the subsidiary with that cell's value as internal id, whatever the account. The account's list is then never read. |
| AssemblyFacts.MissingSubsidiaryListFails | target_netsuite/__init__.py:133-135 | The first failing row may be a resolved row with no truthy Subsidiary cell whose account has no subsidiary list. The group then fails with `SubsidiaryListMissing` for that row. |
| AssemblyFacts.AmountColumnMissingFails | target_netsuite/__init__.py:176-179 | The first failing row may be a resolved Credit or Debit row whose subsidiary is found, in a group without an Amount column. The group then fails on `row["Amount"]` with `AmountColumnMissing` for that row. |
| AssemblyFacts.RecordedSlot | target_netsuite/__init__.py:136-140 | Recording changes only the key of the row's side, and only when a subsidiary is derived. |
| AssemblyFacts.LastWriteWins | target_netsuite/__init__.py:130-140 | Each subsidiary key is set exactly when some row writes it, and it holds the value of the last row that writes it. |
| AssemblyFacts.AssembleOutcome | target_netsuite/__init__.py:186-224 | The entry exists exactly when the group is non-empty, no row fails and the currency resolves. Both dates are the first row's Transaction Date, when the column exists. The external id is the first row's id. The lines are the resolved rows' lines. The currency is the last row's. `toSubsidiary` is dropped exactly when it equals `subsidiary`. |
| AssemblyFacts.OneCreditLineScenario | target_netsuite/__init__.py:109-224 | Two rows, where only account 100 resolves, give one credit line of 15000 with the Cash account reference and the memo "Rent", no currency and no subsidiaries. |
| AssemblyFacts.SameSubsidiaryCollapses | target_netsuite/__init__.py:202-205 | A Credit row and a Debit row with the same Subsidiary give an entry with `subsidiary` set and no `toSubsidiary`. |
| References.FirstMatch | target_netsuite/__init__.py:118 | The index is that of the first element satisfying the filter, and None means no element does. |
| References.FindAccountFirstMatch | target_netsuite/__init__.py:118 | No account before the one found has the number, and None means no account has it. The search equals `FirstMatch` with the comprehension's filter. |
| References.FindByTokenFirstMatch | target_netsuite/__init__.py:144 | No record before the one found has the name segment, and None means no record has it. The search equals `FirstMatch` with the comprehension's filter. |
| References.FindByNameFirstMatch | target_netsuite/__init__.py:166 | No location before the one found has the name, and None means no location has it. The search equals `FirstMatch` with the comprehension's filter. |
| References.FindCurrencyFirstMatch | target_netsuite/__init__.py:189-191 | No currency before the one found has the symbol, and None means no currency has it. The search equals `FirstMatch` with the comprehension's filter. |
| References.TokenLookup | target_netsuite/__init__.py:143-151 | A class or department reference is present exactly when the cell holds non-empty text and some record has that text as a `" - "` segment. A blank cell matches nothing. The reference is the first such record's. |
| References.NameLookup | target_netsuite/__init__.py:165-173 | A location reference is present exactly when the cell holds non-empty text and some location has exactly that name. A blank cell matches nothing. The reference is the first such location's. |
| References.CompoundNameTokens | target_netsuite/__init__.py:144 | "Sales - US" is matched by "Sales" and by "US" and by nothing else. |
| References.SanitiseKeepsCleanMessage | target_netsuite/__init__.py:83 | A message containing neither "error" nor "Error" is logged unchanged. |
| References.SanitiseIsTwoJoins | target_netsuite/__init__.py:83 | Sanitising is split-on-"error"/join-with-"failure" followed by split-on-"Error"/join-with-"". |
| Text.ReplaceIsJoinOfSplit | target_netsuite/__init__.py:83 | `str.replace` equals splitting on the target and joining with the replacement. |
| Text.ReplaceBySelf | target_netsuite/__init__.py:83 | Replacing a target by itself changes nothing. |
| Text.JoinSplitRoundTrip | target_netsuite/__init__.py:144 | Joining the split parts with the separator gives back the original string. |
| Text.ReplaceAbsent | target_netsuite/__init__.py:83 | A replacement whose target does not occur changes nothing. |
| Text.SplitAbsent | target_netsuite/__init__.py:144 | A string that does not contain the separator splits into itself alone. |
| Text.Split | target_netsuite/__init__.py:144 | A split always has at least one part. |
| Text.SplitAtFirstOccurrence | target_netsuite/__init__.py:144 | The split cuts at the leftmost occurrence of the separator: the first part is everything before it, and the rest is the split of what follows it. Together with `SplitAbsent` this fixes every part. |
| Input.AllPresentIff | target_netsuite/__init__.py:244 | The check passes exactly when every required name is a column. |
| Input.MissingRequiredColumnFails | target_netsuite/__init__.py:233-248 | Missing any of the eight required columns (Description included) fails the check. |
| Input.SchemaDependsOnlyOnColumnSet | target_netsuite/__init__.py:232-244 | The column order and repeated columns do not affect the check. |
| Grouping.Identified | target_netsuite/__init__.py:253 | `groupby` keeps exactly the rows whose Journal Entry Id is not blank. |
| Grouping.IdentifiedKeepsIdRows | target_netsuite/__init__.py:253 | Dropping the blank-id rows keeps every row of each non-blank id, as often as it occurs and in input order. |
| Grouping.RowsWithIdMembers | target_netsuite/__init__.py:253 | Selecting by an id keeps exactly the rows with that id. |
| Grouping.RowsWithoutIdMembers | target_netsuite/__init__.py:253 | The rows left after a selection are exactly those with another id. |
| Grouping.GroupBy | target_netsuite/__init__.py:253 | No group is empty. |
| Grouping.RowsWithIdKeepsOrder | target_netsuite/__init__.py:253 | Selecting by id distributes over concatenation, so rows keep their input order within a group. |
| Grouping.GroupsAreSelections | target_netsuite/__init__.py:253 | Every group is exactly the rows of its key, in input order. |
| Grouping.GroupKeysDistinct | target_netsuite/__init__.py:253 | No two groups share a Journal Entry Id. |
| Grouping.EveryIdHasGroup | target_netsuite/__init__.py:253 | Every row's id is the key of some group. |
| Grouping.GroupByIsPartition | target_netsuite/__init__.py:253 | The groups together hold every row exactly as often as the input does. |
| Grouping.RowInExactlyOneGroup | target_netsuite/__init__.py:253 | Each row lies in exactly one group. |
| Loading.BuildAll | target_netsuite/__init__.py:252-255 | Applying the assembler to every group succeeds exactly when every group succeeds. On success it gives one entry per group, in group order. On failure it gives the first failing group's error. |
| Loading.LoadJournalEntries | target_netsuite/__init__.py:233-248 | A run is refused for missing columns exactly when a required column is absent, and the error carries the found and required column lists. |
| Loading.LoadedEntriesFollowGroups | target_netsuite/__init__.py:250-260 | A successful load gives one entry per group of the rows with an id, each named by its group's id. Each group holds every input row with that id, in input order. The entry ids are distinct, every non-blank row id names an entry, and no entry has a blank id. |
| Loading.LoadedEntriesAreDatedAndMemoed | target_netsuite/__init__.py:207-218 | In a loaded CSV, every entry carries its group's first date as both dates, and every line carries its group's first Description as its memo. |
| Loading.FailingGroupFailsLoad | target_netsuite/__init__.py:252-255 | A failing group fails the whole load, with its own error or that of an earlier failing group. |
| Loading.NoIdentifiedRowsLoadNothing | target_netsuite/__init__.py:253-260 | A valid CSV in which no row has a Journal Entry Id loads no entries. |

## Left out

- Reading the CSV with pandas, `pd.to_datetime` and date types: the rows arrive already read, and dates stay as the cell's text.
- `round(row["Amount"], 2)` on floats: amounts are integers in cents, so rounding to two decimals is the identity.
- Numeric cells: pandas reads a column of numbers as numbers. A numeric 0 is falsy, a number equals no string in the class, department, location and currency comparisons, and `str()` of a float account number ends in ".0". The model reads every present cell as text, truthy when non-empty.
- NaN in the plain-text cells: a blank Amount, Transaction Date or Description passes NaN (or NaT) into the entry. The model has no such value: those cells are always numbers or text.
- Blank Subsidiary cells: the explicit subsidiary of a blank cell has NaN as its internal id. Two such subsidiaries from different rows compare unequal in the source, so `toSubsidiary` is kept. Their model values (internal id "nan") are equal, so the model drops it.
- A blank Posting Type is NaN, which equals neither "Credit" nor "Debit". The model stands for it with any other text.
- Grouping order: pandas returns groups sorted by key in the column's own type. The model returns them in order of first appearance. The set of groups and each group's rows are the same.
- Fetching the reference data from NetSuite, posting the entries, logging, config and CLI handling: these are I/O. A failed fetch leaves a collection absent, which is modelled as an empty collection.
- The `RuntimeError` re-raise in `load_journal_entries`, `sys.exit(1)` and exception types: every failure is a `Result` error value.
- Customer Name and Account Name: the source requires these columns but never reads their cells, so `Row` has no field for them.
- Assembly.BuildLines: a row that skips the Accounts branch (no accounts fetched, or a falsy Account Number) is reported as `AccountNotLookedUp`. When no earlier row of the group resolved its account, the source fails on the unbound `journal_entry_line`. Otherwise it mutates the last resolved row's line dictionary and appends that dictionary again. The model does not give that aliasing outcome.
- Assembly.CurrencyOf: the currency comes from the group's last row even when that row was skipped. When currencies exist and that row's Currency cell is truthy (a blank cell included), the cell must equal a known symbol, or the build fails. When the cell is falsy or the column is absent there is no currency and no failure.
- Assembly.ResolveAccount: a caller might expect missing Accounts data to behave like an unmatched lookup, with the row skipped. The code never binds the line in that case, so the model reports a failure (`AccountNotLookedUp`).
- AssemblyFacts.UnresolvedRowContributesNothing: stated for one step of the loop (lines, subsidiaries and failure unchanged). It is not stated as "removing the row gives the same entry", because the row indices carried by the error values move when a row is removed.

/** The rows of the input CSV and the required-column check made before any
    grouping (`load_journal_entries`). */
module Input {

  /** A cell the source reads with `row.get(column)`: `Missing` when the
      CSV has no such column (`get` gives None), `Blank` when the column is
      there but the field is empty (pandas reads it as NaN, which is truthy
      and equal to no string), otherwise the cell's text. */
  datatype Cell = Missing | Blank | Text(text: string)

  /** Python truthiness of the cell's value. */
  predicate Truthy(c: Cell)
  {
    c.Blank? || (c.Text? && c.text != "")
  }

  /** `str(value)` of the cell's value. */
  function Str(c: Cell): string
  {
    match c
    case Missing => "None"
    case Blank => "nan"
    case Text(t) => t
  }

  /** `value == s` between the cell's value and a string: NaN and None
      equal no string. */
  predicate IsText(c: Cell, s: string)
  {
    c.Text? && c.text == s
  }

  /** One CSV row, already read.
      - The cells the source reads with `row.get` are `Cell`s.
      - Journal Entry Id, Posting Type, Transaction Date and Description are
        plain text. pandas never gives an empty string for a field, so an
        empty Journal Entry Id stands for a blank cell, and a blank Posting
        Type is any text other than "Credit" and "Debit".
      - Transaction Date and Description mean something only when their
        column exists; the frame's column list says whether it does.
      - The amount is in cents, so rounding it to two decimals leaves it
        unchanged. */
  datatype Row = Row(
    journalEntryId: string,
    transactionDate: string,
    accountNumber: Cell,
    postingType: string,
    amount: int,
    subsidiary: Cell,
    classLabel: Cell,
    department: Cell,
    location: Cell,
    currency: Cell,
    description: string)

  /** The columns a CSV must have for the run to go on. */
  const REQUIRED_COLUMNS: seq<string> := [
    "Transaction Date",
    "Journal Entry Id",
    "Customer Name",
    "Class",
    "Account Number",
    "Account Name",
    "Posting Type",
    "Description"
  ]

  /** `all(col in cols for col in required)`, scanning `required` in order. */
  function AllPresent(required: seq<string>, cols: seq<string>): bool
    decreases |required|
  {
    required == [] || (required[0] in cols && AllPresent(required[1..], cols))
  }

  /** The check passes exactly when every required name is a column. */
  lemma {:induction false} AllPresentIff(required: seq<string>, cols: seq<string>)
    ensures AllPresent(required, cols) <==> forall c :: c in required ==> c in cols
    decreases |required|
  {
    if required != [] {
      AllPresentIff(required[1..], cols);
      assert forall c :: c in required <==> c == required[0] || c in required[1..];
    }
  }

  /** Missing any one of the required columns fails the check; in
      particular a CSV without a Description column is refused. */
  lemma MissingRequiredColumnFails(cols: seq<string>, missing: string)
    requires missing in REQUIRED_COLUMNS && missing !in cols
    ensures !AllPresent(REQUIRED_COLUMNS, cols)
  {
    AllPresentIff(REQUIRED_COLUMNS, cols);
  }

  /** The order and repetition of the columns do not matter to the check. */
  lemma SchemaDependsOnlyOnColumnSet(cols1: seq<string>, cols2: seq<string>)
    requires forall c :: c in cols1 <==> c in cols2
    ensures AllPresent(REQUIRED_COLUMNS, cols1) == AllPresent(REQUIRED_COLUMNS, cols2)
  {
    AllPresentIff(REQUIRED_COLUMNS, cols1);
    AllPresentIff(REQUIRED_COLUMNS, cols2);
  }
}

/** The reference collections fetched from the ledger once per run (Accounts,
    Classifications, Departments, Locations, Currencies) as typed records,
    the first-match lookups the assembler performs on them, and the
    sanitising of a fetch-failure message. */
module References {
  import opened Wrappers
  import opened Text
  import opened Input

  /** A reference as the target emits it: `{name, externalId, internalId}`. */
  datatype Ref = Ref(name: Option<string>, externalId: Option<string>, internalId: Option<string>)

  /** A record reference as it appears in an account's subsidiary list; the
      explicit `Subsidiary` cell of a row is turned into one of these too. */
  datatype RecordRef = RecordRef(
    name: Option<string>,
    internalId: Option<string>,
    externalId: Option<string>,
    recordType: Option<string>)

  /** An account. Its `subsidiaryList` may be None: the source indexes the
      list without checking, which fails for such an account. */
  datatype Account = Account(
    acctNumber: string,
    acctName: Option<string>,
    externalId: Option<string>,
    internalId: Option<string>,
    subsidiaryList: Option<seq<RecordRef>>)

  /** A classification, department or location. */
  datatype NamedRecord = NamedRecord(name: string, externalId: Option<string>, internalId: Option<string>)

  datatype Currency = Currency(symbol: string, externalId: Option<string>, internalId: Option<string>)

  /** The five collections. A collection whose fetch failed is absent from
      the source's dictionary; absent and empty behave alike (both are
      falsy), so both are the empty sequence here. */
  datatype RefData = RefData(
    accounts: seq<Account>,
    classifications: seq<NamedRecord>,
    departments: seq<NamedRecord>,
    locations: seq<NamedRecord>,
    currencies: seq<Currency>)

  /** The separator of compound class and department names. */
  const TOKEN_SEPARATOR := " - "

  /** `value in name.split(" - ")`. */
  predicate HasToken(name: string, value: string)
  {
    value in Split(name, TOKEN_SEPARATOR)
  }

  /** `[x for x in s if p(x)][0]`, as an index, or None when the list is empty. */
  function FirstMatch<T>(s: seq<T>, p: T -> bool): (r: Option<nat>)
    ensures r.Some? ==> r.value < |s| && p(s[r.value])
    ensures r.Some? ==> forall j :: 0 <= j < r.value ==> !p(s[j])
    ensures r.None? ==> forall j :: 0 <= j < |s| ==> !p(s[j])
    decreases |s|
  {
    if s == [] then None
    else if p(s[0]) then Some(0)
    else
      match FirstMatch(s[1..], p)
      case None => None
      case Some(i) =>
        assert forall j :: 1 <= j < i + 1 ==> s[j] == s[1..][j - 1];
        Some(i + 1)
  }

  /** Only one index is the first match: any index or None that meets
      `FirstMatch`'s description is `FirstMatch`'s answer. */
  lemma FirstMatchUnique<T>(s: seq<T>, p: T -> bool, r: Option<nat>)
    requires r.Some? ==> r.value < |s| && p(s[r.value]) && forall j :: 0 <= j < r.value ==> !p(s[j])
    requires r.None? ==> forall j :: 0 <= j < |s| ==> !p(s[j])
    ensures r == FirstMatch(s, p)
  {
  }

  /** The first account whose `acctNumber` is exactly `number`. */
  function FindAccount(accounts: seq<Account>, number: string): (r: Option<nat>)
    ensures r.Some? ==> r.value < |accounts| && accounts[r.value].acctNumber == number
  {
    if accounts == [] then None
    else if accounts[0].acctNumber == number then Some(0)
    else
      match FindAccount(accounts[1..], number)
      case None => None
      case Some(j) => Some(j + 1)
  }

  /** No account before the one found carries the number, and when none is
      found no account carries it. */
  lemma {:induction false} FindAccountFirstMatch(accounts: seq<Account>, number: string)
    ensures var r := FindAccount(accounts, number);
      && (r.Some? ==> forall j :: 0 <= j < r.value ==> accounts[j].acctNumber != number)
      && (r.None? <==> forall j :: 0 <= j < |accounts| ==> accounts[j].acctNumber != number)
    ensures FindAccount(accounts, number) == FirstMatch(accounts, (a: Account) => a.acctNumber == number)
    decreases |accounts|
  {
    if accounts != [] {
      FindAccountFirstMatch(accounts[1..], number);
      assert forall j :: 1 <= j < |accounts| ==> accounts[j] == accounts[1..][j - 1];
    }
    FirstMatchUnique(accounts, (a: Account) => a.acctNumber == number, FindAccount(accounts, number));
  }

  /** The first record one of whose `" - "`-separated name segments is `value`. */
  function FindByToken(records: seq<NamedRecord>, value: string): (r: Option<nat>)
    ensures r.Some? ==> r.value < |records| && HasToken(records[r.value].name, value)
  {
    if records == [] then None
    else if HasToken(records[0].name, value) then Some(0)
    else
      match FindByToken(records[1..], value)
      case None => None
      case Some(j) => Some(j + 1)
  }

  /** No record before the one found has the segment, and when none is found
      no record has it. */
  lemma {:induction false} FindByTokenFirstMatch(records: seq<NamedRecord>, value: string)
    ensures var r := FindByToken(records, value);
      && (r.Some? ==> forall j :: 0 <= j < r.value ==> !HasToken(records[j].name, value))
      && (r.None? <==> forall j :: 0 <= j < |records| ==> !HasToken(records[j].name, value))
    ensures FindByToken(records, value) == FirstMatch(records, (d: NamedRecord) => HasToken(d.name, value))
    decreases |records|
  {
    if records != [] {
      FindByTokenFirstMatch(records[1..], value);
      assert forall j :: 1 <= j < |records| ==> records[j] == records[1..][j - 1];
    }
    FirstMatchUnique(records, (d: NamedRecord) => HasToken(d.name, value), FindByToken(records, value));
  }

  /** The first record whose name is exactly `value`. */
  function FindByName(records: seq<NamedRecord>, value: string): (r: Option<nat>)
    ensures r.Some? ==> r.value < |records| && records[r.value].name == value
  {
    if records == [] then None
    else if records[0].name == value then Some(0)
    else
      match FindByName(records[1..], value)
      case None => None
      case Some(j) => Some(j + 1)
  }

  /** No record before the one found has the name, and when none is found no
      record has it. */
  lemma {:induction false} FindByNameFirstMatch(records: seq<NamedRecord>, value: string)
    ensures var r := FindByName(records, value);
      && (r.Some? ==> forall j :: 0 <= j < r.value ==> records[j].name != value)
      && (r.None? <==> forall j :: 0 <= j < |records| ==> records[j].name != value)
    ensures FindByName(records, value) == FirstMatch(records, (l: NamedRecord) => l.name == value)
    decreases |records|
  {
    if records != [] {
      FindByNameFirstMatch(records[1..], value);
      assert forall j :: 1 <= j < |records| ==> records[j] == records[1..][j - 1];
    }
    FirstMatchUnique(records, (l: NamedRecord) => l.name == value, FindByName(records, value));
  }

  /** The first currency whose symbol is exactly `symbol`. */
  function FindCurrency(currencies: seq<Currency>, symbol: string): (r: Option<nat>)
    ensures r.Some? ==> r.value < |currencies| && currencies[r.value].symbol == symbol
  {
    if currencies == [] then None
    else if currencies[0].symbol == symbol then Some(0)
    else
      match FindCurrency(currencies[1..], symbol)
      case None => None
      case Some(j) => Some(j + 1)
  }

  /** No currency before the one found has the symbol, and when none is found
      no currency has it. */
  lemma {:induction false} FindCurrencyFirstMatch(currencies: seq<Currency>, symbol: string)
    ensures var r := FindCurrency(currencies, symbol);
      && (r.Some? ==> forall j :: 0 <= j < r.value ==> currencies[j].symbol != symbol)
      && (r.None? <==> forall j :: 0 <= j < |currencies| ==> currencies[j].symbol != symbol)
    ensures FindCurrency(currencies, symbol) == FirstMatch(currencies, (c: Currency) => c.symbol == symbol)
    decreases |currencies|
  {
    if currencies != [] {
      FindCurrencyFirstMatch(currencies[1..], symbol);
      assert forall j :: 1 <= j < |currencies| ==> currencies[j] == currencies[1..][j - 1];
    }
    FirstMatchUnique(currencies, (c: Currency) => c.symbol == symbol, FindCurrency(currencies, symbol));
  }

  function AccountRef(a: Account): Ref
  {
    Ref(a.acctName, a.externalId, a.internalId)
  }

  function NamedRef(d: NamedRecord): Ref
  {
    Ref(Some(d.name), d.externalId, d.internalId)
  }

  function CurrencyRef(c: Currency): Ref
  {
    Ref(Some(c.symbol), c.externalId, c.internalId)
  }

  /** The class or department reference attached to a line for the cell
      `value`: none when the collection is empty or the cell is falsy,
      otherwise the first record with a name segment equal to the cell's
      text. A blank cell (NaN) equals no segment. */
  function TokenLookup(records: seq<NamedRecord>, value: Cell): (r: Option<Ref>)
    ensures r.Some? <==>
      value.Text? && value.text != "" && exists j :: 0 <= j < |records| && HasToken(records[j].name, value.text)
    ensures r.Some? ==>
      exists j :: 0 <= j < |records| && HasToken(records[j].name, value.text) && r.value == NamedRef(records[j])
                  && forall k :: 0 <= k < j ==> !HasToken(records[k].name, value.text)
  {
    if |records| == 0 || !Truthy(value) then None
    else
      match value
      case Missing => None
      case Blank => None
      case Text(t) =>
        FindByTokenFirstMatch(records, t);
        match FindByToken(records, t)
        case None => None
        case Some(j) => Some(NamedRef(records[j]))
  }

  /** The location reference attached to a line for the cell `value`: the
      first record whose name equals the cell's text exactly. A blank cell
      (NaN) equals no name. */
  function NameLookup(records: seq<NamedRecord>, value: Cell): (r: Option<Ref>)
    ensures r.Some? <==>
      value.Text? && value.text != "" && exists j :: 0 <= j < |records| && records[j].name == value.text
    ensures r.Some? ==>
      exists j :: 0 <= j < |records| && records[j].name == value.text && r.value == NamedRef(records[j])
                  && forall k :: 0 <= k < j ==> records[k].name != value.text
  {
    if |records| == 0 || !Truthy(value) then None
    else
      match value
      case Missing => None
      case Blank => None
      case Text(t) =>
        FindByNameFirstMatch(records, t);
        match FindByName(records, t)
        case None => None
        case Some(j) => Some(NamedRef(records[j]))
  }

  /** The message logged when a collection cannot be fetched: every "error"
      becomes "failure", then every "Error" is removed. */
  function SanitiseMessage(message: string): string
  {
    Replace(Replace(message, "error", "failure"), "Error", "")
  }

  /** A message that mentions neither "error" nor "Error" is logged unchanged. */
  lemma SanitiseKeepsCleanMessage(message: string)
    requires !Contains(message, "error") && !Contains(message, "Error")
    ensures SanitiseMessage(message) == message
  {
    ReplaceAbsent(message, "error", "failure");
    ReplaceAbsent(message, "Error", "");
  }

  /** Sanitising is the two split-and-join passes. */
  lemma SanitiseIsTwoJoins(message: string)
    ensures SanitiseMessage(message) == Join(Split(Join(Split(message, "error"), "failure"), "Error"), "")
  {
    ReplaceIsJoinOfSplit(message, "error", "failure");
    ReplaceIsJoinOfSplit(Replace(message, "error", "failure"), "Error", "");
  }

  /** The split of the example name "Sales - US". */
  lemma SplitSalesUS()
    ensures Split("Sales - US", TOKEN_SEPARATOR) == ["Sales", "US"]
  {
    var name, sep := "Sales - US", TOKEN_SEPARATOR;
    assert OccursAt(name, sep, 5) by { assert name[5..8] == sep; }
    forall j: nat | j < 5
      ensures !OccursAt(name, sep, j)
    {
      assert name[j] != ' ';
      assert name[j..j + 3][0] == name[j];
    }
    SplitAtFirstOccurrence(name, sep, 5);
    assert name[..5] == "Sales" && name[8..] == "US";
    SplitAbsent("US", sep);
  }

  /** A compound name is reachable through either of its segments and
      through nothing else. */
  lemma CompoundNameTokens(value: string)
    ensures HasToken("Sales - US", value) <==> value == "Sales" || value == "US"
  {
    SplitSalesUS();
  }
}

/** Looking accounts up by their columns, and turning each split into an
    amount in the reporting currency: the currency of the root account. */
module Normalize {
  import opened Wrappers
  import opened Ledger

  // ---------------------------------------------------------------------
  // Boolean masks over the account table

  /** The two boolean masks the lookups apply to the account table. */
  datatype Mask = RootRows | NamedRows(name: string)

  /** The row GnuCash creates as the top of every book. */
  predicate IsRootAccount(a: Account) {
    a.accountType == "ROOT" && a.name == "Root Account"
  }

  predicate Keeps(keep: Mask, a: Account) {
    match keep
    case RootRows => IsRootAccount(a)
    case NamedRows(name) => a.name == name
  }

  /** The rows the mask keeps, in row order. */
  function Select(rows: seq<Account>, keep: Mask): seq<Account>
    decreases |rows|
  {
    if rows == [] then [] else (if Keeps(keep, rows[0]) then [rows[0]] else []) + Select(rows[1..], keep)
  }

  /** The selection is empty exactly when no row is kept, and otherwise
      starts with the first kept row. */
  lemma {:induction false} SelectFirst(rows: seq<Account>, keep: Mask)
    ensures Select(rows, keep) == [] <==> forall i | 0 <= i < |rows| :: !Keeps(keep, rows[i])
    ensures Select(rows, keep) != [] ==>
              exists i | 0 <= i < |rows| :: rows[i] == Select(rows, keep)[0] && Keeps(keep, rows[i]) &&
                forall j | 0 <= j < i :: !Keeps(keep, rows[j])
    decreases |rows|
  {
    if rows != [] {
      SelectFirst(rows[1..], keep);
      if !Keeps(keep, rows[0]) {
        if Select(rows, keep) != [] {
          var i :| 0 <= i < |rows[1..]| && rows[1..][i] == Select(rows[1..], keep)[0] && Keeps(keep, rows[1..][i]) &&
                   forall j | 0 <= j < i :: !Keeps(keep, rows[1..][j]);
          assert rows[i + 1] == rows[1..][i];
          forall j | 0 <= j < i + 1
            ensures !Keeps(keep, rows[j])
          {
            if j > 0 {
              assert rows[j] == rows[1..][j - 1];
            }
          }
        }
        forall i | 1 <= i < |rows|
          ensures rows[i] == rows[1..][i - 1]
        {
        }
      }
    }
  }

  /** A selection of length one comes from a single kept row. */
  lemma {:induction false} SingleKept(rows: seq<Account>, keep: Mask)
    requires |Select(rows, keep)| == 1
    ensures exists i | 0 <= i < |rows| :: Keeps(keep, rows[i]) && forall j | 0 <= j < |rows| && Keeps(keep, rows[j]) :: j == i
    decreases |rows|
  {
    var rest := rows[1..];
    if Keeps(keep, rows[0]) {
      SelectFirst(rest, keep);
      assert forall j | 1 <= j < |rows| :: rows[j] == rest[j - 1];
    } else {
      SingleKept(rest, keep);
      var i :| 0 <= i < |rest| && Keeps(keep, rest[i]) && forall j | 0 <= j < |rest| && Keeps(keep, rest[j]) :: j == i;
      assert rows[i + 1] == rest[i];
      forall j | 0 <= j < |rows| && Keeps(keep, rows[j])
        ensures j == i + 1
      {
        assert j != 0;
        assert rows[j] == rest[j - 1];
      }
    }
  }

  /** A single kept row gives a selection of length one. */
  lemma {:induction false} KeptSingle(rows: seq<Account>, keep: Mask, i: nat)
    requires i < |rows| && Keeps(keep, rows[i])
    requires forall j | 0 <= j < |rows| && Keeps(keep, rows[j]) :: j == i
    ensures |Select(rows, keep)| == 1
    decreases |rows|
  {
    var rest := rows[1..];
    if i == 0 {
      SelectFirst(rest, keep);
      forall k | 0 <= k < |rest|
        ensures !Keeps(keep, rest[k])
      {
        assert rest[k] == rows[k + 1];
      }
    } else {
      assert rest[i - 1] == rows[i];
      forall j | 0 <= j < |rest| && Keeps(keep, rest[j])
        ensures j == i - 1
      {
        assert rest[j] == rows[j + 1];
      }
      KeptSingle(rest, keep, i - 1);
    }
  }

  /** The positions of the rows the mask keeps. */
  ghost function KeptAt(rows: seq<Account>, keep: Mask): set<int> {
    set i | 0 <= i < |rows| && Keeps(keep, rows[i])
  }

  /** Selecting from two tables one after the other selects from their concatenation. */
  lemma {:induction false} SelectAppend(a: seq<Account>, b: seq<Account>, keep: Mask)
    ensures Select(a + b, keep) == Select(a, keep) + Select(b, keep)
    decreases |a|
  {
    if a == [] {
      assert a + b == b;
    } else {
      assert (a + b)[1..] == a[1..] + b;
      SelectAppend(a[1..], b, keep);
    }
  }

  /** One more row adds itself to the selection when the mask keeps it. */
  lemma SelectSnoc(rows: seq<Account>, a: Account, keep: Mask)
    ensures |Select(rows + [a], keep)| == |Select(rows, keep)| + if Keeps(keep, a) then 1 else 0
  {
    SelectAppend(rows, [a], keep);
    assert [a][1..] == [];
  }

  /** One more row adds its own position to the kept positions when the mask keeps it. */
  lemma KeptAtSnoc(rows: seq<Account>, a: Account, keep: Mask)
    ensures KeptAt(rows + [a], keep) == KeptAt(rows, keep) + (if Keeps(keep, a) then {|rows|} else {})
  {
    var longer := rows + [a];
    forall i | 0 <= i < |rows|
      ensures longer[i] == rows[i]
    {
    }
    forall i | i in KeptAt(longer, keep)
      ensures i in KeptAt(rows, keep) + (if Keeps(keep, a) then {|rows|} else {})
    {
      if i < |rows| {
        assert Keeps(keep, rows[i]);
      }
    }
  }

  /** The selection has one row per kept position. */
  lemma {:induction false} SelectCount(rows: seq<Account>, keep: Mask)
    ensures |Select(rows, keep)| == |KeptAt(rows, keep)|
    decreases |rows|
  {
    if rows != [] {
      var n := |rows| - 1;
      assert rows == rows[..n] + [rows[n]];
      SelectCount(rows[..n], keep);
      SelectSnoc(rows[..n], rows[n], keep);
      KeptAtSnoc(rows[..n], rows[n], keep);
      assert n !in KeptAt(rows[..n], keep);
    }
  }

  /** Exactly one row is kept exactly when the selection has length one. */
  lemma SelectSingle(rows: seq<Account>, keep: Mask)
    ensures |Select(rows, keep)| == 1 <==>
              exists i | 0 <= i < |rows| :: Keeps(keep, rows[i]) && forall j | 0 <= j < |rows| && Keeps(keep, rows[j]) :: j == i
  {
    if |Select(rows, keep)| == 1 {
      SingleKept(rows, keep);
    }
    if exists i | 0 <= i < |rows| :: Keeps(keep, rows[i]) && forall j | 0 <= j < |rows| && Keeps(keep, rows[j]) :: j == i {
      var i :| 0 <= i < |rows| && Keeps(keep, rows[i]) && forall j | 0 <= j < |rows| && Keeps(keep, rows[j]) :: j == i;
      KeptSingle(rows, keep, i);
    }
  }

  // ---------------------------------------------------------------------
  // Account lookups

  /** The reporting currency: the commodity of the first row of type ROOT
      named "Root Account". `None` stands for the IndexError raised when the
      book has no such row. */
  function RootCurrency(accounts: seq<Account>): (r: Option<Id>)
    ensures r.None? <==> forall i | 0 <= i < |accounts| :: !IsRootAccount(accounts[i])
    ensures r.Some? ==>
              exists i | 0 <= i < |accounts| :: IsRootAccount(accounts[i]) && accounts[i].commodityGuid == r.value &&
                forall j | 0 <= j < i :: !IsRootAccount(accounts[j])
  {
    var roots := Select(accounts, RootRows);
    SelectFirst(accounts, RootRows);
    if roots == [] then None else Some(roots[0].commodityGuid)
  }

  /** Exactly one row of the table is called `name`. */
  ghost predicate UniquelyNamed(accounts: seq<Account>, name: string) {
    exists i | 0 <= i < |accounts| :: accounts[i].name == name &&
      forall j | 0 <= j < |accounts| && accounts[j].name == name :: j == i
  }

  /** What the two mask lemmas say about the rows named `name`. */
  lemma NamedRowsFacts(accounts: seq<Account>, name: string)
    ensures Select(accounts, NamedRows(name)) == [] <==> forall i | 0 <= i < |accounts| :: !Keeps(NamedRows(name), accounts[i])
    ensures |Select(accounts, NamedRows(name))| == 1 <==>
              UniquelyNamed(accounts, name)
    ensures |Select(accounts, NamedRows(name))| == 1 ==>
              forall i | 0 <= i < |accounts| && Keeps(NamedRows(name), accounts[i]) ::
                accounts[i] == Select(accounts, NamedRows(name))[0]
  {
    SelectFirst(accounts, NamedRows(name));
    SelectSingle(accounts, NamedRows(name));
  }

  /** The positions of the accounts called `name`. */
  ghost function NamedAt(accounts: seq<Account>, name: string): set<int> {
    set i | 0 <= i < |accounts| && accounts[i].name == name
  }

  /** The guid of the one account called `name`; any other number of
      matches is a RuntimeError carrying that number. */
  function GetAccountGuid(accounts: seq<Account>, name: string): (r: Result<Id, Fault>)
    ensures r.Success? <==>
              UniquelyNamed(accounts, name)
    ensures r.Success? ==> forall i | 0 <= i < |accounts| && accounts[i].name == name :: accounts[i].guid == r.value
    ensures r.Failure? ==> r.error == DatasetsFound(|NamedAt(accounts, name)|)
    ensures r.Failure? ==> r.error.DatasetsFound? && r.error.count != 1
    ensures r.Failure? ==> (r.error.count == 0 <==> forall i | 0 <= i < |accounts| :: accounts[i].name != name)
  {
    var named := Select(accounts, NamedRows(name));
    NamedRowsFacts(accounts, name);
    SelectCount(accounts, NamedRows(name));
    assert KeptAt(accounts, NamedRows(name)) == NamedAt(accounts, name);
    if |named| == 1 then Success(named[0].guid) else Failure(DatasetsFound(|named|))
  }

  /** The older lookup as written: its failure branch raises a plain string,
      which Python refuses with a TypeError, so the count never reaches the
      caller. */
  function GetAccGuidAsWritten(accounts: seq<Account>, name: string): (r: Result<Id, Fault>)
    ensures r.Success? <==> GetAccountGuid(accounts, name).Success?
    ensures r.Success? ==> r == GetAccountGuid(accounts, name)
    ensures r.Failure? ==> r.error == NotAnException
  {
    var named := Select(accounts, NamedRows(name));
    if |named| == 1 then Success(named[0].guid) else Failure(NotAnException)
  }

  const Bank := Account("g1", Some("root"), "Bank", "BANK", 0, "EUR")
  const SecondBank := Account("g2", Some("root"), "Bank", "BANK", 0, "EUR")

  /** A book without a "Bank" account and a book with two of them fail
      alike under the older lookup, while the corrected one reports 0 and 2. */
  lemma AsWrittenLosesCount()
    ensures GetAccGuidAsWritten([], "Bank") == GetAccGuidAsWritten([Bank, SecondBank], "Bank")
    ensures GetAccountGuid([], "Bank") == Failure(DatasetsFound(0))
    ensures GetAccountGuid([Bank, SecondBank], "Bank") == Failure(DatasetsFound(2))
  {
    var rows := [Bank, SecondBank];
    assert rows[1..] == [SecondBank] && [SecondBank][1..] == [];
    assert Select([SecondBank], NamedRows("Bank")) == [SecondBank];
    assert Select(rows, NamedRows("Bank")) == rows;
  }

  // ---------------------------------------------------------------------
  // Split amounts in the reporting currency

  /** A split in a foreign currency: its own ratio times the latest price of
      that currency, as left-joined from the price table. No price row, or a
      zero denominator, leaves the amount undefined (NaN). */
  function Converted(s: Split, prices: map<Id, Price>): Option<real> {
    if s.currencyGuid !in prices then None
    else
      var p := prices[s.currencyGuid];
      match (Ratio(s.valueNum, s.valueDenom), Ratio(p.valueNum, p.valueDenom))
      case (Some(a), Some(b)) => Some(a * b)
      case _ => None
  }

  lemma ProductScales(a: real, b: real, d1: real, d2: real, n1: real, n2: real)
    requires a * d1 == n1 && b * d2 == n2
    ensures a * b * (d1 * d2) == n1 * n2
  {
    calc {
      a * b * (d1 * d2);
      (a * d1) * (b * d2);
    }
  }

  /** The amount of one split in the reporting currency. */
  function SplitValue(s: Split, rootCurrency: Id, prices: map<Id, Price>): (r: Option<real>)
    ensures s.currencyGuid == rootCurrency ==>
              (r.Some? <==> s.valueDenom != 0) && (r.Some? ==> r.value * s.valueDenom as real == s.valueNum as real)
    ensures s.currencyGuid != rootCurrency ==>
              (r.Some? <==> s.currencyGuid in prices && s.valueDenom != 0 && prices[s.currencyGuid].valueDenom != 0)
    ensures s.currencyGuid != rootCurrency && r.Some? ==>
              var p := prices[s.currencyGuid];
              r.value * (s.valueDenom as real * p.valueDenom as real) == s.valueNum as real * p.valueNum as real
  {
    if s.currencyGuid == rootCurrency then Ratio(s.valueNum, s.valueDenom)
    else
      var r := Converted(s, prices);
      if r.Some? then
        var p := prices[s.currencyGuid];
        ProductScales(Ratio(s.valueNum, s.valueDenom).value, Ratio(p.valueNum, p.valueDenom).value,
                      s.valueDenom as real, p.valueDenom as real, s.valueNum as real, p.valueNum as real);
        r
      else r
  }

  /** A split in the reporting currency is worth the same whatever the price
      table holds. */
  lemma RootValueIgnoresPrices(s: Split, rootCurrency: Id, p1: map<Id, Price>, p2: map<Id, Price>)
    requires s.currencyGuid == rootCurrency
    ensures SplitValue(s, rootCurrency, p1) == SplitValue(s, rootCurrency, p2)
  {
  }

  /** The amount of a foreign split is linear in the price of its currency:
      replacing that price by one whose ratio is `k` times as large leaves
      the amount defined exactly when it was, and `k` times as large. */
  lemma PriceScales(s: Split, rootCurrency: Id, prices: map<Id, Price>, q: Price, k: real)
    requires s.currencyGuid != rootCurrency && s.currencyGuid in prices
    requires Ratio(prices[s.currencyGuid].valueNum, prices[s.currencyGuid].valueDenom).Some?
    requires Ratio(q.valueNum, q.valueDenom) ==
             Some(k * Ratio(prices[s.currencyGuid].valueNum, prices[s.currencyGuid].valueDenom).value)
    ensures SplitValue(s, rootCurrency, prices[s.currencyGuid := q]).Some? <==> SplitValue(s, rootCurrency, prices).Some?
    ensures SplitValue(s, rootCurrency, prices).Some? ==>
              SplitValue(s, rootCurrency, prices[s.currencyGuid := q]).value == k * SplitValue(s, rootCurrency, prices).value
  {
    var b := Ratio(prices[s.currencyGuid].valueNum, prices[s.currencyGuid].valueDenom).value;
    var own := Ratio(s.valueNum, s.valueDenom);
    var scaled := prices[s.currencyGuid := q];
    assert scaled[s.currencyGuid].valueNum == q.valueNum && scaled[s.currencyGuid].valueDenom == q.valueDenom;
    if own.Some? {
      assert Converted(s, prices).value == own.value * b;
      assert Converted(s, scaled).value == own.value * (k * b);
      assert own.value * (k * b) == k * (own.value * b);
    }
  }

  /** The `price` column: first every split's own ratio, then the rows not in
      the reporting currency overwritten with the converted amount. */
  method PriceColumn(splits: seq<Split>, rootCurrency: Id, prices: map<Id, Price>) returns (price: seq<Option<real>>)
    ensures |price| == |splits|
    ensures forall i | 0 <= i < |splits| :: price[i] == SplitValue(splits[i], rootCurrency, prices)
  {
    var column := new Option<real>[|splits|];
    for i := 0 to |splits|
      invariant forall k | 0 <= k < i :: column[k] == Ratio(splits[k].valueNum, splits[k].valueDenom)
    {
      column[i] := Ratio(splits[i].valueNum, splits[i].valueDenom);
    }
    for i := 0 to |splits|
      invariant forall k | 0 <= k < i :: column[k] == SplitValue(splits[k], rootCurrency, prices)
      invariant forall k | i <= k < |splits| :: column[k] == Ratio(splits[k].valueNum, splits[k].valueDenom)
    {
      if splits[i].currencyGuid != rootCurrency {
        column[i] := Converted(splits[i], prices);
      }
    }
    price := column[..];
  }
}

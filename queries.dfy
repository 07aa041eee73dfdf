/** The reading half of the transaction controller: the listing with its
    optional date range, the per-customer view and the per-name summary. */
module TransactionQueries {

  import opened Models
  import opened Ledger
  import opened Sequences
  import opened Text
  import opened Database

  /** The `date: { $gte: startDate, $lte: endDate }` filter, applied only when both bounds are given. */
  predicate InRange(t: Transaction, startDate: Option<Time>, endDate: Option<Time>) {
    startDate.Some? && endDate.Some? ==> startDate.value <= t.date <= endDate.value
  }

  /** `.sort({ date: -1 })`: later dates first. */
  predicate LaterOrSame(a: Transaction, b: Transaction) {
    a.date >= b.date
  }

  lemma LaterOrSameIsTotalPreorder()
    ensures TotalPreorder(LaterOrSame)
  {
  }

  /** With distinct ids, each transaction occurs once in the collection. */
  lemma {:induction false} DistinctOccursOnce(ts: seq<Transaction>)
    requires TransactionIdsDistinct(ts)
    ensures forall t :: t in ts ==> multiset(ts)[t] == 1
  {
    if ts != [] {
      var rest := ts[1..];
      assert ts == [ts[0]] + rest;
      assert TransactionIdsDistinct(rest) by {
        forall i, j | 0 <= i < j < |rest| ensures rest[i].id != rest[j].id {
          assert rest[i] == ts[i + 1] && rest[j] == ts[j + 1];
        }
      }
      DistinctOccursOnce(rest);
      assert ts[0] !in rest by {
        forall k | 0 <= k < |rest| ensures rest[k] != ts[0] {
          assert rest[k] == ts[k + 1];
        }
      }
    }
  }

  /** `getTransactions`: the caller's transactions in the date range, each
      as often as stored, later dates first. */
  function ListTransactions(ts: seq<Transaction>, owner: Id, startDate: Option<Time>, endDate: Option<Time>): (r: seq<Transaction>)
    ensures SortedBy(r, LaterOrSame)
    ensures forall t :: multiset(r)[t] == if t.user == owner && InRange(t, startDate, endDate) then multiset(ts)[t] else 0
    ensures forall t :: t in r <==> t in ts && t.user == owner && InRange(t, startDate, endDate)
  {
    LaterOrSameIsTotalPreorder();
    var matching := Filter(ts, (t: Transaction) => t.user == owner && InRange(t, startDate, endDate));
    var r := Sort(matching, LaterOrSame);
    assert forall t :: t in r <==> t in multiset(r);
    r
  }

  /** The customer `Customer.findOne({ user: owner, name: /^name$/i })`
      finds, reading the name as a literal: the first of the caller's customers
      whose name matches it as the anchored pattern does, that is equal to it
      ignoring case or that followed by a final newline. */
  function FindByName(cs: seq<Customer>, owner: Id, name: string): (r: Option<Customer>)
    ensures r.Some? ==> r.value in cs && r.value.user == owner && AnchoredMatch(name, r.value.name)
    ensures r.None? ==> forall c :: c in cs && c.user == owner ==> !AnchoredMatch(name, c.name)
  {
    if cs == [] then None
    else if cs[0].user == owner && AnchoredMatch(name, cs[0].name) then Some(cs[0])
    else FindByName(cs[1..], owner, name)
  }

  /** The `$or` of the per-customer view: linked by id, or carrying the customer's exact name. */
  predicate InView(t: Transaction, owner: Id, c: Customer) {
    t.user == owner && (t.customer == Some(c.id) || t.customerName == Some(c.name))
  }

  datatype CustomerView = CustomerView(balance: int, transactions: seq<Transaction>, customerId: Id)

  /** `getTransactionsByCustomer`: not found without a matching customer of
      the caller; otherwise its cached balance, its id, and the caller's
      transactions linked to it or named after it, later dates first. */
  function TransactionsByCustomer(cs: seq<Customer>, ts: seq<Transaction>, owner: Id, name: string): (r: Result<CustomerView>)
    ensures r.Err? <==> forall c :: c in cs && c.user == owner ==> !AnchoredMatch(name, c.name)
    ensures r.Err? ==> r.error == CustomerNotFound
    ensures r.Ok? ==>
      var c := FindByName(cs, owner, name).value;
      && c in cs && c.user == owner && AnchoredMatch(name, c.name)
      && r.value.balance == c.balance && r.value.customerId == c.id
      && SortedBy(r.value.transactions, LaterOrSame)
      && (forall t :: multiset(r.value.transactions)[t] == if InView(t, owner, c) then multiset(ts)[t] else 0)
  {
    match FindByName(cs, owner, name)
    case None => Err(CustomerNotFound)
    case Some(c) =>
      LaterOrSameIsTotalPreorder();
      var matching := Filter(ts, (t: Transaction) => InView(t, owner, c));
      Ok(CustomerView(c.balance, Sort(matching, LaterOrSame), c.id))
  }

  /** A transaction matching both the link and the name appears once: with
      distinct ids every transaction of the view occurs exactly once. */
  lemma ViewHasNoDuplicates(cs: seq<Customer>, ts: seq<Transaction>, owner: Id, name: string)
    requires TransactionIdsDistinct(ts)
    requires TransactionsByCustomer(cs, ts, owner, name).Ok?
    ensures var v := TransactionsByCustomer(cs, ts, owner, name).value.transactions;
            forall t :: t in v ==> multiset(v)[t] == 1 && t in ts
  {
    DistinctOccursOnce(ts);
    var c := FindByName(cs, owner, name).value;
    var v := TransactionsByCustomer(cs, ts, owner, name).value.transactions;
    forall t | t in v ensures multiset(v)[t] == 1 && t in ts {
      assert t in multiset(v);
      assert multiset(v)[t] == if InView(t, owner, c) then multiset(ts)[t] else 0;
      assert t in multiset(ts);
    }
  }

  /** The `$group` key: the snapshot name, or "Cash Transactions" when there is none. */
  function GroupKey(t: Transaction): (k: string)
    ensures t.customerName == Some("") ==> k == ""
  {
    t.customerName.GetOr("Cash Transactions")
  }

  datatype SummaryRow = SummaryRow(customerName: string, balance: int, lastTransactionDate: Time)

  function Max(a: int, b: int): int {
    if a >= b then a else b
  }

  /** The signed total of a group: `$sum` of amount for credits and of -amount otherwise. */
  function GroupTotal(ts: seq<Transaction>, key: string): int {
    if ts == [] then 0
    else GroupTotal(ts[..|ts| - 1], key) + (if GroupKey(ts[|ts| - 1]) == key then Signed(ts[|ts| - 1]) else 0)
  }

  /** `$max` of the dates of a group; `None` for a key no transaction has. */
  function LastDate(ts: seq<Transaction>, key: string): (r: Option<Time>)
    ensures r.None? <==> forall t :: t in ts ==> GroupKey(t) != key
    ensures r.Some? ==> forall t :: t in ts && GroupKey(t) == key ==> t.date <= r.value
    ensures r.Some? ==> exists t :: t in ts && GroupKey(t) == key && t.date == r.value
  {
    if ts == [] then None
    else
      var init, last := ts[..|ts| - 1], ts[|ts| - 1];
      assert ts == init + [last];
      var before := LastDate(init, key);
      if GroupKey(last) != key then before
      else match before
        case None => Some(last.date)
        case Some(d) => Some(Max(d, last.date))
  }

  /** A key no transaction carries has a group total of zero. */
  lemma {:induction false} GroupTotalOfAbsentKey(ts: seq<Transaction>, key: string)
    requires forall t :: t in ts ==> GroupKey(t) != key
    ensures GroupTotal(ts, key) == 0
  {
    if ts != [] {
      assert ts[|ts| - 1] in ts;
      forall t | t in ts[..|ts| - 1] ensures GroupKey(t) != key {
        assert t in ts;
      }
      GroupTotalOfAbsentKey(ts[..|ts| - 1], key);
    }
  }

  /** The row a transaction's group accumulates into, created on first sight. */
  function AddToGroups(rows: seq<SummaryRow>, t: Transaction): (r: seq<SummaryRow>)
    ensures |r| >= 1
  {
    if rows == [] then [SummaryRow(GroupKey(t), Signed(t), t.date)]
    else if rows[0].customerName == GroupKey(t) then
      [rows[0].(balance := rows[0].balance + Signed(t), lastTransactionDate := Max(rows[0].lastTransactionDate, t.date))] + rows[1..]
    else [rows[0]] + AddToGroups(rows[1..], t)
  }

  /** The `$group` stage over the matching transactions, in order of first appearance. */
  function Groups(ts: seq<Transaction>): seq<SummaryRow> {
    if ts == [] then [] else AddToGroups(Groups(ts[..|ts| - 1]), ts[|ts| - 1])
  }

  predicate RowNamesDistinct(rows: seq<SummaryRow>) {
    forall i, j :: 0 <= i < j < |rows| ==> rows[i].customerName != rows[j].customerName
  }

  /** The row for a name, if any. */
  function RowFor(rows: seq<SummaryRow>, key: string): Option<SummaryRow> {
    if rows == [] then None
    else if rows[0].customerName == key then Some(rows[0])
    else RowFor(rows[1..], key)
  }

  function SumBalances(rows: seq<SummaryRow>): int {
    if rows == [] then 0 else rows[0].balance + SumBalances(rows[1..])
  }

  lemma {:induction false} AddToGroupsSum(rows: seq<SummaryRow>, t: Transaction)
    ensures SumBalances(AddToGroups(rows, t)) == SumBalances(rows) + Signed(t)
  {
    if rows != [] && rows[0].customerName != GroupKey(t) {
      AddToGroupsSum(rows[1..], t);
    }
  }

  /** A new row only ever appears for the transaction's own key. */
  lemma {:induction false} AddToGroupsRows(rows: seq<SummaryRow>, t: Transaction)
    ensures forall row :: row in AddToGroups(rows, t) ==> row in rows || row.customerName == GroupKey(t)
  {
    if rows != [] && rows[0].customerName != GroupKey(t) {
      AddToGroupsRows(rows[1..], t);
      assert AddToGroups(rows, t) == [rows[0]] + AddToGroups(rows[1..], t);
    }
  }

  lemma RestDistinct(rows: seq<SummaryRow>)
    requires RowNamesDistinct(rows) && rows != []
    ensures RowNamesDistinct(rows[1..])
    ensures forall row :: row in rows[1..] ==> row.customerName != rows[0].customerName
  {
    var rest := rows[1..];
    forall i, j | 0 <= i < j < |rest| ensures rest[i].customerName != rest[j].customerName {
      assert rest[i] == rows[i + 1] && rest[j] == rows[j + 1];
    }
    forall row | row in rest ensures row.customerName != rows[0].customerName {
      var k :| 0 <= k < |rest| && rest[k] == row;
      assert rows[k + 1] == row;
    }
  }

  /** A row in front of rows with other names keeps the names distinct. */
  lemma PrependDistinct(x: SummaryRow, rows: seq<SummaryRow>)
    requires RowNamesDistinct(rows)
    requires forall row :: row in rows ==> row.customerName != x.customerName
    ensures RowNamesDistinct([x] + rows)
  {
    var r := [x] + rows;
    forall i, j | 0 <= i < j < |r| ensures r[i].customerName != r[j].customerName {
      assert r[j] == rows[j - 1];
      if i > 0 {
        assert r[i] == rows[i - 1];
      }
    }
  }

  lemma {:induction false} AddToGroupsDistinct(rows: seq<SummaryRow>, t: Transaction)
    requires RowNamesDistinct(rows)
    ensures RowNamesDistinct(AddToGroups(rows, t))
  {
    if rows != [] {
      RestDistinct(rows);
      var rest := rows[1..];
      if rows[0].customerName == GroupKey(t) {
        PrependDistinct(rows[0].(balance := rows[0].balance + Signed(t), lastTransactionDate := Max(rows[0].lastTransactionDate, t.date)), rest);
      } else {
        AddToGroupsDistinct(rest, t);
        AddToGroupsRows(rest, t);
        PrependDistinct(rows[0], AddToGroups(rest, t));
      }
    }
  }

  /** Adding one transaction changes only the row of its key: it is created
      with the transaction's amount and date, or updated by them. */
  lemma {:induction false} AddToGroupsRowFor(rows: seq<SummaryRow>, t: Transaction, key: string)
    ensures key != GroupKey(t) ==> RowFor(AddToGroups(rows, t), key) == RowFor(rows, key)
    ensures key == GroupKey(t) ==> RowFor(AddToGroups(rows, t), key) == Some(
      match RowFor(rows, key)
      case None => SummaryRow(key, Signed(t), t.date)
      case Some(row) => row.(balance := row.balance + Signed(t), lastTransactionDate := Max(row.lastTransactionDate, t.date)))
  {
    if rows != [] && rows[0].customerName != GroupKey(t) {
      AddToGroupsRowFor(rows[1..], t, key);
    }
  }

  lemma {:induction false} RowForIn(rows: seq<SummaryRow>, key: string)
    ensures RowFor(rows, key).Some? ==> RowFor(rows, key).value in rows && RowFor(rows, key).value.customerName == key
    ensures RowFor(rows, key).None? ==> forall row :: row in rows ==> row.customerName != key
  {
    if rows != [] {
      RowForIn(rows[1..], key);
    }
  }

  /** The groups hold one row per key, and that row carries the group's signed
      total and latest date; together the rows add up to the fold of all the
      transactions. */
  lemma {:induction false} GroupsCorrect(ts: seq<Transaction>)
    ensures RowNamesDistinct(Groups(ts))
    ensures SumBalances(Groups(ts)) == Fold(ts)
    ensures forall key :: RowFor(Groups(ts), key).Some? <==> LastDate(ts, key).Some?
    ensures forall key :: RowFor(Groups(ts), key).Some? ==>
      RowFor(Groups(ts), key).value == SummaryRow(key, GroupTotal(ts, key), LastDate(ts, key).value)
  {
    if ts != [] {
      var init, last := ts[..|ts| - 1], ts[|ts| - 1];
      GroupsCorrect(init);
      var g := Groups(init);
      AddToGroupsSum(g, last);
      AddToGroupsDistinct(g, last);
      assert Groups(ts) == AddToGroups(g, last);
      assert Fold(ts) == Step(Fold(init), last);
      forall key
        ensures RowFor(Groups(ts), key).Some? <==> LastDate(ts, key).Some?
        ensures RowFor(Groups(ts), key).Some? ==>
          RowFor(Groups(ts), key).value == SummaryRow(key, GroupTotal(ts, key), LastDate(ts, key).value)
      {
        AddToGroupsRowFor(g, last, key);
        RowForIn(g, key);
        if LastDate(init, key).None? {
          GroupTotalOfAbsentKey(init, key);
        }
        assert GroupTotal(ts, key) == GroupTotal(init, key) + (if GroupKey(last) == key then Signed(last) else 0);
        assert LastDate(ts, key) == if GroupKey(last) != key then LastDate(init, key)
          else match LastDate(init, key)
            case None => Some(last.date)
            case Some(d) => Some(Max(d, last.date));
      }
    }
  }

  /** `.sort({ lastTransactionDate: -1 })`. */
  predicate LaterRowFirst(a: SummaryRow, b: SummaryRow) {
    a.lastTransactionDate >= b.lastTransactionDate
  }

  /** `getTransactionSummary`: one row per group key of the caller's
      transactions in the date range, latest activity first. */
  function TransactionSummary(ts: seq<Transaction>, owner: Id, startDate: Option<Time>, endDate: Option<Time>): (r: seq<SummaryRow>)
    ensures SortedBy(r, LaterRowFirst)
    ensures multiset(r) == multiset(Groups(Filter(ts, (t: Transaction) => t.user == owner && InRange(t, startDate, endDate))))
  {
    assert TotalPreorder(LaterRowFirst);
    Sort(Groups(Filter(ts, (t: Transaction) => t.user == owner && InRange(t, startDate, endDate))), LaterRowFirst)
  }

  lemma {:induction false} SumBalancesConcat(a: seq<SummaryRow>, b: seq<SummaryRow>)
    ensures SumBalances(a + b) == SumBalances(a) + SumBalances(b)
  {
    if a == [] {
      assert a + b == b;
    } else {
      assert (a + b)[1..] == a[1..] + b;
      SumBalancesConcat(a[1..], b);
    }
  }

  lemma SumBalancesRemove(b: seq<SummaryRow>, j: nat)
    requires j < |b|
    ensures SumBalances(b) == b[j].balance + SumBalances(b[..j] + b[j + 1..])
  {
    var front, mid, back := b[..j], [b[j]], b[j + 1..];
    assert b == front + (mid + back);
    SumBalancesConcat(front, mid + back);
    SumBalancesConcat(front, back);
    assert (mid + back)[1..] == back;
  }

  lemma MultisetRemove(a: seq<SummaryRow>, b: seq<SummaryRow>, j: nat)
    requires a != [] && j < |b| && b[j] == a[0] && multiset(a) == multiset(b)
    ensures multiset(a[1..]) == multiset(b[..j] + b[j + 1..])
  {
    var front, back := b[..j], b[j + 1..];
    assert a == [a[0]] + a[1..];
    assert b == front + ([b[j]] + back);
    var x, y := multiset(a[1..]), multiset(front + back);
    assert multiset(a) == multiset{a[0]} + x;
    assert multiset(b) == multiset{a[0]} + y;
    forall e ensures x[e] == y[e] {
      assert multiset(a)[e] == multiset(b)[e];
    }
    assert x == y;
  }

  /** Reordering the rows does not change their total. */
  lemma {:induction false} SumBalancesPermutation(a: seq<SummaryRow>, b: seq<SummaryRow>)
    requires multiset(a) == multiset(b)
    ensures SumBalances(a) == SumBalances(b)
    decreases |a|
  {
    if a != [] {
      assert a[0] in multiset(b);
      var j :| 0 <= j < |b| && b[j] == a[0];
      MultisetRemove(a, b, j);
      SumBalancesPermutation(a[1..], b[..j] + b[j + 1..]);
      SumBalancesRemove(b, j);
    } else {
      assert |b| == |multiset(b)| == 0;
    }
  }

  /** What the summary promises: every row names a group of the matching
      transactions and carries that group's signed total and latest date,
      no two rows share a name, every matching transaction's group has a
      row, and the rows add up to the net of all matching transactions. */
  lemma SummaryCorrect(ts: seq<Transaction>, owner: Id, startDate: Option<Time>, endDate: Option<Time>)
    ensures var matching := Filter(ts, (t: Transaction) => t.user == owner && InRange(t, startDate, endDate));
            var r := TransactionSummary(ts, owner, startDate, endDate);
            && RowNamesDistinct(r)
            && SumBalances(r) == Fold(matching)
            && (forall row :: row in r ==>
                  LastDate(matching, row.customerName).Some?
                  && row == SummaryRow(row.customerName, GroupTotal(matching, row.customerName), LastDate(matching, row.customerName).value))
            && (forall t :: t in matching ==> exists row :: row in r && row.customerName == GroupKey(t))
  {
    var matching := Filter(ts, (t: Transaction) => t.user == owner && InRange(t, startDate, endDate));
    var r := TransactionSummary(ts, owner, startDate, endDate);
    var g := Groups(matching);
    GroupsCorrect(matching);
    PermutationKeepsNamesDistinct(r, g);
    SumBalancesPermutation(r, g);
    forall row | row in r
      ensures LastDate(matching, row.customerName).Some?
      ensures row == SummaryRow(row.customerName, GroupTotal(matching, row.customerName), LastDate(matching, row.customerName).value)
    {
      assert row in multiset(g);
      RowForDistinct(g, row);
    }
    forall t | t in matching ensures exists row :: row in r && row.customerName == GroupKey(t) {
      RowForIn(g, GroupKey(t));
      var row := RowFor(g, GroupKey(t)).value;
      assert row in multiset(r);
    }
  }

  /** In rows with distinct names no row occurs twice. */
  lemma {:induction false} RowsOccurOnce(rows: seq<SummaryRow>)
    requires RowNamesDistinct(rows)
    ensures forall x :: multiset(rows)[x] <= 1
  {
    if rows != [] {
      var rest := rows[1..];
      assert rows == [rows[0]] + rest;
      assert RowNamesDistinct(rest) by {
        forall i, j | 0 <= i < j < |rest| ensures rest[i].customerName != rest[j].customerName {
          assert rest[i] == rows[i + 1] && rest[j] == rows[j + 1];
        }
      }
      RowsOccurOnce(rest);
      assert rows[0] !in rest by {
        forall k | 0 <= k < |rest| ensures rest[k] != rows[0] {
          assert rest[k] == rows[k + 1];
        }
      }
    }
  }

  lemma CountedTwice(a: seq<SummaryRow>, i: nat, j: nat)
    requires i < j < |a| && a[i] == a[j]
    ensures multiset(a)[a[j]] >= 2
  {
    assert a == a[..j] + [a[j]] + a[j + 1..];
    assert a[i] in multiset(a[..j]);
  }

  /** A reordering of rows with distinct names still has distinct names. */
  lemma PermutationKeepsNamesDistinct(a: seq<SummaryRow>, b: seq<SummaryRow>)
    requires multiset(a) == multiset(b) && RowNamesDistinct(b)
    ensures RowNamesDistinct(a)
  {
    RowsOccurOnce(b);
    forall i, j | 0 <= i < j < |a| ensures a[i].customerName != a[j].customerName {
      if a[i] == a[j] {
        CountedTwice(a, i, j);
      } else {
        assert a[i] in multiset(b) && a[j] in multiset(b);
        var p :| 0 <= p < |b| && b[p] == a[i];
        var q :| 0 <= q < |b| && b[q] == a[j];
        assert p != q;
      }
    }
  }

  /** In rows with distinct names, a row is the row for its own name. */
  lemma {:induction false} RowForDistinct(rows: seq<SummaryRow>, row: SummaryRow)
    requires RowNamesDistinct(rows) && row in rows
    ensures RowFor(rows, row.customerName) == Some(row)
  {
    if rows[0] != row {
      var rest := rows[1..];
      assert RowNamesDistinct(rest) by {
        forall i, j | 0 <= i < j < |rest| ensures rest[i].customerName != rest[j].customerName {
          assert rest[i] == rows[i + 1] && rest[j] == rows[j + 1];
        }
      }
      var k :| 0 <= k < |rest| && rest[k] == row;
      assert rows[k + 1] == row;
      RowForDistinct(rest, row);
    }
  }
}

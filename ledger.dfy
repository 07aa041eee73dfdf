/** The balance recomputation of the transaction controller
    (`recalculateCustomerBalance`) and the consistency it maintains: every
    customer's cached `balance` equals the fold of the transactions linked to
    it. Everything here is on values; the store applies it. */
module Ledger {

  import opened Models

  /** The contribution of one transaction: credits add, anything else subtracts. */
  function Signed(t: Transaction): int {
    if t.kind == Credit then t.amount else -t.amount
  }

  /** The reducer `(acc, tx) => tx.type === 'credit' ? acc + tx.amount : acc - tx.amount`. */
  function Step(acc: int, t: Transaction): int {
    if t.kind == Credit then acc + t.amount else acc - t.amount
  }

  /** `transactions.reduce(Step, 0)`: a left fold starting from 0. */
  function Fold(ts: seq<Transaction>): int {
    if ts == [] then 0 else Step(Fold(ts[..|ts| - 1]), ts[|ts| - 1])
  }

  /** The sum of the amounts of the transactions of one kind. */
  function AmountOf(ts: seq<Transaction>, kind: TxType): int {
    if ts == [] then 0
    else (if ts[0].kind == kind then ts[0].amount else 0) + AmountOf(ts[1..], kind)
  }

  lemma {:induction false} AmountOfAppend(ts: seq<Transaction>, t: Transaction, kind: TxType)
    ensures AmountOf(ts + [t], kind) == AmountOf(ts, kind) + (if t.kind == kind then t.amount else 0)
  {
    if ts != [] {
      assert (ts + [t])[1..] == ts[1..] + [t];
      AmountOfAppend(ts[1..], t, kind);
    }
  }

  /** The fold is the sum of the credit amounts minus the sum of the debit amounts. */
  lemma {:induction false} FoldIsCreditsMinusDebits(ts: seq<Transaction>)
    ensures Fold(ts) == AmountOf(ts, Credit) - AmountOf(ts, Debit)
  {
    if ts != [] {
      var init, last := ts[..|ts| - 1], ts[|ts| - 1];
      assert ts == init + [last];
      FoldIsCreditsMinusDebits(init);
      AmountOfAppend(init, last, Credit);
      AmountOfAppend(init, last, Debit);
    }
  }

  lemma {:induction false} FoldConcat(a: seq<Transaction>, b: seq<Transaction>)
    ensures Fold(a + b) == Fold(a) + Fold(b)
  {
    if b != [] {
      var init, last := b[..|b| - 1], b[|b| - 1];
      assert a + b == (a + init) + [last];
      assert (a + b)[..|a + b| - 1] == a + init;
      FoldConcat(a, init);
    } else {
      assert a + b == a;
    }
  }

  /** The query `{ customer: customerId, user: userId }` for one transaction. */
  predicate Links(t: Transaction, customerId: Id, userId: Id) {
    t.customer == Some(customerId) && t.user == userId
  }

  /** The transactions `Transaction.find({ customer: customerId, user: userId })` returns, in store order. */
  function LinkedTo(ts: seq<Transaction>, customerId: Id, userId: Id): (r: seq<Transaction>)
    ensures forall t :: t in r <==> t in ts && Links(t, customerId, userId)
    ensures |r| <= |ts|
  {
    if ts == [] then []
    else
      var init, last := ts[..|ts| - 1], ts[|ts| - 1];
      assert ts == init + [last];
      LinkedTo(init, customerId, userId) + (if Links(last, customerId, userId) then [last] else [])
  }

  /** The query keeps each linked transaction as often as it is stored, and no other. */
  lemma {:induction false} LinkedToCounts(ts: seq<Transaction>, customerId: Id, userId: Id)
    ensures forall t :: multiset(LinkedTo(ts, customerId, userId))[t] == if Links(t, customerId, userId) then multiset(ts)[t] else 0
  {
    if ts != [] {
      var init, last := ts[..|ts| - 1], ts[|ts| - 1];
      assert ts == init + [last];
      LinkedToCounts(init, customerId, userId);
    }
  }

  lemma {:induction false} LinkedToConcat(a: seq<Transaction>, b: seq<Transaction>, customerId: Id, userId: Id)
    ensures LinkedTo(a + b, customerId, userId) == LinkedTo(a, customerId, userId) + LinkedTo(b, customerId, userId)
  {
    if b != [] {
      var init, last := b[..|b| - 1], b[|b| - 1];
      assert a + b == (a + init) + [last];
      assert (a + b)[..|a + b| - 1] == a + init;
      LinkedToConcat(a, init, customerId, userId);
    } else {
      assert a + b == a;
    }
  }

  /** The value `recalculateCustomerBalance(customerId, userId)` writes. */
  function Balance(ts: seq<Transaction>, customerId: Id, userId: Id): int {
    Fold(LinkedTo(ts, customerId, userId))
  }

  /** The balance splits over a concatenation of transaction lists. */
  lemma BalanceConcat(a: seq<Transaction>, b: seq<Transaction>, customerId: Id, userId: Id)
    ensures Balance(a + b, customerId, userId) == Balance(a, customerId, userId) + Balance(b, customerId, userId)
  {
    LinkedToConcat(a, b, customerId, userId);
    FoldConcat(LinkedTo(a, customerId, userId), LinkedTo(b, customerId, userId));
  }

  /** The balance is the credits minus the debits among the linked transactions, and 0 when there is none. */
  lemma BalanceIsCreditsMinusDebits(ts: seq<Transaction>, customerId: Id, userId: Id)
    ensures Balance(ts, customerId, userId)
         == AmountOf(LinkedTo(ts, customerId, userId), Credit) - AmountOf(LinkedTo(ts, customerId, userId), Debit)
    ensures (forall t :: t in ts ==> !Links(t, customerId, userId)) ==> Balance(ts, customerId, userId) == 0
  {
    var l := LinkedTo(ts, customerId, userId);
    FoldIsCreditsMinusDebits(l);
    if l != [] {
      assert l[0] in l;
    }
  }

  function Contribution(t: Transaction, customerId: Id, userId: Id): int {
    if Links(t, customerId, userId) then Signed(t) else 0
  }

  lemma BalanceSingle(t: Transaction, customerId: Id, userId: Id)
    ensures Balance([t], customerId, userId) == Contribution(t, customerId, userId)
  {
    assert [t][..0] == [];
    assert LinkedTo([t], customerId, userId) == (if Links(t, customerId, userId) then [t] else []);
    if Links(t, customerId, userId) {
      assert [t][..0] == [];
      assert Fold([t]) == Step(Fold([]), t);
    }
  }

  /** Adding a transaction moves the balance of the customer it links by its signed amount, and no other. */
  lemma BalanceAppend(ts: seq<Transaction>, t: Transaction, customerId: Id, userId: Id)
    ensures Balance(ts + [t], customerId, userId) == Balance(ts, customerId, userId) + Contribution(t, customerId, userId)
  {
    BalanceConcat(ts, [t], customerId, userId);
    BalanceSingle(t, customerId, userId);
  }

  /** Removing the transaction at `k` takes its signed amount back out, for the customer it links only. */
  lemma BalanceRemove(ts: seq<Transaction>, k: nat, customerId: Id, userId: Id)
    requires k < |ts|
    ensures Balance(ts[..k] + ts[k + 1..], customerId, userId)
         == Balance(ts, customerId, userId) - Contribution(ts[k], customerId, userId)
  {
    assert ts == ts[..k] + ([ts[k]] + ts[k + 1..]);
    BalanceConcat(ts[..k], [ts[k]] + ts[k + 1..], customerId, userId);
    BalanceConcat([ts[k]], ts[k + 1..], customerId, userId);
    BalanceConcat(ts[..k], ts[k + 1..], customerId, userId);
    BalanceSingle(ts[k], customerId, userId);
  }

  /** Replacing the transaction at `k` swaps its contribution for the new one's. */
  lemma BalanceReplace(ts: seq<Transaction>, k: nat, t: Transaction, customerId: Id, userId: Id)
    requires k < |ts|
    ensures Balance(ts[k := t], customerId, userId)
         == Balance(ts, customerId, userId) - Contribution(ts[k], customerId, userId) + Contribution(t, customerId, userId)
  {
    assert ts == ts[..k] + ([ts[k]] + ts[k + 1..]);
    assert ts[k := t] == ts[..k] + ([t] + ts[k + 1..]);
    BalanceConcat(ts[..k], [ts[k]] + ts[k + 1..], customerId, userId);
    BalanceConcat([ts[k]], ts[k + 1..], customerId, userId);
    BalanceConcat(ts[..k], [t] + ts[k + 1..], customerId, userId);
    BalanceConcat([t], ts[k + 1..], customerId, userId);
    BalanceSingle(ts[k], customerId, userId);
    BalanceSingle(t, customerId, userId);
  }

  /** The customer list after `Customer.findByIdAndUpdate(customerId, { balance })`. */
  function WithBalance(cs: seq<Customer>, customerId: Id, balance: int): (r: seq<Customer>)
    ensures |r| == |cs|
    ensures forall i :: 0 <= i < |cs| ==>
      r[i] == (if cs[i].id == customerId then cs[i].(balance := balance) else cs[i])
  {
    seq(|cs|, i requires 0 <= i < |cs| => if cs[i].id == customerId then cs[i].(balance := balance) else cs[i])
  }

  /** The customer list after `recalculateCustomerBalance(customerId, userId)` over `ts`:
      unchanged for a null id, otherwise the customers with that id get the fold. */
  function Recomputed(cs: seq<Customer>, ts: seq<Transaction>, customerId: Option<Id>, userId: Id): (r: seq<Customer>)
    ensures |r| == |cs|
    ensures forall i :: 0 <= i < |cs| ==>
      r[i] == (if customerId == Some(cs[i].id) then cs[i].(balance := Balance(ts, cs[i].id, userId)) else cs[i])
  {
    match customerId
    case None => cs
    case Some(id) => WithBalance(cs, id, Balance(ts, id, userId))
  }

  /** The cache invariant: every customer's balance is the fold of the transactions linked to it by its owner. */
  predicate BalancesOk(cs: seq<Customer>, ts: seq<Transaction>) {
    forall i :: 0 <= i < |cs| ==> cs[i].balance == Balance(ts, cs[i].id, cs[i].user)
  }

  /** A transaction's link points only at a customer of the transaction's own user. */
  predicate LinksOwned(cs: seq<Customer>, ts: seq<Transaction>) {
    forall i, j :: 0 <= i < |ts| && 0 <= j < |cs| && ts[i].customer == Some(cs[j].id) ==> cs[j].user == ts[i].user
  }

  predicate Consistent(cs: seq<Customer>, ts: seq<Transaction>) {
    BalancesOk(cs, ts) && LinksOwned(cs, ts)
  }

  /** Every customer carrying `customerId` belongs to `userId`. */
  predicate OwnedBy(cs: seq<Customer>, customerId: Id, userId: Id) {
    forall j :: 0 <= j < |cs| && cs[j].id == customerId ==> cs[j].user == userId
  }

  /** Recomputing one customer restores the invariant after a change of the
      transaction set that leaves every other customer's fold alone. */
  lemma RecomputeRestores(cs: seq<Customer>, ts: seq<Transaction>, ts': seq<Transaction>, customerId: Option<Id>, userId: Id)
    requires BalancesOk(cs, ts)
    requires customerId.Some? ==> OwnedBy(cs, customerId.value, userId)
    requires forall i :: 0 <= i < |cs| && customerId != Some(cs[i].id) ==>
      Balance(ts', cs[i].id, cs[i].user) == Balance(ts, cs[i].id, cs[i].user)
    ensures BalancesOk(Recomputed(cs, ts', customerId, userId), ts')
  {
  }

  /** addTransaction: appending a transaction that is unlinked or linked to a
      customer of its own user, then recomputing that customer, keeps the store consistent. */
  lemma AddKeepsConsistent(cs: seq<Customer>, ts: seq<Transaction>, t: Transaction)
    requires Consistent(cs, ts)
    requires t.customer.Some? ==> OwnedBy(cs, t.customer.value, t.user)
    ensures Consistent(Recomputed(cs, ts + [t], t.customer, t.user), ts + [t])
  {
    var ts' := ts + [t];
    forall i | 0 <= i < |cs| && t.customer != Some(cs[i].id)
      ensures Balance(ts', cs[i].id, cs[i].user) == Balance(ts, cs[i].id, cs[i].user)
    {
      BalanceAppend(ts, t, cs[i].id, cs[i].user);
    }
    RecomputeRestores(cs, ts, ts', t.customer, t.user);
    var r := Recomputed(cs, ts', t.customer, t.user);
    forall i, j | 0 <= i < |ts'| && 0 <= j < |r| && ts'[i].customer == Some(r[j].id)
      ensures r[j].user == ts'[i].user
    {
      if i < |ts| {
        assert ts'[i] == ts[i];
      }
    }
  }

  /** updateTransaction: a replacement that keeps the link and the owner,
      followed by recomputing the original link, keeps the store consistent. */
  lemma UpdateKeepsConsistent(cs: seq<Customer>, ts: seq<Transaction>, k: nat, t: Transaction)
    requires Consistent(cs, ts)
    requires k < |ts| && t.customer == ts[k].customer && t.user == ts[k].user
    ensures Consistent(Recomputed(cs, ts[k := t], ts[k].customer, ts[k].user), ts[k := t])
  {
    var ts' := ts[k := t];
    forall i | 0 <= i < |cs| && ts[k].customer != Some(cs[i].id)
      ensures Balance(ts', cs[i].id, cs[i].user) == Balance(ts, cs[i].id, cs[i].user)
    {
      BalanceReplace(ts, k, t, cs[i].id, cs[i].user);
    }
    RecomputeRestores(cs, ts, ts', ts[k].customer, ts[k].user);
  }

  /** deleteTransaction: removing one transaction and recomputing the customer
      it was linked to keeps the store consistent. */
  lemma DeleteKeepsConsistent(cs: seq<Customer>, ts: seq<Transaction>, k: nat)
    requires Consistent(cs, ts)
    requires k < |ts|
    ensures Consistent(Recomputed(cs, ts[..k] + ts[k + 1..], ts[k].customer, ts[k].user), ts[..k] + ts[k + 1..])
  {
    var ts' := ts[..k] + ts[k + 1..];
    forall i | 0 <= i < |cs| && ts[k].customer != Some(cs[i].id)
      ensures Balance(ts', cs[i].id, cs[i].user) == Balance(ts, cs[i].id, cs[i].user)
    {
      BalanceRemove(ts, k, cs[i].id, cs[i].user);
    }
    RecomputeRestores(cs, ts, ts', ts[k].customer, ts[k].user);
    var r := Recomputed(cs, ts', ts[k].customer, ts[k].user);
    forall i, j | 0 <= i < |ts'| && 0 <= j < |r| && ts'[i].customer == Some(r[j].id)
      ensures r[j].user == ts'[i].user
    {
      if i < k {
        assert ts'[i] == ts[i];
      } else {
        assert ts'[i] == ts[i + 1];
      }
    }
  }

  /** The worked example: credit 100, debit 30, credit 20 give 90; without the debit, 120. */
  lemma AliceExample(u: Id, c: Id)
    ensures var ts := [Transaction(1, u, Some(c), Some("Alice"), 100, Credit, "", 0),
                       Transaction(2, u, Some(c), Some("Alice"), 30, Debit, "", 1),
                       Transaction(3, u, Some(c), Some("Alice"), 20, Credit, "", 2)];
            Balance(ts, c, u) == 90 && Balance(ts[..1] + ts[2..], c, u) == 120
  {
    var ts := [Transaction(1, u, Some(c), Some("Alice"), 100, Credit, "", 0),
               Transaction(2, u, Some(c), Some("Alice"), 30, Debit, "", 1),
               Transaction(3, u, Some(c), Some("Alice"), 20, Credit, "", 2)];
    assert ts == [ts[0]] + [ts[1]] + [ts[2]];
    BalanceConcat([ts[0]] + [ts[1]], [ts[2]], c, u);
    BalanceConcat([ts[0]], [ts[1]], c, u);
    BalanceSingle(ts[0], c, u);
    BalanceSingle(ts[1], c, u);
    BalanceSingle(ts[2], c, u);
    BalanceRemove(ts, 1, c, u);
  }
}

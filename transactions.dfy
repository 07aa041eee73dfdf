/** The mutating half of the transaction controller: add, update and delete a
    transaction, each followed by `recalculateCustomerBalance` for the
    customer the transaction is linked to. */
module TransactionController {

  import opened Models
  import opened Ledger
  import opened Database

  /** `Customer.findOne({ _id: customerId, user: owner })`: the customer at
      the position the store's lookup finds. */
  function FindOwnedCustomer(cs: seq<Customer>, customerId: Id, owner: Id): (r: Option<Customer>)
    ensures r.Some? ==> r.value in cs && r.value.id == customerId && r.value.user == owner
    ensures r.None? ==> forall c :: c in cs ==> !(c.id == customerId && c.user == owner)
  {
    match OwnedCustomerAt(cs, customerId, owner)
    case Some(k) => Some(cs[k])
    case None => None
  }

  /** With distinct ids, the customer found is the only one carrying that id. */
  lemma FoundCustomerIsOwned(cs: seq<Customer>, customerId: Id, owner: Id)
    requires CustomerIdsDistinct(cs)
    requires FindOwnedCustomer(cs, customerId, owner).Some?
    ensures OwnedBy(cs, customerId, owner)
  {
    var c := FindOwnedCustomer(cs, customerId, owner).value;
    var i :| 0 <= i < |cs| && cs[i] == c;
    forall j | 0 <= j < |cs| && cs[j].id == customerId ensures cs[j].user == owner {
      assert i == j;
    }
  }

  /** The position of `Transaction.findOne({ _id: id, user: owner })`: the
      same first-match search as `OwnedCustomerAt`, over the transactions. */
  function FindOwnedTransaction(ts: seq<Transaction>, id: Id, owner: Id): (r: Option<nat>)
    ensures r.Some? ==> r.value < |ts| && ts[r.value].id == id && ts[r.value].user == owner
    ensures r.None? ==> forall k :: 0 <= k < |ts| ==> !(ts[k].id == id && ts[k].user == owner)
  {
    if ts == [] then None
    else if ts[0].id == id && ts[0].user == owner then Some(0)
    else
      match FindOwnedTransaction(ts[1..], id, owner)
      case Some(k) => Some(k + 1)
      case None =>
        assert forall k :: 1 <= k < |ts| ==> ts[k] == ts[1..][k - 1];
        None
  }

  /** `recalculateCustomerBalance(customerId, userId)`: nothing for a null id;
      otherwise the customer with that id gets the fold of the transactions
      linked to it by `userId`. */
  method RecalculateCustomerBalance(db: Store, customerId: Option<Id>, userId: Id)
    requires db.Valid()
    modifies db`customers
    ensures db.Valid()
    ensures customerId.None? ==> db.customers == old(db.customers)
    ensures |db.customers| == |old(db.customers)|
    ensures forall i :: 0 <= i < |db.customers| ==>
      db.customers[i] == if customerId == Some(old(db.customers)[i].id)
                         then old(db.customers)[i].(balance := Balance(db.txs, old(db.customers)[i].id, userId))
                         else old(db.customers)[i]
    ensures db.customers == Recomputed(old(db.customers), db.txs, customerId, userId)
  {
    if customerId.Some? {
      var linked := LinkedTo(db.txs, customerId.value, userId);
      var balance := Fold(linked);
      db.customers := WithBalance(db.customers, customerId.value, balance);
    }
  }

  /** The body of `POST /transactions`; "" stands for a missing `type` or `note`. */
  datatype NewTransaction = NewTransaction(
    customerId: Option<Id>,
    amount: Option<int>,
    kind: string,
    note: string,
    date: Option<Time>)

  /** `!v` for a numeric body field (the amount, or the date as a timestamp):
      missing or zero; a negative number is not falsy. */
  predicate Falsy(v: Option<int>) {
    v.None? || v == Some(0)
  }

  /** The `customerName` snapshot: the linked customer's current name, "" when unlinked. */
  function SnapshotName(cs: seq<Customer>, customerId: Option<Id>, owner: Id): string {
    match customerId
    case None => ""
    case Some(id) =>
      match FindOwnedCustomer(cs, id, owner)
      case Some(c) => c.name
      case None => ""
  }

  /** Whether `addTransaction` gets past its checks, in their order. */
  predicate AddAccepted(cs: seq<Customer>, owner: Id, req: NewTransaction) {
    && !Falsy(req.amount) && req.kind != ""
    && (req.customerId.Some? ==> FindOwnedCustomer(cs, req.customerId.value, owner).Some?)
    && ParseTxType(req.kind).Some?
  }

  /** The error of a rejected `addTransaction`: the first check that fails. */
  function AddRejection(cs: seq<Customer>, owner: Id, req: NewTransaction): Error {
    if Falsy(req.amount) || req.kind == "" then AmountAndTypeRequired
    else if req.customerId.Some? && FindOwnedCustomer(cs, req.customerId.value, owner).None? then InvalidCustomer
    else ServerError
  }

  /** `addTransaction`: rejects a falsy amount or a missing type, then a
      `customerId` the caller does not own, then a `type` outside the enum;
      otherwise appends the new record and recomputes the linked customer. */
  method AddTransaction(db: Store, owner: Id, req: NewTransaction, now: Time) returns (r: Result<Transaction>)
    requires db.Valid()
    modifies db`txs, db`customers, db`nextId
    ensures db.Valid()
    ensures r.Ok? <==> AddAccepted(old(db.customers), owner, req)
    ensures r.Err? ==> r.error == AddRejection(old(db.customers), owner, req)
    ensures r.Err? ==> db.txs == old(db.txs) && db.customers == old(db.customers) && db.nextId == old(db.nextId)
    ensures r.Ok? ==> r.value == Transaction(
      old(db.nextId), owner, req.customerId, Some(SnapshotName(old(db.customers), req.customerId, owner)),
      req.amount.value, ParseTxType(req.kind).value, req.note, if Falsy(req.date) then now else req.date.value)
    ensures r.Ok? ==> db.txs == old(db.txs) + [r.value]
    ensures r.Ok? ==> db.customers == Recomputed(old(db.customers), db.txs, req.customerId, owner)
    ensures r.Ok? ==> forall c :: c in db.customers && req.customerId == Some(c.id) ==> c.balance == Balance(db.txs, c.id, owner)
    ensures Consistent(old(db.customers), old(db.txs)) ==> Consistent(db.customers, db.txs)
  {
    if Falsy(req.amount) || req.kind == "" {
      return Err(AmountAndTypeRequired);
    }
    var name := "";
    if req.customerId.Some? {
      var cust := FindOwnedCustomer(db.customers, req.customerId.value, owner);
      if cust.None? {
        return Err(InvalidCustomer);
      }
      name := cust.value.name;
    }
    var kind := ParseTxType(req.kind);
    if kind.None? {
      return Err(ServerError);
    }
    var tx := Transaction(db.nextId, owner, req.customerId, Some(name), req.amount.value, kind.value, req.note, if Falsy(req.date) then now else req.date.value);
    SaveNew(db, tx);
    r := Ok(tx);
  }

  /** `Transaction.create` of a record carrying a fresh id and linked (if at
      all) to a customer of its owner, then `recalculateCustomerBalance` for
      that link. */
  method SaveNew(db: Store, tx: Transaction)
    requires db.Valid() && tx.id == db.nextId
    requires tx.customer.Some? ==> FindOwnedCustomer(db.customers, tx.customer.value, tx.user).Some?
    modifies db`txs, db`customers, db`nextId
    ensures db.Valid()
    ensures db.nextId == old(db.nextId) + 1
    ensures db.txs == old(db.txs) + [tx]
    ensures db.customers == Recomputed(old(db.customers), db.txs, tx.customer, tx.user)
    ensures Consistent(old(db.customers), old(db.txs)) ==> Consistent(db.customers, db.txs)
  {
    ghost var cs0, ts0 := db.customers, db.txs;
    if tx.customer.Some? {
      FoundCustomerIsOwned(db.customers, tx.customer.value, tx.user);
    }
    var id := db.NewId();
    AppendKeepsIds(db.customers, db.txs, db.payments, tx, id);
    db.txs := db.txs + [tx];
    RecalculateCustomerBalance(db, tx.customer, tx.user);
    if Consistent(cs0, ts0) {
      AddKeepsConsistent(cs0, ts0, tx);
    }
  }

  /** The fields of `PUT /transactions/:id`; "" stands for a missing `type` or `note`. */
  datatype TransactionPatch = TransactionPatch(
    amount: Option<int>,
    kind: string,
    note: string,
    date: Option<Time>)

  /** The record after `tx.field = body.field || tx.field` for amount, type,
      note and date; `None` when the new type fails the enum on save. The link,
      the snapshot, the owner and the id are never touched. */
  function Patched(t: Transaction, p: TransactionPatch): (r: Option<Transaction>)
    ensures r.None? <==> p.kind != "" && ParseTxType(p.kind).None?
    ensures r.Some? ==> && r.value.id == t.id && r.value.user == t.user
                        && r.value.customer == t.customer && r.value.customerName == t.customerName
    ensures r.Some? ==> r.value.amount == if Falsy(p.amount) then t.amount else p.amount.value
    ensures r.Some? ==> r.value.kind == if p.kind == "" then t.kind else ParseTxType(p.kind).value
    ensures r.Some? ==> r.value.note == if p.note == "" then t.note else p.note
    ensures r.Some? ==> r.value.date == if Falsy(p.date) then t.date else p.date.value
    ensures Falsy(p.amount) && p.kind == "" && p.note == "" && Falsy(p.date) ==> r == Some(t)
  {
    var kind := if p.kind == "" then Some(t.kind) else ParseTxType(p.kind);
    match kind
    case None => None
    case Some(k) =>
      Some(t.(amount := if Falsy(p.amount) then t.amount else p.amount.value,
              kind := k,
              note := if p.note == "" then t.note else p.note,
              date := if Falsy(p.date) then t.date else p.date.value))
  }

  /** `updateTransaction`: not found unless the caller owns a transaction with
      that id; otherwise the patched record replaces it in place and the
      original customer link is recomputed. */
  method UpdateTransaction(db: Store, owner: Id, id: Id, patch: TransactionPatch) returns (r: Result<Transaction>)
    requires db.Valid()
    modifies db`txs, db`customers
    ensures db.Valid()
    ensures r.Ok? <==> (FindOwnedTransaction(old(db.txs), id, owner).Some?
                       && Patched(old(db.txs)[FindOwnedTransaction(old(db.txs), id, owner).value], patch).Some?)
    ensures r.Err? ==> r.error == if FindOwnedTransaction(old(db.txs), id, owner).None? then TransactionNotFound else ServerError
    ensures r.Err? ==> db.txs == old(db.txs) && db.customers == old(db.customers)
    ensures r.Ok? ==>
      var k := FindOwnedTransaction(old(db.txs), id, owner).value;
      && r.value == Patched(old(db.txs)[k], patch).value
      && db.txs == old(db.txs)[k := r.value]
      && db.customers == Recomputed(old(db.customers), db.txs, old(db.txs)[k].customer, owner)
    ensures Consistent(old(db.customers), old(db.txs)) ==> Consistent(db.customers, db.txs)
  {
    var found := FindOwnedTransaction(db.txs, id, owner);
    if found.None? {
      return Err(TransactionNotFound);
    }
    var k := found.value;
    var tx := db.txs[k];
    var originalCustomerId := tx.customer;
    var updated := Patched(tx, patch);
    if updated.None? {
      return Err(ServerError);
    }
    ghost var cs0, ts0 := db.customers, db.txs;
    db.txs := db.txs[k := updated.value];
    assert forall i :: 0 <= i < |db.txs| ==> db.txs[i].id == ts0[i].id && db.txs[i].customer == ts0[i].customer;
    if originalCustomerId.Some? {
      RecalculateCustomerBalance(db, originalCustomerId, owner);
    }
    if Consistent(cs0, ts0) {
      UpdateKeepsConsistent(cs0, ts0, k, updated.value);
    }
    r := Ok(updated.value);
  }

  lemma AppendKeepsIds(cs: seq<Customer>, ts: seq<Transaction>, ps: seq<Payment>, t: Transaction, next: nat)
    requires TransactionIdsDistinct(ts) && IdsBelow(cs, ts, ps, next) && t.id == next
    requires t.customer.Some? ==> exists c :: c in cs && c.id == t.customer.value
    ensures TransactionIdsDistinct(ts + [t]) && IdsBelow(cs, ts + [t], ps, next + 1)
  {
  }

  lemma RemoveKeepsIds(ts: seq<Transaction>, k: nat, cs: seq<Customer>, ps: seq<Payment>, next: nat)
    requires k < |ts| && TransactionIdsDistinct(ts) && IdsBelow(cs, ts, ps, next)
    ensures TransactionIdsDistinct(ts[..k] + ts[k + 1..]) && IdsBelow(cs, ts[..k] + ts[k + 1..], ps, next)
    ensures forall t :: t in ts[..k] + ts[k + 1..] ==> t.id != ts[k].id
  {
    var r := ts[..k] + ts[k + 1..];
    assert forall i :: 0 <= i < |r| ==> r[i] == ts[if i < k then i else i + 1];
  }

  /** `deleteTransaction`: not found unless the caller owns a transaction with
      that id; otherwise exactly that record is removed and the customer it
      was linked to is recomputed. */
  method DeleteTransaction(db: Store, owner: Id, id: Id) returns (r: Result<Transaction>)
    requires db.Valid()
    modifies db`txs, db`customers
    ensures db.Valid()
    ensures r.Err? <==> FindOwnedTransaction(old(db.txs), id, owner).None?
    ensures r.Err? ==> r.error == TransactionNotFound && db.txs == old(db.txs) && db.customers == old(db.customers)
    ensures r.Ok? ==>
      var k := FindOwnedTransaction(old(db.txs), id, owner).value;
      && r.value == old(db.txs)[k]
      && db.txs == old(db.txs)[..k] + old(db.txs)[k + 1..]
      && db.customers == Recomputed(old(db.customers), db.txs, r.value.customer, owner)
    ensures r.Ok? ==> forall t :: t in db.txs ==> t.id != id
    ensures Consistent(old(db.customers), old(db.txs)) ==> Consistent(db.customers, db.txs)
  {
    var found := FindOwnedTransaction(db.txs, id, owner);
    if found.None? {
      return Err(TransactionNotFound);
    }
    var k := found.value;
    var tx := db.txs[k];
    var customerId := tx.customer;
    ghost var cs0, ts0 := db.customers, db.txs;
    RemoveKeepsIds(db.txs, k, db.customers, db.payments, db.nextId);
    db.txs := db.txs[..k] + db.txs[k + 1..];
    if customerId.Some? {
      RecalculateCustomerBalance(db, customerId, owner);
    }
    if Consistent(cs0, ts0) {
      DeleteKeepsConsistent(cs0, ts0, k);
    }
    r := Ok(tx);
  }
}

/** The MongoDB store the controllers share: the four collections, kept in
    insertion order, and the generator of fresh document ids. */
module Database {

  import opened Models

  predicate UserIdsDistinct(us: seq<User>) {
    forall i, j :: 0 <= i < j < |us| ==> us[i].id != us[j].id
  }

  predicate CustomerIdsDistinct(cs: seq<Customer>) {
    forall i, j :: 0 <= i < j < |cs| ==> cs[i].id != cs[j].id
  }

  predicate TransactionIdsDistinct(ts: seq<Transaction>) {
    forall i, j :: 0 <= i < j < |ts| ==> ts[i].id != ts[j].id
  }

  predicate PaymentIdsDistinct(ps: seq<Payment>) {
    forall i, j :: 0 <= i < j < |ps| ==> ps[i].id != ps[j].id
  }

  /** Every customer, transaction and payment id, and every customer link, is below `next`. */
  predicate IdsBelow(cs: seq<Customer>, ts: seq<Transaction>, ps: seq<Payment>, next: nat) {
    && (forall i :: 0 <= i < |cs| ==> cs[i].id < next)
    && (forall i :: 0 <= i < |ts| ==> ts[i].id < next)
    && (forall i :: 0 <= i < |ts| && ts[i].customer.Some? ==> ts[i].customer.value < next)
    && (forall i :: 0 <= i < |ps| ==> ps[i].id < next)
  }

  /** The position of `Customer.findOne({ _id: id, user: owner })`, which
      `findOneAndUpdate` and `findOneAndDelete` with that filter act on. */
  function OwnedCustomerAt(cs: seq<Customer>, id: Id, owner: Id): (r: Option<nat>)
    ensures r.Some? ==> r.value < |cs| && cs[r.value].id == id && cs[r.value].user == owner
    ensures r.None? ==> forall k :: 0 <= k < |cs| ==> !(cs[k].id == id && cs[k].user == owner)
  {
    if cs == [] then None
    else if cs[0].id == id && cs[0].user == owner then Some(0)
    else
      match OwnedCustomerAt(cs[1..], id, owner)
      case Some(k) => Some(k + 1)
      case None =>
        assert forall k :: 1 <= k < |cs| ==> cs[k] == cs[1..][k - 1];
        None
  }

  class Store {
    var users: seq<User>
    var customers: seq<Customer>
    var txs: seq<Transaction>
    var payments: seq<Payment>
    /** The next document id the store hands out. */
    var nextId: nat

    ghost predicate Valid()
      reads this
    {
      && UserIdsDistinct(users)
      && CustomerIdsDistinct(customers)
      && TransactionIdsDistinct(txs)
      && PaymentIdsDistinct(payments)
      && IdsBelow(customers, txs, payments, nextId)
    }

    /** A store holding the registered users and nothing else. */
    constructor (registered: seq<User>)
      requires UserIdsDistinct(registered)
      ensures Valid()
      ensures users == registered && customers == [] && txs == [] && payments == []
    {
      users := registered;
      customers := [];
      txs := [];
      payments := [];
      nextId := 0;
    }

    /** A document id no record of the store carries. */
    method NewId() returns (id: Id)
      requires Valid()
      modifies this`nextId
      ensures id == old(nextId) && nextId == id + 1
      ensures Valid()
    {
      id := nextId;
      nextId := nextId + 1;
    }
  }
}

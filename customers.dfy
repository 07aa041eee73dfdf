/** The customer controller: list, create, update and delete the caller's
    customers. Names are unique per owner ignoring case, checked through a
    case-insensitive lookup of the escaped, trimmed name. */
module CustomerController {

  import opened Models
  import opened Text
  import opened Sequences
  import opened Ledger
  import opened Database

  /** The filter `{ user: owner, name: { $regex: ^escapeRegex(name)$, $options: "i" } }`,
      with `_id: { $ne: except }` when an id is to be skipped. */
  predicate NamesakeOf(c: Customer, owner: Id, name: string, except: Option<Id>) {
    c.user == owner && LiteralMatch(EscapeRegex(name), c.name) && (except.Some? ==> c.id != except.value)
  }

  /** The first customer the duplicate-name lookup finds. Thanks to the
      escaping it is a customer of the owner whose name matches `name` as a
      literal: equal ignoring case, or that followed by a final newline. */
  function FindNamesake(cs: seq<Customer>, owner: Id, name: string, except: Option<Id>): (r: Option<Customer>)
    ensures r.Some? ==> && r.value in cs && r.value.user == owner && AnchoredMatch(name, r.value.name)
                        && (except.Some? ==> r.value.id != except.value)
    ensures r.None? ==> forall c :: c in cs && c.user == owner && (except.Some? ==> c.id != except.value)
                                    ==> !AnchoredMatch(name, c.name)
  {
    if cs == [] then None
    else
      EscapedLookupMatchesLiteral(name, cs[0].name);
      if NamesakeOf(cs[0], owner, name, except) then Some(cs[0])
      else FindNamesake(cs[1..], owner, name, except)
  }

  /** A lookup that finds nothing rules out every name equal ignoring case. */
  lemma NoNamesakeNoEqual(cs: seq<Customer>, owner: Id, name: string, except: Option<Id>)
    requires FindNamesake(cs, owner, name, except).None?
    ensures forall c :: c in cs && c.user == owner && (except.Some? ==> c.id != except.value)
                        ==> !EqualsIgnoreCase(name, c.name)
  {
  }

  /** A stored name with a trailing newline, which the migration's upsert can
      leave behind, blocks the name without it: "Bob" is refused as a
      duplicate of "Bob\n". */
  lemma TrailingNewlineIsNamesake(owner: Id)
    ensures FindNamesake([Customer(1, owner, "Bob\n", None, 0, 0)], owner, "Bob", None).Some?
  {
    AnchoredMatchWithoutNewline("Bob", "Bob\n");
  }

  /** What the duplicate checks protect: no owner has two customers whose
      names differ only in case. */
  predicate NamesUnique(cs: seq<Customer>) {
    forall i, j :: 0 <= i < j < |cs| && cs[i].user == cs[j].user ==> !EqualsIgnoreCase(cs[i].name, cs[j].name)
  }

  /** `.sort({ createdAt: -1 })`: newer customers first. */
  predicate NewerFirst(a: Customer, b: Customer) {
    a.createdAt >= b.createdAt
  }

  /** `getCustomers`: the caller's customers, each as often as stored, newest first. */
  function GetCustomers(cs: seq<Customer>, owner: Id): (r: seq<Customer>)
    ensures SortedBy(r, NewerFirst)
    ensures forall c :: multiset(r)[c] == if c.user == owner then multiset(cs)[c] else 0
    ensures forall c :: c in r <==> c in cs && c.user == owner
  {
    assert TotalPreorder(NewerFirst);
    var r := Sort(Filter(cs, (c: Customer) => c.user == owner), NewerFirst);
    assert forall c :: c in r <==> c in multiset(r);
    r
  }

  /** A customer whose id no transaction links to has the empty balance 0,
      so adding it keeps the cache consistent. */
  lemma FreshCustomerKeepsConsistent(cs: seq<Customer>, ts: seq<Transaction>, c: Customer)
    requires Consistent(cs, ts)
    requires c.balance == 0
    requires forall t :: t in ts ==> t.customer != Some(c.id)
    ensures Consistent(cs + [c], ts)
  {
    BalanceIsCreditsMinusDebits(ts, c.id, c.user);
    var cs' := cs + [c];
    forall i | 0 <= i < |cs'| ensures cs'[i].balance == Balance(ts, cs'[i].id, cs'[i].user) {
      if i < |cs| {
        assert cs'[i] == cs[i];
      }
    }
    forall i, j | 0 <= i < |ts| && 0 <= j < |cs'| && ts[i].customer == Some(cs'[j].id)
      ensures cs'[j].user == ts[i].user
    {
      assert ts[i] in ts;
      if j < |cs| {
        assert cs'[j] == cs[j];
      }
    }
  }

  lemma AppendCustomerKeepsIds(cs: seq<Customer>, ts: seq<Transaction>, ps: seq<Payment>, c: Customer, next: nat)
    requires CustomerIdsDistinct(cs) && IdsBelow(cs, ts, ps, next) && c.id == next
    ensures CustomerIdsDistinct(cs + [c]) && IdsBelow(cs + [c], ts, ps, next + 1)
    ensures forall t :: t in ts ==> t.customer != Some(c.id)
  {
  }

  /** Appending a customer with no namesake of its owner keeps the names unique. */
  lemma AppendKeepsNamesUnique(cs: seq<Customer>, c: Customer)
    requires NamesUnique(cs)
    requires forall d :: d in cs && d.user == c.user ==> !EqualsIgnoreCase(c.name, d.name)
    ensures NamesUnique(cs + [c])
  {
    var cs' := cs + [c];
    forall i, j | 0 <= i < j < |cs'| && cs'[i].user == cs'[j].user
      ensures !EqualsIgnoreCase(cs'[i].name, cs'[j].name)
    {
      assert cs'[i] == cs[i];
      if j == |cs| {
        assert cs[i] in cs;
      } else {
        assert cs'[j] == cs[j];
      }
    }
  }

  /** `addCustomer`: a missing or blank name is refused, then a name the
      caller already uses (ignoring case); otherwise a customer with the
      trimmed name, the phone (or "") and balance 0 is appended. "" stands for
      a missing `name` or `phone`. */
  method AddCustomer(db: Store, owner: Id, name: string, phone: string, now: Time) returns (r: Result<Customer>)
    requires db.Valid()
    modifies db`customers, db`nextId
    ensures db.Valid()
    ensures r.Err? <==> Trim(name) == [] || FindNamesake(old(db.customers), owner, Trim(name), None).Some?
    ensures r.Err? ==> r.error == if Trim(name) == [] then CustomerNameRequired else DuplicateCustomerName(Trim(name))
    ensures r.Err? ==> db.customers == old(db.customers) && db.nextId == old(db.nextId)
    ensures r.Ok? ==> r.value == Customer(old(db.nextId), owner, Trim(name), Some(phone), 0, now)
    ensures r.Ok? ==> db.customers == old(db.customers) + [r.value]
    ensures NamesUnique(old(db.customers)) ==> NamesUnique(db.customers)
    ensures Consistent(old(db.customers), db.txs) ==> Consistent(db.customers, db.txs)
  {
    var trimmed := Trim(name);
    if trimmed == [] {
      return Err(CustomerNameRequired);
    }
    if FindNamesake(db.customers, owner, trimmed, None).Some? {
      return Err(DuplicateCustomerName(trimmed));
    }
    ghost var cs0 := db.customers;
    var id := db.NewId();
    var c := Customer(id, owner, trimmed, Some(phone), 0, now);
    AppendCustomerKeepsIds(db.customers, db.txs, db.payments, c, id);
    db.customers := db.customers + [c];
    if NamesUnique(cs0) {
      NoNamesakeNoEqual(cs0, owner, trimmed, None);
      AppendKeepsNamesUnique(cs0, c);
    }
    if Consistent(cs0, db.txs) {
      FreshCustomerKeepsConsistent(cs0, db.txs, c);
    }
    r := Ok(c);
  }

  /** The fields of `PUT /customers/:id` the handler passes on as they are;
      `None` for a field the body leaves out. */
  datatype CustomerPatch = CustomerPatch(
    name: Option<string>,
    phone: Option<string>,
    balance: Option<int>,
    user: Option<Id>)

  /** The document after `findOneAndUpdate(..., payload)`: every field the
      body carries overwrites the stored one, the name trimmed. The id and the
      creation time are never touched and an empty body changes nothing. */
  function ApplyPatch(c: Customer, p: CustomerPatch): (r: Customer)
    ensures r.id == c.id && r.createdAt == c.createdAt
    ensures p == CustomerPatch(None, None, None, None) ==> r == c
    ensures p.name.Some? ==> r.name == Trim(p.name.value)
    ensures p.name.None? ==> r.name == c.name
    ensures p.phone.Some? ==> r.phone == p.phone
    ensures p.phone.None? ==> r.phone == c.phone
    ensures p.balance.Some? ==> r.balance == p.balance.value
    ensures p.balance.None? ==> r.balance == c.balance
    ensures p.user.Some? ==> r.user == p.user.value
    ensures p.user.None? ==> r.user == c.user
  {
    c.(name := if p.name.Some? then Trim(p.name.value) else c.name,
       phone := if p.phone.Some? then p.phone else c.phone,
       balance := p.balance.GetOr(c.balance),
       user := p.user.GetOr(c.user))
  }

  /** Sending the same body twice is the same as sending it once. */
  lemma ApplyPatchIdempotent(c: Customer, p: CustomerPatch)
    ensures ApplyPatch(ApplyPatch(c, p), p) == ApplyPatch(c, p)
  {
    var r := ApplyPatch(c, p);
    var r2 := ApplyPatch(r, p);
    if p.name.Some? {
      TrimIdempotent(p.name.value);
      assert r2.name == r.name;
    }
    assert r2.phone == r.phone && r2.balance == r.balance && r2.user == r.user;
  }

  /** The error `updateCustomer` answers with, if any, in the order of its checks. */
  function UpdateRejection(cs: seq<Customer>, owner: Id, id: Id, p: CustomerPatch): Option<Error> {
    if p.name.Some? && Trim(p.name.value) == [] then Some(CustomerNameRequired)
    else if p.name.Some? && FindNamesake(cs, owner, Trim(p.name.value), Some(id)).Some? then
      Some(DuplicateCustomerName(Trim(p.name.value)))
    else if OwnedCustomerAt(cs, id, owner).None? then Some(CustomerNotFound)
    else None
  }

  /** Replacing a customer by one of the same id and owner whose name has no
      other namesake of that owner keeps the names unique. */
  lemma ReplaceKeepsNamesUnique(cs: seq<Customer>, k: nat, c: Customer)
    requires NamesUnique(cs) && CustomerIdsDistinct(cs)
    requires k < |cs| && c.id == cs[k].id && c.user == cs[k].user
    requires c.name == cs[k].name || forall d :: d in cs && d.user == c.user && d.id != c.id ==> !EqualsIgnoreCase(c.name, d.name)
    ensures NamesUnique(cs[k := c])
  {
    var cs' := cs[k := c];
    forall i, j | 0 <= i < j < |cs'| && cs'[i].user == cs'[j].user
      ensures !EqualsIgnoreCase(cs'[i].name, cs'[j].name)
    {
      if i == k {
        assert cs[j] in cs;
      } else if j == k {
        assert cs[i] in cs;
      }
    }
  }

  /** Replacing a customer by one with the same id, owner and balance keeps the cache consistent. */
  lemma ReplaceKeepsConsistent(cs: seq<Customer>, ts: seq<Transaction>, k: nat, c: Customer)
    requires Consistent(cs, ts)
    requires k < |cs| && c.id == cs[k].id && c.user == cs[k].user && c.balance == cs[k].balance
    ensures Consistent(cs[k := c], ts)
  {
  }

  /** `updateCustomer`: a string name that trims to nothing is refused, then
      a name another customer of the caller has (ignoring case), then an id
      the caller does not own; otherwise the whole payload, trimmed name
      included, is written over that customer. The owner and the balance are
      overwritten too when the body carries them. */
  method UpdateCustomer(db: Store, owner: Id, id: Id, patch: CustomerPatch) returns (r: Result<Customer>)
    requires db.Valid()
    modifies db`customers
    ensures db.Valid()
    ensures db.txs == old(db.txs)
    ensures r.Err? <==> UpdateRejection(old(db.customers), owner, id, patch).Some?
    ensures r.Err? ==> r.error == UpdateRejection(old(db.customers), owner, id, patch).value
    ensures r.Err? ==> db.customers == old(db.customers)
    ensures r.Ok? ==>
      var k := OwnedCustomerAt(old(db.customers), id, owner).value;
      && r.value == ApplyPatch(old(db.customers)[k], patch)
      && db.customers == old(db.customers)[k := r.value]
    ensures NamesUnique(old(db.customers)) && (patch.user.None? || patch.user == Some(owner)) ==> NamesUnique(db.customers)
    ensures Consistent(old(db.customers), db.txs) && (patch.user.None? || patch.user == Some(owner)) && patch.balance.None?
            ==> Consistent(db.customers, db.txs)
  {
    if patch.name.Some? {
      var trimmed := Trim(patch.name.value);
      if trimmed == [] {
        return Err(CustomerNameRequired);
      }
      if FindNamesake(db.customers, owner, trimmed, Some(id)).Some? {
        return Err(DuplicateCustomerName(trimmed));
      }
    }
    var found := OwnedCustomerAt(db.customers, id, owner);
    if found.None? {
      return Err(CustomerNotFound);
    }
    var k := found.value;
    var c := ApplyPatch(db.customers[k], patch);
    ghost var cs0 := db.customers;
    if NamesUnique(cs0) && (patch.user.None? || patch.user == Some(owner)) {
      ReplaceKeepsNamesUnique(cs0, k, c);
    }
    if Consistent(cs0, db.txs) && (patch.user.None? || patch.user == Some(owner)) && patch.balance.None? {
      ReplaceKeepsConsistent(cs0, db.txs, k, c);
    }
    db.customers := db.customers[k := c];
    r := Ok(c);
  }

  /** The duplicate check skips the customer itself: renaming "Bob" to " BOB "
      is accepted and stores "BOB". */
  lemma CaseOnlyRenameOfItself(owner: Id)
    ensures var cs := [Customer(1, owner, "Bob", None, 0, 0)];
            var p := CustomerPatch(Some(" BOB "), None, None, None);
            && UpdateRejection(cs, owner, 1, p).None?
            && ApplyPatch(cs[0], p).name == "BOB"
  {
    var c := Customer(1, owner, "Bob", None, 0, 0);
    TrimPaddedBob();
    NoNamesakeInItself(c, "BOB");
    assert OwnedCustomerAt([c], 1, owner) == Some(0);
  }

  lemma TrimPaddedBob()
    ensures Trim(" BOB ") == "BOB"
  {
    var padded, tail := " BOB ", "BOB ";
    assert padded[1..] == tail && IsSpace(padded[0]);
    assert Leading(tail) == 0 by { assert !IsSpace(tail[0]); }
    assert Leading(padded) == 1;
    assert padded[1..] == tail;
    assert tail[..3] == "BOB" && IsSpace(tail[3]);
    assert Trailing("BOB") == 0 by { assert !IsSpace("BOB"[2]); }
    assert Trailing(tail) == 1;
    assert padded[1..4] == "BOB";
  }

  /** A lookup that excludes a customer's own id finds nothing in a store holding only that customer. */
  lemma NoNamesakeInItself(c: Customer, name: string)
    ensures FindNamesake([c], c.user, name, Some(c.id)).None?
  {
    assert [c][1..] == [];
  }

  /** The mass-assigned `user` field moves a customer to another owner past
      the duplicate check: two customers named "Bob" end up with one owner. */
  lemma PatchedOwnerBreaksNamesUnique()
    ensures var cs := [Customer(1, 10, "Bob", None, 0, 0), Customer(2, 20, "Bob", None, 0, 0)];
            var p := CustomerPatch(None, None, None, Some(10));
            && NamesUnique(cs) && UpdateRejection(cs, 20, 2, p).None?
            && !NamesUnique(cs[1 := ApplyPatch(cs[1], p)])
  {
    var cs := [Customer(1, 10, "Bob", None, 0, 0), Customer(2, 20, "Bob", None, 0, 0)];
    var p := CustomerPatch(None, None, None, Some(10));
    assert OwnedCustomerAt(cs, 2, 20) == Some(1);
    var cs' := cs[1 := ApplyPatch(cs[1], p)];
    assert cs'[0].user == cs'[1].user && EqualsIgnoreCase(cs'[0].name, cs'[1].name);
  }

  /** The mass-assigned `balance` field overwrites the cached balance with no
      regard for the transactions. */
  lemma PatchedBalanceBreaksConsistent()
    ensures var cs := [Customer(1, 10, "Bob", None, 0, 0)];
            var p := CustomerPatch(None, None, Some(5), None);
            && Consistent(cs, []) && UpdateRejection(cs, 10, 1, p).None?
            && !Consistent(cs[0 := ApplyPatch(cs[0], p)], [])
  {
    var cs := [Customer(1, 10, "Bob", None, 0, 0)];
    var p := CustomerPatch(None, None, Some(5), None);
    BalanceIsCreditsMinusDebits([], 1, 10);
    assert OwnedCustomerAt(cs, 1, 10) == Some(0);
    var cs' := cs[0 := ApplyPatch(cs[0], p)];
    assert cs'[0].balance == 5 && cs'[0].id == 1 && cs'[0].user == 10;
    assert !BalancesOk(cs', []);
  }

  /** Removing a customer keeps the names unique and the cache consistent:
      the transactions it was linked to stay in place, still pointing at its id. */
  lemma RemoveKeepsInvariants(cs: seq<Customer>, ts: seq<Transaction>, k: nat)
    requires k < |cs|
    ensures NamesUnique(cs) ==> NamesUnique(cs[..k] + cs[k + 1..])
    ensures Consistent(cs, ts) ==> Consistent(cs[..k] + cs[k + 1..], ts)
    ensures CustomerIdsDistinct(cs) ==> CustomerIdsDistinct(cs[..k] + cs[k + 1..])
    ensures CustomerIdsDistinct(cs) ==> forall c :: c in cs[..k] + cs[k + 1..] ==> c.id != cs[k].id
  {
    var r := cs[..k] + cs[k + 1..];
    assert forall i :: 0 <= i < |r| ==> r[i] == cs[if i < k then i else i + 1];
  }

  /** `deleteCustomer`: not found unless the caller owns a customer with that
      id; otherwise exactly that customer is removed. Its transactions are not touched. */
  method DeleteCustomer(db: Store, owner: Id, id: Id) returns (r: Result<Customer>)
    requires db.Valid()
    modifies db`customers
    ensures db.Valid()
    ensures db.txs == old(db.txs)
    ensures r.Err? <==> OwnedCustomerAt(old(db.customers), id, owner).None?
    ensures r.Err? ==> r.error == CustomerNotFound && db.customers == old(db.customers)
    ensures r.Ok? ==>
      var k := OwnedCustomerAt(old(db.customers), id, owner).value;
      r.value == old(db.customers)[k] && db.customers == old(db.customers)[..k] + old(db.customers)[k + 1..]
    ensures r.Ok? ==> forall c :: c in db.customers ==> c.id != id
    ensures NamesUnique(old(db.customers)) ==> NamesUnique(db.customers)
    ensures Consistent(old(db.customers), db.txs) ==> Consistent(db.customers, db.txs)
  {
    var found := OwnedCustomerAt(db.customers, id, owner);
    if found.None? {
      return Err(CustomerNotFound);
    }
    var k := found.value;
    var c := db.customers[k];
    RemoveKeepsInvariants(db.customers, db.txs, k);
    db.customers := db.customers[..k] + db.customers[k + 1..];
    r := Ok(c);
  }
}

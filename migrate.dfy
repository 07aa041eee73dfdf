/** The one-off repair script `fixDataLinks`: for the first registered user,
    make sure a customer exists for every name snapshot of its transactions,
    link every transaction to the customer its snapshot names, and recompute
    every customer's balance. */
module Migrate {

  import opened Models
  import opened Ledger
  import opened Sequences
  import opened Database
  import TransactionController
  import Text

  /** Some customer of `u` carries exactly `name`: the upsert filter
      `{ name: name, user: u }` compares case-sensitively. */
  predicate HasNamed(cs: seq<Customer>, u: Id, name: string) {
    exists c :: c in cs && c.user == u && c.name == name
  }

  /** Step 1's `Transaction.distinct("customerName", { user: u, customerName: { $ne: null } })`,
      each name once, in order of first appearance. */
  function DistinctNames(ts: seq<Transaction>, u: Id): (r: seq<string>)
    ensures forall n :: n in r <==> exists t :: t in ts && t.user == u && t.customerName == Some(n)
    ensures forall i, j :: 0 <= i < j < |r| ==> r[i] != r[j]
  {
    if ts == [] then []
    else
      var init, last := ts[..|ts| - 1], ts[|ts| - 1];
      assert ts == init + [last];
      var before := DistinctNames(init, u);
      if last.user == u && last.customerName.Some? && last.customerName.value !in before
      then before + [last.customerName.value]
      else before
  }

  /** The names only depend on the owners and the snapshots, not on the links. */
  lemma {:induction false} DistinctNamesIgnoresLinks(a: seq<Transaction>, b: seq<Transaction>, u: Id)
    requires |a| == |b|
    requires forall i :: 0 <= i < |a| ==> a[i].user == b[i].user && a[i].customerName == b[i].customerName
    ensures DistinctNames(a, u) == DistinctNames(b, u)
  {
    if a != [] {
      DistinctNamesIgnoresLinks(a[..|a| - 1], b[..|b| - 1], u);
    }
  }

  /** The position of the customer `findOneAndUpdate({ name, user: u })` matches. */
  function FindExact(cs: seq<Customer>, u: Id, name: string): (r: Option<nat>)
    ensures r.Some? <==> HasNamed(cs, u, name)
    ensures r.Some? ==> r.value < |cs| && cs[r.value].user == u && cs[r.value].name == name
  {
    if cs == [] then None
    else if cs[0].user == u && cs[0].name == name then Some(0)
    else
      match FindExact(cs[1..], u, name)
      case Some(k) => Some(k + 1)
      case None =>
        assert forall c :: c in cs && c != cs[0] ==> c in cs[1..];
        None
  }

  /** What an upsert inserts: the filter's owner, no phone, created now, with a fresh id. */
  predicate Upserted(c: Customer, u: Id, now: Time, firstId: nat) {
    c.user == u && c.phone.None? && c.createdAt == now && c.id >= firstId
  }

  lemma AppendUpsertKeepsIds(cs: seq<Customer>, ts: seq<Transaction>, ps: seq<Payment>, c: Customer, next: nat)
    requires CustomerIdsDistinct(cs) && IdsBelow(cs, ts, ps, next) && c.id == next
    ensures CustomerIdsDistinct(cs + [c]) && IdsBelow(cs + [c], ts, ps, next + 1)
  {
  }

  /** `Customer.findOneAndUpdate({ name, user: u }, { name, user: u }, { upsert: true, new: true })`:
      an exact match is rewritten with the values it already has; without one
      a customer with that name and owner is inserted. */
  method Upsert(db: Store, u: Id, name: string, now: Time)
    requires db.Valid()
    modifies db`customers, db`nextId
    ensures db.Valid()
    ensures HasNamed(old(db.customers), u, name) ==> db.customers == old(db.customers) && db.nextId == old(db.nextId)
    ensures !HasNamed(old(db.customers), u, name) ==>
      && db.customers == old(db.customers) + [Customer(old(db.nextId), u, name, None, 0, now)]
      && db.nextId == old(db.nextId) + 1
    ensures HasNamed(db.customers, u, name)
  {
    var found := FindExact(db.customers, u, name);
    if found.None? {
      var id := db.NewId();
      var c := Customer(id, u, name, None, 0, now);
      AppendUpsertKeepsIds(db.customers, db.txs, db.payments, c, id);
      db.customers := db.customers + [c];
      assert c in db.customers;
    }
  }

  /** After upserting `names` into `cs0`: the old customers come first and
      unchanged, each name has an exact customer of `u`, and each customer
      added after them is a fresh upsert of a distinct, previously missing name. */
  predicate UpsertedAll(cs0: seq<Customer>, cs: seq<Customer>, names: seq<string>, u: Id, now: Time, next0: nat) {
    && |cs| >= |cs0| && cs[..|cs0|] == cs0
    && (forall n :: n in names ==> HasNamed(cs, u, n))
    && (forall j :: |cs0| <= j < |cs| ==>
          Upserted(cs[j], u, now, next0) && cs[j].balance == 0 && cs[j].name in names && !HasNamed(cs0, u, cs[j].name))
    && (forall j, k :: |cs0| <= j < k < |cs| ==> cs[j].name != cs[k].name)
  }

  lemma UpsertedAllStep(cs0: seq<Customer>, cs: seq<Customer>, names: seq<string>, name: string,
                        u: Id, now: Time, next0: nat, next: nat)
    requires UpsertedAll(cs0, cs, names, u, now, next0) && next >= next0
    ensures var cs' := if HasNamed(cs, u, name) then cs else cs + [Customer(next, u, name, None, 0, now)];
            UpsertedAll(cs0, cs', names + [name], u, now, next0)
  {
    if !HasNamed(cs, u, name) {
      var c := Customer(next, u, name, None, 0, now);
      var cs' := cs + [c];
      assert cs'[..|cs0|] == cs0 by {
        assert cs'[..|cs|] == cs;
      }
      assert !HasNamed(cs0, u, name) by {
        forall d | d in cs0 ensures !(d.user == u && d.name == name) {
          var k :| 0 <= k < |cs0| && cs0[k] == d;
          assert cs[k] == d;
        }
      }
      forall n | n in names + [name] ensures HasNamed(cs', u, n) {
        if n != name {
          var d :| d in cs && d.user == u && d.name == n;
          assert d in cs';
        } else {
          assert cs'[|cs|] == c;
        }
      }
      forall j, k | |cs0| <= j < k < |cs'| ensures cs'[j].name != cs'[k].name {
        if k == |cs| {
          assert cs[j] in cs;
        }
      }
    }
  }

  lemma PrefixStep<T>(s: seq<T>, i: nat)
    requires i < |s|
    ensures s[..i + 1] == s[..i] + [s[i]]
  {
  }

  /** Step 1, the upsert loop: every distinct snapshot name of `u` ends up with
      a customer of `u` of exactly that name. Only missing names are created,
      each once, and the existing customers, phone and balance included, are
      left as they were. */
  method EnsureCustomers(db: Store, u: Id, now: Time)
    requires db.Valid()
    modifies db`customers, db`nextId
    ensures db.Valid()
    ensures UpsertedAll(old(db.customers), db.customers, DistinctNames(db.txs, u), u, now, old(db.nextId))
    ensures (forall n :: n in DistinctNames(db.txs, u) ==> HasNamed(old(db.customers), u, n)) ==>
      db.customers == old(db.customers) && db.nextId == old(db.nextId)
  {
    var names := DistinctNames(db.txs, u);
    ghost var cs0, next0 := db.customers, db.nextId;
    ghost var allThere := forall n :: n in names ==> HasNamed(cs0, u, n);
    assert names[..0] == [];
    var i := 0;
    while i < |names|
      invariant db.Valid()
      invariant 0 <= i <= |names|
      invariant db.nextId >= next0
      invariant UpsertedAll(cs0, db.customers, names[..i], u, now, next0)
      invariant allThere ==> db.customers == cs0 && db.nextId == next0
    {
      PrefixStep(names, i);
      UpsertedAllStep(cs0, db.customers, names[..i], names[i], u, now, next0, db.nextId);
      Upsert(db, u, names[i], now);
      i := i + 1;
    }
    assert names[..i] == names;
  }

  /** The last of `u`'s customers carrying exactly `name`. */
  function LastNamed(cs: seq<Customer>, u: Id, name: string): (r: Option<nat>)
    ensures r.Some? <==> HasNamed(cs, u, name)
    ensures r.Some? ==> r.value < |cs| && cs[r.value].user == u && cs[r.value].name == name
    ensures r.Some? ==> forall j :: r.value < j < |cs| ==> !(cs[j].user == u && cs[j].name == name)
  {
    if cs == [] then None
    else
      var init, last := cs[..|cs| - 1], cs[|cs| - 1];
      assert cs == init + [last];
      if last.user == u && last.name == name then Some(|cs| - 1)
      else LastNamed(init, u, name)
  }

  /** Step 2's `new Map(allCustomers.map(c => [c.name, c._id]))`: every name
      of `u`'s customers, to the id of the LAST customer carrying it. */
  function NameMap(cs: seq<Customer>, u: Id): (m: map<string, Id>)
    ensures forall n :: n in m <==> HasNamed(cs, u, n)
    ensures forall n :: n in m ==> m[n] == cs[LastNamed(cs, u, n).value].id
  {
    if cs == [] then map[]
    else
      var init, last := cs[..|cs| - 1], cs[|cs| - 1];
      assert cs == init + [last];
      var m := NameMap(init, u);
      if last.user == u then m[last.name := last.id] else m
  }

  /** The map only depends on the ids, owners and names, not on the balances. */
  lemma {:induction false} NameMapIgnoresBalances(a: seq<Customer>, b: seq<Customer>, u: Id)
    requires |a| == |b|
    requires forall i :: 0 <= i < |a| ==> a[i].id == b[i].id && a[i].user == b[i].user && a[i].name == b[i].name
    ensures NameMap(a, u) == NameMap(b, u)
    ensures forall n :: HasNamed(a, u, n) <==> HasNamed(b, u, n)
  {
    if a != [] {
      NameMapIgnoresBalances(a[..|a| - 1], b[..|b| - 1], u);
    }
  }

  /** Two customers of `u` with the same exact name: the map keeps the second. */
  lemma LastCustomerWins(u: Id)
    ensures NameMap([Customer(1, u, "Bob", None, 0, 0), Customer(2, u, "Bob", None, 0, 0)], u) == map["Bob" := 2]
  {
    var cs := [Customer(1, u, "Bob", None, 0, 0), Customer(2, u, "Bob", None, 0, 0)];
    assert cs[..1] == [cs[0]];
    assert [cs[0]][..0] == [];
  }

  /** The ids the map hands out belong to customers of `u`. */
  lemma NameMapIds(cs: seq<Customer>, u: Id, next: nat)
    requires forall i :: 0 <= i < |cs| ==> cs[i].id < next
    ensures forall n :: n in NameMap(cs, u) ==> NameMap(cs, u)[n] < next
  {
  }

  /** `Transaction.updateMany({ user: u, customerName: name }, { $set: { customer: id } })`. */
  function UpdateMany(ts: seq<Transaction>, u: Id, name: string, id: Id): (r: seq<Transaction>)
    ensures |r| == |ts|
    ensures forall i :: 0 <= i < |ts| ==>
      r[i] == if ts[i].user == u && ts[i].customerName == Some(name) then ts[i].(customer := Some(id)) else ts[i]
  {
    seq(|ts|, i requires 0 <= i < |ts| =>
      if ts[i].user == u && ts[i].customerName == Some(name) then ts[i].(customer := Some(id)) else ts[i])
  }

  /** The transactions after the `updateMany` of every name in `names`: a
      transaction of `u` whose snapshot is one of them points at the id the
      map gives that name; every other transaction is as it was. */
  function LinkNames(ts: seq<Transaction>, m: map<string, Id>, names: set<string>, u: Id): (r: seq<Transaction>)
    requires names <= m.Keys
    ensures |r| == |ts|
    ensures forall i :: 0 <= i < |ts| ==>
      r[i] == if ts[i].user == u && ts[i].customerName.Some? && ts[i].customerName.value in names
              then ts[i].(customer := Some(m[ts[i].customerName.value])) else ts[i]
  {
    seq(|ts|, i requires 0 <= i < |ts| =>
      if ts[i].user == u && ts[i].customerName.Some? && ts[i].customerName.value in names
      then ts[i].(customer := Some(m[ts[i].customerName.value])) else ts[i])
  }

  /** The number of `u`'s transactions whose snapshot is one of `names`.
      For a single name it is the `modifiedCount` of that name's
      `updateMany`: the schema's `timestamps` option makes every update also
      set `updatedAt`, so every matched transaction counts as modified,
      whether or not its link changes. */
  function MatchedIn(ts: seq<Transaction>, u: Id, names: set<string>): nat {
    if ts == [] then 0
    else (if ts[0].user == u && ts[0].customerName.Some? && ts[0].customerName.value in names then 1 else 0)
         + MatchedIn(ts[1..], u, names)
  }

  /** The number of `u`'s transactions that carry a snapshot name. */
  function Named(ts: seq<Transaction>, u: Id): nat {
    if ts == [] then 0
    else (if ts[0].user == u && ts[0].customerName.Some? then 1 else 0) + Named(ts[1..], u)
  }

  /** The counts only depend on the owners and the snapshots, not on the links. */
  lemma {:induction false} CountsIgnoreLinks(a: seq<Transaction>, b: seq<Transaction>, u: Id, names: set<string>)
    requires |a| == |b|
    requires forall i :: 0 <= i < |a| ==> a[i].user == b[i].user && a[i].customerName == b[i].customerName
    ensures MatchedIn(a, u, names) == MatchedIn(b, u, names)
    ensures Named(a, u) == Named(b, u)
  {
    if a != [] {
      CountsIgnoreLinks(a[1..], b[1..], u, names);
    }
  }

  /** The counts of disjoint name sets add up. */
  lemma {:induction false} MatchedInUnion(ts: seq<Transaction>, u: Id, names: set<string>, name: string)
    requires name !in names
    ensures MatchedIn(ts, u, names + {name}) == MatchedIn(ts, u, names) + MatchedIn(ts, u, {name})
  {
    if ts != [] {
      MatchedInUnion(ts[1..], u, names, name);
    }
  }

  /** When `names` holds every snapshot name of `u`'s transactions, the
      matched count is the number of `u`'s named transactions. */
  lemma {:induction false} MatchedInAllNames(ts: seq<Transaction>, u: Id, names: set<string>)
    requires forall i :: 0 <= i < |ts| && ts[i].user == u && ts[i].customerName.Some? ==> ts[i].customerName.value in names
    ensures MatchedIn(ts, u, names) == Named(ts, u)
  {
    if ts != [] {
      assert forall i :: 0 <= i < |ts[1..]| ==> ts[1..][i] == ts[i + 1];
      MatchedInAllNames(ts[1..], u, names);
    }
  }

  /** No name, no match. */
  lemma {:induction false} MatchedInNone(ts: seq<Transaction>, u: Id)
    ensures MatchedIn(ts, u, {}) == 0
  {
    if ts != [] {
      MatchedInNone(ts[1..], u);
    }
  }

  /** After step 1 every snapshot name of `u` is a key of the map, so step 3
      matches every named transaction of `u`. */
  lemma UpsertedCountsNamed(cs0: seq<Customer>, cs1: seq<Customer>, ts0: seq<Transaction>, u: Id, now: Time, next0: nat)
    requires UpsertedAll(cs0, cs1, DistinctNames(ts0, u), u, now, next0)
    ensures MatchedIn(ts0, u, NameMap(cs1, u).Keys) == Named(ts0, u)
  {
    var keys := NameMap(cs1, u).Keys;
    forall i | 0 <= i < |ts0| && ts0[i].user == u && ts0[i].customerName.Some?
      ensures ts0[i].customerName.value in keys
    {
      assert ts0[i] in ts0;
      assert ts0[i].customerName.value in DistinctNames(ts0, u);
    }
    MatchedInAllNames(ts0, u, keys);
  }

  /** One round of step 3: linking one more name is one more `updateMany`,
      and its `modifiedCount`, the number of `u`'s transactions carrying that
      name, adds to the running total. */
  lemma LinkOneMore(ts0: seq<Transaction>, m: map<string, Id>, done: set<string>, name: string, u: Id)
    requires done <= m.Keys && name in m && name !in done
    ensures var cur := LinkNames(ts0, m, done, u);
            var next := UpdateMany(cur, u, name, m[name]);
            && next == LinkNames(ts0, m, done + {name}, u)
            && MatchedIn(ts0, u, done + {name}) == MatchedIn(ts0, u, done) + MatchedIn(cur, u, {name})
  {
    var cur := LinkNames(ts0, m, done, u);
    var next := UpdateMany(cur, u, name, m[name]);
    var want := LinkNames(ts0, m, done + {name}, u);
    assert forall i :: 0 <= i < |next| ==> next[i] == want[i];
    CountsIgnoreLinks(ts0, cur, u, {name});
    MatchedInUnion(ts0, u, done, name);
  }

  /** Linking keeps the ids, the owners and the snapshots, and points only at
      ids the store has handed out. */
  lemma LinkKeepsIds(ts0: seq<Transaction>, m: map<string, Id>, names: set<string>, u: Id,
                     cs: seq<Customer>, ps: seq<Payment>, next: nat)
    requires names <= m.Keys && forall n :: n in m ==> m[n] < next
    requires TransactionIdsDistinct(ts0) && IdsBelow(cs, ts0, ps, next)
    ensures var r := LinkNames(ts0, m, names, u);
            && TransactionIdsDistinct(r) && IdsBelow(cs, r, ps, next)
            && (forall i :: 0 <= i < |r| ==>
                  r[i].id == ts0[i].id && r[i].user == ts0[i].user && r[i].customerName == ts0[i].customerName)
  {
  }

  /** Step 3: one `updateMany` per map entry, summing the modified counts.
      Afterwards every transaction of `u` whose snapshot is a name of the map
      points at that name's customer, and the total is the number of `u`'s
      transactions whose snapshot is a name of the map, linked before or not.
      The entries are visited in some order; the outcome is the same for
      every order. */
  method LinkTransactions(db: Store, u: Id, m: map<string, Id>) returns (totalUpdated: nat)
    requires db.Valid()
    requires forall n :: n in m ==> m[n] < db.nextId
    modifies db`txs
    ensures db.Valid()
    ensures db.txs == LinkNames(old(db.txs), m, m.Keys, u)
    ensures totalUpdated == MatchedIn(old(db.txs), u, m.Keys)
  {
    ghost var ts0 := db.txs;
    var remaining := m.Keys;
    ghost var done: set<string> := {};
    totalUpdated := 0;
    MatchedInNone(ts0, u);
    while remaining != {}
      invariant db.Valid()
      invariant remaining + done == m.Keys && remaining !! done
      invariant db.txs == LinkNames(ts0, m, done, u)
      invariant totalUpdated == MatchedIn(ts0, u, done)
      decreases |remaining|
    {
      var name :| name in remaining;
      var id := m[name];
      LinkOneMore(ts0, m, done, name, u);
      var updated := UpdateMany(db.txs, u, name, id);
      var modifiedCount := MatchedIn(db.txs, u, {name});
      LinkKeepsIds(ts0, m, done + {name}, u, db.customers, db.payments, db.nextId);
      db.txs := updated;
      if modifiedCount > 0 {
        totalUpdated := totalUpdated + modifiedCount;
      }
      remaining := remaining - {name};
      done := done + {name};
    }
    assert done == m.Keys;
  }

  /** A customer after step 4: one of `u`'s gets the fold of the
      transactions linked to it by `u`; any other is left alone. */
  function Rebalanced(c: Customer, ts: seq<Transaction>, u: Id): (r: Customer)
    ensures r.id == c.id && r.user == c.user && r.name == c.name && r.phone == c.phone && r.createdAt == c.createdAt
    ensures c.user == u ==> r.balance == Balance(ts, c.id, u)
    ensures c.user != u ==> r == c
  {
    if c.user == u then c.(balance := Balance(ts, c.id, u)) else c
  }

  /** With distinct ids, the customer carrying a stored customer's id is that customer. */
  lemma SameIdSameCustomer(cs: seq<Customer>, c: Customer, i: nat)
    requires CustomerIdsDistinct(cs) && c in cs && i < |cs| && cs[i].id == c.id
    ensures cs[i] == c
  {
    var k :| 0 <= k < |cs| && cs[k] == c;
  }

  /** Step 4: `recalculateCustomerBalance(customer._id, u)` for every customer
      `Customer.find({ user: u })` returned. */
  method RecalculateAll(db: Store, u: Id)
    requires db.Valid()
    modifies db`customers
    ensures db.Valid()
    ensures |db.customers| == |old(db.customers)|
    ensures forall i :: 0 <= i < |db.customers| ==> db.customers[i] == Rebalanced(old(db.customers)[i], db.txs, u)
  {
    ghost var cs0 := db.customers;
    var all := Filter(db.customers, (c: Customer) => c.user == u);
    var j := 0;
    while j < |all|
      invariant db.Valid()
      invariant 0 <= j <= |all|
      invariant |db.customers| == |cs0|
      invariant forall i :: 0 <= i < |cs0| ==>
        db.customers[i] == if cs0[i] in all[..j] then Rebalanced(cs0[i], db.txs, u) else cs0[i]
    {
      PrefixStep(all, j);
      TransactionController.RecalculateCustomerBalance(db, Some(all[j].id), u);
      forall i | 0 <= i < |cs0|
        ensures db.customers[i] == if cs0[i] in all[..j + 1] then Rebalanced(cs0[i], db.txs, u) else cs0[i]
      {
        assert all[j] in all;
        if cs0[i].id == all[j].id {
          SameIdSameCustomer(cs0, all[j], i);
        }
      }
      j := j + 1;
    }
    assert all[..j] == all;
  }

  /** The state the script establishes for user `u`: every snapshot name has
      a customer, every named transaction points at the customer the map
      gives its name, and every customer's balance is its fold. */
  predicate Fixed(cs: seq<Customer>, ts: seq<Transaction>, u: Id) {
    && (forall n :: n in DistinctNames(ts, u) ==> HasNamed(cs, u, n))
    && (forall i :: 0 <= i < |ts| && ts[i].user == u && ts[i].customerName.Some? && ts[i].customerName.value in NameMap(cs, u)
          ==> ts[i].customer == Some(NameMap(cs, u)[ts[i].customerName.value]))
    && (forall i :: 0 <= i < |cs| && cs[i].user == u ==> cs[i].balance == Balance(ts, cs[i].id, u))
  }

  /** On a fixed state, linking and rebalancing change nothing. */
  lemma FixedIsFixedPoint(cs: seq<Customer>, ts: seq<Transaction>, u: Id)
    requires Fixed(cs, ts, u)
    ensures LinkNames(ts, NameMap(cs, u), NameMap(cs, u).Keys, u) == ts
    ensures forall i :: 0 <= i < |cs| ==> Rebalanced(cs[i], ts, u) == cs[i]
  {
    var r := LinkNames(ts, NameMap(cs, u), NameMap(cs, u).Keys, u);
    assert forall i :: 0 <= i < |ts| ==> r[i] == ts[i];
  }

  /** The four steps leave `u`'s data fixed: from the upserted customers
      `cs1`, the linked transactions `ts2` and the rebalanced customers `cs3`. */
  lemma RunIsFixed(cs0: seq<Customer>, cs1: seq<Customer>, cs3: seq<Customer>,
                   ts0: seq<Transaction>, ts2: seq<Transaction>, u: Id, now: Time, next0: nat)
    requires UpsertedAll(cs0, cs1, DistinctNames(ts0, u), u, now, next0)
    requires ts2 == LinkNames(ts0, NameMap(cs1, u), NameMap(cs1, u).Keys, u)
    requires |cs3| == |cs1| && forall i :: 0 <= i < |cs1| ==> cs3[i] == Rebalanced(cs1[i], ts2, u)
    ensures Fixed(cs3, ts2, u)
    ensures ts2 == LinkNames(ts0, NameMap(cs3, u), NameMap(cs3, u).Keys, u)
  {
    NameMapIgnoresBalances(cs1, cs3, u);
    DistinctNamesIgnoresLinks(ts0, ts2, u);
    var m := NameMap(cs3, u);
    forall i | 0 <= i < |ts2| && ts2[i].user == u && ts2[i].customerName.Some? && ts2[i].customerName.value in m
      ensures ts2[i].customer == Some(m[ts2[i].customerName.value])
    {
      assert ts2[i].user == ts0[i].user && ts2[i].customerName == ts0[i].customerName;
    }
  }

  /** The four steps on the customers: the old ones are rebalanced in place,
      the added ones are upserts of distinct missing names, rebalanced too. */
  lemma RunCustomers(cs0: seq<Customer>, cs1: seq<Customer>, cs3: seq<Customer>,
                     ts0: seq<Transaction>, ts2: seq<Transaction>, u: Id, now: Time, next0: nat)
    requires UpsertedAll(cs0, cs1, DistinctNames(ts0, u), u, now, next0)
    requires |cs3| == |cs1| && forall i :: 0 <= i < |cs1| ==> cs3[i] == Rebalanced(cs1[i], ts2, u)
    ensures |cs3| >= |cs0| && forall i :: 0 <= i < |cs0| ==> cs3[i] == Rebalanced(cs0[i], ts2, u)
    ensures forall j :: |cs0| <= j < |cs3| ==>
      && Upserted(cs3[j], u, now, next0)
      && cs3[j].balance == Balance(ts2, cs3[j].id, u)
      && cs3[j].name in DistinctNames(ts0, u)
      && !HasNamed(cs0, u, cs3[j].name)
    ensures forall j, k :: |cs0| <= j < k < |cs3| ==> cs3[j].name != cs3[k].name
  {
    forall i | 0 <= i < |cs0| ensures cs3[i] == Rebalanced(cs0[i], ts2, u) {
      assert cs1[..|cs0|][i] == cs1[i];
    }
  }

  /** On a state that is already fixed, the four steps change nothing. */
  lemma RunOnFixed(cs0: seq<Customer>, cs1: seq<Customer>, cs3: seq<Customer>,
                   ts0: seq<Transaction>, ts2: seq<Transaction>, u: Id)
    requires Fixed(cs0, ts0, u)
    requires (forall n :: n in DistinctNames(ts0, u) ==> HasNamed(cs0, u, n)) ==> cs1 == cs0
    requires ts2 == LinkNames(ts0, NameMap(cs1, u), NameMap(cs1, u).Keys, u)
    requires |cs3| == |cs1| && forall i :: 0 <= i < |cs1| ==> cs3[i] == Rebalanced(cs1[i], ts2, u)
    ensures cs3 == cs0 && ts2 == ts0
  {
    FixedIsFixedPoint(cs0, ts0, u);
    assert forall i :: 0 <= i < |cs0| ==> cs3[i] == cs0[i];
  }

  /** What one run of the four steps does for user `u`, from customers `cs0`,
      transactions `ts0` and first fresh id `next0` to customers `cs`,
      transactions `ts` and the reported total `count`: the old customers are
      only rebalanced; the added ones are upserts of distinct snapshot names
      that had no customer, with their folds as balance; the transactions are
      linked by the final name map; and the count is the number of `u`'s
      transactions that carry a snapshot name. */
  predicate RunEffect(cs0: seq<Customer>, ts0: seq<Transaction>, next0: nat,
                      cs: seq<Customer>, ts: seq<Transaction>, u: Id, now: Time, count: nat) {
    && |cs| >= |cs0|
    && (forall i :: 0 <= i < |cs0| ==> cs[i] == Rebalanced(cs0[i], ts, u))
    && (forall j :: |cs0| <= j < |cs| ==>
          && Upserted(cs[j], u, now, next0)
          && cs[j].balance == Balance(ts, cs[j].id, u)
          && cs[j].name in DistinctNames(ts0, u)
          && !HasNamed(cs0, u, cs[j].name))
    && (forall j, k :: |cs0| <= j < k < |cs| ==> cs[j].name != cs[k].name)
    && ts == LinkNames(ts0, NameMap(cs, u), NameMap(cs, u).Keys, u)
    && count == Named(ts0, u)
  }

  /** The four steps, from the upserted customers `cs1`, the linked
      transactions `ts2` and the rebalanced customers `cs3`, have the effect
      `RunEffect` and leave `u`'s data fixed; on data that was fixed already
      they change nothing. */
  lemma RunFacts(cs0: seq<Customer>, cs1: seq<Customer>, cs3: seq<Customer>,
                 ts0: seq<Transaction>, ts2: seq<Transaction>, u: Id, now: Time, next0: nat, count: nat)
    requires UpsertedAll(cs0, cs1, DistinctNames(ts0, u), u, now, next0)
    requires (forall n :: n in DistinctNames(ts0, u) ==> HasNamed(cs0, u, n)) ==> cs1 == cs0
    requires ts2 == LinkNames(ts0, NameMap(cs1, u), NameMap(cs1, u).Keys, u)
    requires |cs3| == |cs1| && forall i :: 0 <= i < |cs1| ==> cs3[i] == Rebalanced(cs1[i], ts2, u)
    requires count == MatchedIn(ts0, u, NameMap(cs1, u).Keys)
    ensures RunEffect(cs0, ts0, next0, cs3, ts2, u, now, count)
    ensures Fixed(cs3, ts2, u)
    ensures Fixed(cs0, ts0, u) ==> cs3 == cs0 && ts2 == ts0
    ensures Named(ts2, u) == count
  {
    CountsIgnoreLinks(ts0, ts2, u, {});
    RunIsFixed(cs0, cs1, cs3, ts0, ts2, u, now, next0);
    RunCustomers(cs0, cs1, cs3, ts0, ts2, u, now, next0);
    UpsertedCountsNamed(cs0, cs1, ts0, u, now, next0);
    if Fixed(cs0, ts0, u) {
      RunOnFixed(cs0, cs1, cs3, ts0, ts2, u);
    }
  }

  /** A run only touches `u`'s records. */
  lemma RunEffectLeavesOthers(cs0: seq<Customer>, ts0: seq<Transaction>, next0: nat,
                              cs: seq<Customer>, ts: seq<Transaction>, u: Id, now: Time, count: nat)
    requires RunEffect(cs0, ts0, next0, cs, ts, u, now, count)
    ensures forall i :: 0 <= i < |cs0| && cs0[i].user != u ==> cs[i] == cs0[i]
    ensures forall i :: 0 <= i < |ts0| && ts0[i].user != u ==> ts[i] == ts0[i]
  {
  }

  /** `fixDataLinks`: fails when no user is registered; otherwise runs the
      four steps for the first user `u`. Afterwards the state is `Fixed` for
      `u` and the run has the effect `RunEffect`: the existing customers are
      only rebalanced, the new ones carry the missing snapshot names, the
      transactions are linked by name, and the result is the number of
      `u`'s transactions that carry a snapshot name, since each of them is
      matched by one `updateMany`. Other users' records are untouched, and a
      state that was already fixed is left exactly as it was. */
  method FixDataLinks(db: Store, now: Time) returns (r: Result<nat>)
    requires db.Valid()
    modifies db`customers, db`txs, db`nextId
    ensures db.Valid()
    ensures r.Err? <==> db.users == []
    ensures r.Err? ==> r.error == NoUser && db.customers == old(db.customers) && db.txs == old(db.txs)
    ensures r.Ok? ==> Fixed(db.customers, db.txs, db.users[0].id)
    ensures r.Ok? ==> RunEffect(old(db.customers), old(db.txs), old(db.nextId), db.customers, db.txs, db.users[0].id, now, r.value)
    ensures r.Ok? ==> r.value == Named(old(db.txs), db.users[0].id) == Named(db.txs, db.users[0].id)
    ensures r.Ok? ==>
      var u := db.users[0].id;
      && (forall i :: 0 <= i < |old(db.customers)| && old(db.customers)[i].user != u ==> db.customers[i] == old(db.customers)[i])
      && (forall i :: 0 <= i < |old(db.txs)| && old(db.txs)[i].user != u ==> db.txs[i] == old(db.txs)[i])
    ensures r.Ok? && Fixed(old(db.customers), old(db.txs), db.users[0].id) ==>
      db.customers == old(db.customers) && db.txs == old(db.txs)
  {
    if db.users == [] {
      return Err(NoUser);
    }
    var u := db.users[0].id;
    ghost var cs0, ts0, next0 := db.customers, db.txs, db.nextId;

    EnsureCustomers(db, u, now);
    ghost var cs1 := db.customers;

    var m := NameMap(db.customers, u);
    NameMapIds(db.customers, u, db.nextId);
    var totalUpdated := LinkTransactions(db, u, m);

    RecalculateAll(db, u);
    RunFacts(cs0, cs1, db.customers, ts0, db.txs, u, now, next0, totalUpdated);
    RunEffectLeavesOthers(cs0, ts0, next0, db.customers, db.txs, u, now, totalUpdated);
    r := Ok(totalUpdated);
  }

  /** Running the script twice: the second run creates no customer, links no
      transaction to anything new and changes nothing, yet reports the same
      `totalUpdated` as the first, since every named transaction is matched again. */
  method FixDataLinksTwice(db: Store, now: Time)
    returns (first: Result<nat>, second: Result<nat>, ghost afterFirst: seq<Customer>, ghost linkedFirst: seq<Transaction>)
    requires db.Valid()
    modifies db`customers, db`txs, db`nextId
    ensures first.Ok? <==> second.Ok?
    ensures first.Ok? ==> db.users != [] && first.value == Named(old(db.txs), db.users[0].id)
    ensures second.Ok? ==> second.value == first.value
    ensures second.Ok? ==> db.customers == afterFirst && db.txs == linkedFirst
  {
    first := FixDataLinks(db, now);
    afterFirst, linkedFirst := db.customers, db.txs;
    second := FixDataLinks(db, now);
  }

  /** The `""` snapshot of unlinked transactions is a name like any other:
      the script owes such a user a customer called "". */
  lemma EmptySnapshotNamesACustomer(u: Id)
    ensures DistinctNames([Transaction(1, u, None, Some(""), 10, Credit, "", 0)], u) == [""]
  {
    var ts := [Transaction(1, u, None, Some(""), 10, Credit, "", 0)];
    assert ts[..0] == [];
  }

  /** Case-sensitive upsert: when step 1 starts from a customer "Bob" and the
      snapshot "bob" is among the names, the upsert inserts a second customer
      "bob", so the user ends up with two names equal ignoring case. */
  lemma CaseSensitiveUpsertDuplicates(u: Id, cs: seq<Customer>, names: seq<string>, now: Time, next0: nat)
    requires UpsertedAll([Customer(1, u, "Bob", None, 0, 0)], cs, names, u, now, next0)
    requires "bob" in names
    ensures exists j :: 1 <= j < |cs| && cs[j].name == "bob" && Upserted(cs[j], u, now, next0)
    ensures exists i, j :: 0 <= i < j < |cs| && cs[i].user == cs[j].user && Text.EqualsIgnoreCase(cs[i].name, cs[j].name)
  {
    assert cs[0] == cs[..1][0];
    var c :| c in cs && c.user == u && c.name == "bob";
    var j :| 0 <= j < |cs| && cs[j] == c;
    assert j != 0 by {
      assert cs[0].name[0] == 'B' && c.name[0] == 'b';
    }
    assert Text.Lower("Bob") == "bob" by {
      assert Text.Lower("Bob")[0] == 'b';
    }
    assert Text.EqualsIgnoreCase(cs[0].name, cs[j].name);
  }
}

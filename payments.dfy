/** The payment controller: wallets of registered users, transfers between
    them, top-ups, the payment history and the list of possible recipients. */
module PaymentController {

  import opened Models
  import opened Text
  import opened Sequences
  import opened Database

  /** The position of `User.findById(id)`. */
  function UserAt(us: seq<User>, id: Id): (r: Option<nat>)
    ensures r.Some? ==> r.value < |us| && us[r.value].id == id
    ensures r.None? ==> forall k :: 0 <= k < |us| ==> us[k].id != id
  {
    if us == [] then None
    else if us[0].id == id then Some(0)
    else
      match UserAt(us[1..], id)
      case Some(k) => Some(k + 1)
      case None =>
        assert forall k :: 1 <= k < |us| ==> us[k] == us[1..][k - 1];
        None
  }

  /** The users after the wallet of `id` moved by `delta` and was saved:
      `save()` writes the document back by its id. */
  function Adjust(us: seq<User>, id: Id, delta: int): (r: seq<User>)
    ensures |r| == |us|
    ensures forall i :: 0 <= i < |us| ==>
      r[i] == if us[i].id == id then us[i].(walletBalance := us[i].walletBalance + delta) else us[i]
  {
    seq(|us|, i requires 0 <= i < |us| => if us[i].id == id then us[i].(walletBalance := us[i].walletBalance + delta) else us[i])
  }

  /** The users after the sender's `walletBalance -= amount` was saved. */
  function Debit(us: seq<User>, id: Id, amount: int): (r: seq<User>)
    ensures |r| == |us|
    ensures forall i :: 0 <= i < |us| ==>
      r[i] == if us[i].id == id then us[i].(walletBalance := us[i].walletBalance - amount) else us[i]
  {
    Adjust(us, id, -amount)
  }

  /** All the money the wallets hold. */
  function TotalWallet(us: seq<User>): int {
    if us == [] then 0 else us[0].walletBalance + TotalWallet(us[1..])
  }

  lemma {:induction false} TotalWalletAdjustMissing(us: seq<User>, id: Id, delta: int)
    requires forall k :: 0 <= k < |us| ==> us[k].id != id
    ensures Adjust(us, id, delta) == us
  {
  }

  /** Moving the wallet of one user moves the total by the same amount. */
  lemma {:induction false} TotalWalletAdjust(us: seq<User>, id: Id, delta: int)
    requires UserIdsDistinct(us) && UserAt(us, id).Some?
    ensures TotalWallet(Adjust(us, id, delta)) == TotalWallet(us) + delta
  {
    var r := Adjust(us, id, delta);
    var rest := us[1..];
    assert UserIdsDistinct(rest) by {
      forall i, j | 0 <= i < j < |rest| ensures rest[i].id != rest[j].id {
        assert rest[i] == us[i + 1] && rest[j] == us[j + 1];
      }
    }
    assert r[1..] == Adjust(rest, id, delta);
    if us[0].id == id {
      assert forall k :: 0 <= k < |rest| ==> rest[k].id != id by {
        forall k | 0 <= k < |rest| ensures rest[k].id != id {
          assert rest[k] == us[k + 1];
        }
      }
      TotalWalletAdjustMissing(rest, id, delta);
    } else {
      TotalWalletAdjust(rest, id, delta);
    }
  }

  /** No wallet is overdrawn. */
  predicate WalletsNonNegative(us: seq<User>) {
    forall i :: 0 <= i < |us| ==> us[i].walletBalance >= 0
  }

  /** The body check `!receiverId || !amount || amount <= 0`. */
  predicate TransferRequested(receiverId: Option<Id>, amount: Option<int>) {
    receiverId.Some? && amount.Some? && amount.value > 0
  }

  /** The error `sendPayment` answers with, if any, in the order of its checks;
      a missing sender is a property read on `null`. */
  function SendRejection(us: seq<User>, owner: Id, receiverId: Option<Id>, amount: Option<int>): Option<Error> {
    if !TransferRequested(receiverId, amount) then Some(InvalidPaymentRequest)
    else if UserAt(us, receiverId.value).None? then Some(ReceiverNotFound)
    else if UserAt(us, owner).None? then Some(ServerError)
    else if owner == receiverId.value then Some(SelfPayment)
    else if us[UserAt(us, owner).value].walletBalance < amount.value then Some(InsufficientBalance)
    else None
  }

  /** Adjusting a wallet keeps every id where it was. */
  lemma {:induction false} AdjustKeepsIds(us: seq<User>, id: Id, delta: int, x: Id)
    ensures UserIdsDistinct(us) ==> UserIdsDistinct(Adjust(us, id, delta))
    ensures UserAt(Adjust(us, id, delta), x) == UserAt(us, x)
  {
    var r := Adjust(us, id, delta);
    if us != [] {
      assert r[1..] == Adjust(us[1..], id, delta);
      AdjustKeepsIds(us[1..], id, delta, x);
    }
  }

  /** Adjusting the one wallet of `id` keeps the wallets non-negative when that wallet stays so. */
  lemma AdjustKeepsNonNegative(us: seq<User>, id: Id, delta: int)
    requires UserIdsDistinct(us) && UserAt(us, id).Some?
    requires WalletsNonNegative(us) && us[UserAt(us, id).value].walletBalance + delta >= 0
    ensures WalletsNonNegative(Adjust(us, id, delta))
  {
  }

  /** Debiting a wallet keeps the ids in place and lowers the total by the amount. */
  lemma DebitFacts(us: seq<User>, id: Id, amount: int, x: Id)
    ensures UserIdsDistinct(us) ==> UserIdsDistinct(Debit(us, id, amount))
    ensures UserAt(Debit(us, id, amount), x) == UserAt(us, x)
    ensures UserIdsDistinct(us) && UserAt(us, id).Some? ==> TotalWallet(Debit(us, id, amount)) == TotalWallet(us) - amount
  {
    var delta := -amount;
    assert Debit(us, id, amount) == Adjust(us, id, delta);
    AdjustKeepsIds(us, id, delta, x);
    if UserIdsDistinct(us) && UserAt(us, id).Some? {
      TotalWalletAdjust(us, id, delta);
    }
  }

  /** A transfer between two existing users keeps the user ids distinct and in place. */
  lemma TransferKeepsIds(us: seq<User>, sender: Id, receiver: Id, value: int)
    requires UserIdsDistinct(us)
    ensures UserIdsDistinct(Adjust(Debit(us, sender, value), receiver, value))
  {
    DebitFacts(us, sender, value, receiver);
    AdjustKeepsIds(Debit(us, sender, value), receiver, value, receiver);
  }

  /** A transfer between two existing users conserves the total of all wallets. */
  lemma TransferConserves(us: seq<User>, sender: Id, receiver: Id, value: int)
    requires UserIdsDistinct(us)
    requires UserAt(us, sender).Some? && UserAt(us, receiver).Some?
    ensures TotalWallet(Adjust(Debit(us, sender, value), receiver, value)) == TotalWallet(us)
  {
    DebitFacts(us, sender, value, receiver);
    TotalWalletAdjust(Debit(us, sender, value), receiver, value);
  }

  /** A transfer the sender can cover leaves no wallet negative. */
  lemma TransferKeepsNonNegative(us: seq<User>, sender: Id, receiver: Id, value: int)
    requires UserIdsDistinct(us)
    requires UserAt(us, sender).Some? && UserAt(us, receiver).Some?
    requires WalletsNonNegative(us) && value >= 0 && us[UserAt(us, sender).value].walletBalance >= value
    ensures WalletsNonNegative(Adjust(Debit(us, sender, value), receiver, value))
  {
    var us1 := Debit(us, sender, value);
    assert WalletsNonNegative(us1) by {
      forall i | 0 <= i < |us1| ensures us1[i].walletBalance >= 0 {
        if us[i].id == sender {
          assert i == UserAt(us, sender).value;
        }
      }
    }
    DebitFacts(us, sender, value, receiver);
    AdjustKeepsNonNegative(us1, receiver, value);
  }

  lemma AppendPaymentKeepsIds(cs: seq<Customer>, ts: seq<Transaction>, ps: seq<Payment>, p: Payment, next: nat)
    requires PaymentIdsDistinct(ps) && IdsBelow(cs, ts, ps, next) && p.id == next
    ensures PaymentIdsDistinct(ps + [p]) && IdsBelow(cs, ts, ps + [p], next + 1)
  {
  }

  /** The answer of a successful transfer: the record and the sender's new balance. */
  datatype Sent = Sent(payment: Payment, newBalance: int)

  /** `sendPayment`: after the checks, the amount leaves the sender's wallet
      and enters the receiver's, and a completed payment is recorded. The
      total of all wallets does not change and no wallet goes negative. */
  method SendPayment(db: Store, owner: Id, receiverId: Option<Id>, amount: Option<int>, note: string, now: Time)
    returns (r: Result<Sent>)
    requires db.Valid()
    modifies db`users, db`payments, db`nextId
    ensures db.Valid()
    ensures r.Err? <==> SendRejection(old(db.users), owner, receiverId, amount).Some?
    ensures r.Err? ==> r.error == SendRejection(old(db.users), owner, receiverId, amount).value
    ensures r.Err? ==> db.users == old(db.users) && db.payments == old(db.payments) && db.nextId == old(db.nextId)
    ensures r.Ok? ==> && r.value.payment == Payment(old(db.nextId), owner, receiverId.value, amount.value, Completed, note, now)
                      && db.payments == old(db.payments) + [r.value.payment]
                      && db.users == Adjust(Debit(old(db.users), owner, amount.value), receiverId.value, amount.value)
                      && r.value.newBalance == old(db.users)[UserAt(old(db.users), owner).value].walletBalance - amount.value
                      && r.value.newBalance >= 0
    ensures TotalWallet(db.users) == TotalWallet(old(db.users))
    ensures WalletsNonNegative(old(db.users)) ==> WalletsNonNegative(db.users)
  {
    if !TransferRequested(receiverId, amount) {
      return Err(InvalidPaymentRequest);
    }
    var rid, value := receiverId.value, amount.value;
    var s := UserAt(db.users, owner);
    var t := UserAt(db.users, rid);
    if t.None? {
      return Err(ReceiverNotFound);
    }
    if s.None? {
      return Err(ServerError);
    }
    var sender, receiver := db.users[s.value], db.users[t.value];
    if sender.id == receiver.id {
      return Err(SelfPayment);
    }
    if sender.walletBalance < value {
      return Err(InsufficientBalance);
    }
    TransferKeepsIds(db.users, owner, rid, value);
    TransferConserves(db.users, owner, rid, value);
    if WalletsNonNegative(db.users) {
      TransferKeepsNonNegative(db.users, owner, rid, value);
    }
    db.users := Debit(db.users, owner, value);
    db.users := Adjust(db.users, rid, value);
    var id := db.NewId();
    var payment := Payment(id, owner, rid, value, Completed, note, now);
    AppendPaymentKeepsIds(db.customers, db.txs, db.payments, payment, id);
    db.payments := db.payments + [payment];
    r := Ok(Sent(payment, sender.walletBalance - value));
  }

  /** `addMoneyToWallet`: a missing or non-positive amount is refused and a
      missing user is a property read on `null`; otherwise the amount is
      added to the caller's wallet and the new balance returned. */
  method AddMoneyToWallet(db: Store, owner: Id, amount: Option<int>) returns (r: Result<int>)
    requires db.Valid()
    modifies db`users
    ensures db.Valid()
    ensures r.Err? <==> amount.None? || amount.value <= 0 || UserAt(old(db.users), owner).None?
    ensures r.Err? ==> r.error == (if amount.None? || amount.value <= 0 then InvalidAmount else ServerError)
    ensures r.Err? ==> db.users == old(db.users)
    ensures r.Ok? ==> && db.users == Adjust(old(db.users), owner, amount.value)
                      && r.value == old(db.users)[UserAt(old(db.users), owner).value].walletBalance + amount.value
    ensures r.Ok? ==> TotalWallet(db.users) == TotalWallet(old(db.users)) + amount.value
    ensures WalletsNonNegative(old(db.users)) ==> WalletsNonNegative(db.users)
  {
    if amount.None? || amount.value <= 0 {
      return Err(InvalidAmount);
    }
    var k := UserAt(db.users, owner);
    if k.None? {
      return Err(ServerError);
    }
    var user := db.users[k.value];
    TotalWalletAdjust(db.users, owner, amount.value);
    AdjustKeepsIds(db.users, owner, amount.value, owner);
    if WalletsNonNegative(db.users) {
      AdjustKeepsNonNegative(db.users, owner, amount.value);
    }
    db.users := Adjust(db.users, owner, amount.value);
    r := Ok(user.walletBalance + amount.value);
  }

  datatype Wallet = Wallet(balance: int, name: string)

  /** `getWalletBalance`: the caller's balance and name; a missing user is a
      property read on `null`. */
  function GetWalletBalance(us: seq<User>, owner: Id): (r: Result<Wallet>)
    ensures r.Err? <==> forall u :: u in us ==> u.id != owner
    ensures r.Err? ==> r.error == ServerError
    ensures r.Ok? ==> exists u :: u in us && u.id == owner && r.value == Wallet(u.walletBalance, u.name)
  {
    match UserAt(us, owner)
    case None => Err(ServerError)
    case Some(k) =>
      assert us[k] in us;
      Ok(Wallet(us[k].walletBalance, us[k].name))
  }

  /** `.sort({ date: -1 })` on payments. */
  predicate PaidLaterOrSame(a: Payment, b: Payment) {
    a.date >= b.date
  }

  /** `getPaymentHistory`: every payment the caller sent or received, each
      once, later dates first. */
  function GetPaymentHistory(ps: seq<Payment>, owner: Id): (r: seq<Payment>)
    ensures SortedBy(r, PaidLaterOrSame)
    ensures forall p :: multiset(r)[p] == if p.sender == owner || p.receiver == owner then multiset(ps)[p] else 0
    ensures forall p :: p in r <==> p in ps && (p.sender == owner || p.receiver == owner)
  {
    assert TotalPreorder(PaidLaterOrSame);
    var r := Sort(Filter(ps, (p: Payment) => p.sender == owner || p.receiver == owner), PaidLaterOrSame);
    assert forall p :: p in r <==> p in multiset(r);
    r
  }

  /** `.sort({ name: 1 })` on users. */
  predicate NameFirst(a: User, b: User) {
    StrLeq(a.name, b.name)
  }

  lemma NameFirstIsTotalPreorder()
    ensures TotalPreorder(NameFirst)
  {
    forall a: User, b: User ensures NameFirst(a, b) || NameFirst(b, a) {
      StrLeqTotal(a.name, b.name);
    }
    forall a: User, b: User, c: User | NameFirst(a, b) && NameFirst(b, c) ensures NameFirst(a, c) {
      StrLeqTransitive(a.name, b.name, c.name);
    }
  }

  /** `getAllUsers`: everyone but the caller, in ascending name order. */
  function GetAllUsers(us: seq<User>, owner: Id): (r: seq<User>)
    ensures SortedBy(r, NameFirst)
    ensures forall u :: multiset(r)[u] == if u.id != owner then multiset(us)[u] else 0
    ensures forall u :: u in r <==> u in us && u.id != owner
  {
    NameFirstIsTotalPreorder();
    var r := Sort(Filter(us, (u: User) => u.id != owner), NameFirst);
    assert forall u :: u in r <==> u in multiset(r);
    r
  }
}

/** The persisted records of the ledger backend (the Mongoose schemas), the
    error kinds its controllers report and the small wrappers they use. */
module Models {

  /** Document identities (Mongo ObjectIds) as opaque naturals. */
  type Id = nat

  /** Dates as integer timestamps (milliseconds). */
  type Time = int

  datatype Option<+T> = None | Some(value: T) {
    function GetOr(default: T): T {
      match this
      case Some(v) => v
      case None => default
    }
  }

  /** The `type` enum of a transaction: only "credit" and "debit" pass the schema. */
  datatype TxType = Credit | Debit

  /** A ledger entry. `customer` is the identity link, `customerName` the
      denormalised name snapshot; both are optional in the schema. */
  datatype Transaction = Transaction(
    id: Id,
    user: Id,
    customer: Option<Id>,
    customerName: Option<string>,
    amount: int,
    kind: TxType,
    note: string,
    date: Time)

  /** A debtor/creditor of one user, with its cached balance (default 0). */
  datatype Customer = Customer(
    id: Id,
    user: Id,
    name: string,
    phone: Option<string>,
    balance: int,
    createdAt: Time)

  /** A registered user with the wallet balance the payment controller maintains. */
  datatype User = User(
    id: Id,
    name: string,
    email: Option<string>,
    phone: Option<string>,
    walletBalance: int)

  datatype PaymentStatus = Pending | Completed | Failed

  /** A wallet-to-wallet transfer record. */
  datatype Payment = Payment(
    id: Id,
    sender: Id,
    receiver: Id,
    amount: int,
    status: PaymentStatus,
    note: string,
    date: Time)

  /** The distinct failures the controllers report. `ServerError` stands for
      what the handlers report as a server error: a failed schema validation,
      or a property read on a missing document. */
  datatype Error =
    | AmountAndTypeRequired
    | InvalidCustomer
    | TransactionNotFound
    | CustomerNotFound
    | CustomerNameRequired
    | DuplicateCustomerName(name: string)
    | InvalidPaymentRequest
    | ReceiverNotFound
    | SelfPayment
    | InsufficientBalance
    | InvalidAmount
    | NoUser
    | ServerError

  datatype Result<+T> = Ok(value: T) | Err(error: Error)

  /** The `type` string of a request as the schema's enum validator reads it. */
  function ParseTxType(s: string): (r: Option<TxType>)
    ensures r == Some(Credit) <==> s == "credit"
    ensures r == Some(Debit) <==> s == "debit"
  {
    if s == "credit" then Some(Credit)
    else if s == "debit" then Some(Debit)
    else None
  }
}

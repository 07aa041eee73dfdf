# Transaction book backend — ledger model

This project models the bookkeeping core of a small "transaction book": an
Express/Mongoose backend in which a user keeps customers (debtors and
creditors) and records credit and debit transactions against them. Each
customer carries a cached `balance`. After every change to a linked
transaction, the backend recomputes that balance as a fold over the
customer's transactions. The model also covers wallet-to-wallet payments
between registered users, and the one-off repair script `fixDataLinks`. That
script creates a customer for every transaction name snapshot, links the
transactions by name and recomputes every balance.

The four Mongo collections, the users, customers, transactions and payments,
live in one `Store` object (module `Database`). It has a `nextId` counter
that plays the part of ObjectId generation, and a `Valid()` invariant: ids
are distinct within each collection, and every customer, transaction and
payment id, and every customer link, lies below `nextId`. User ids are only
required to be distinct, since users are registered outside this model. Each controller handler becomes a method over the store.
Each method has a frame naming exactly the collections it writes, and a
contract that states:

- which request each error answers;
- that an error changes nothing;
- the exact new record or state on success;
- which data invariants it preserves.

The read-only handlers are functions over the collections.

Modules:

- `Models` — the schema records (`Transaction`, `Customer`, `User`, `Payment`), the `type` and `status` enums, `Option`/`Result` and the error kinds.
- `Text` — `trim`, ASCII case folding, and `escapeRegex` with its inverse. Also the literal meaning of an anchored case-insensitive pattern, and the string order used by a name sort.
- `Sequences` — filtering and an insertion sort (the `find(...)` filters and `.sort(...)` stages).
- `Ledger` — the recompute fold (`Balance`) and its algebra. Also the cache invariant `Consistent`: every cached balance equals the fold, and every link points at a customer of the transaction's own user.
- `Database` — the `Store` class.
- `TransactionController` — `recalculateCustomerBalance`, `addTransaction`, `updateTransaction` and `deleteTransaction`.
- `TransactionQueries` — `getTransactions`, `getTransactionsByCustomer` and `getTransactionSummary`.
- `CustomerController` — `getCustomers`, `addCustomer`, `updateCustomer` and `deleteCustomer`. The key invariant is `NamesUnique`: no owner has two customers whose names are equal ignoring case.
- `PaymentController` — `sendPayment`, `addMoneyToWallet`, `getWalletBalance`, `getPaymentHistory` and `getAllUsers`. The invariants are conservation of `TotalWallet` and `WalletsNonNegative`.
- `Migrate` — the four steps of `fixDataLinks`, each the loop it is in the script, and the whole run. The run's exact effect is stated, along with its idempotence.

The model keeps these behaviours of the code as they are written:

- The `||` fallbacks of `updateTransaction` treat a zero amount as "keep the old one".
- `addTransaction` checks only that `amount` is truthy, so a negative amount passes.
- An unlinked transaction gets the snapshot `""`, not a missing name. The summary therefore groups it under `""`, not under "Cash Transactions".
- The migration's upsert matches names exactly, with case. It can create a customer whose name differs from an existing one only in case (`Migrate.CaseSensitiveUpsertDuplicates`).
- The case-insensitive name lookups use MongoDB's PCRE, whose `$` also matches before a final newline. A stored "Bob\n", which the migration's untrimmed upsert can create, therefore counts as a duplicate of "Bob" and is found by the per-customer view (`CustomerController.TrailingNewlineIsNamesake`).
- The update payload of `updateCustomer` is mass-assigned. A body with `user` or `balance` can break the per-owner name uniqueness or the balance cache (`CustomerController.PatchedOwnerBreaksNamesUnique`, `CustomerController.PatchedBalanceBreaksConsistent`). The preservation ensures of `UpdateCustomer` are therefore conditional on those fields being absent.

The two `recalculateCustomerBalance` functions are textually the same: migrate.js:71-76 and controllers/transactionController.js:47-51. The controller's is modelled by `TransactionController.RecalculateCustomerBalance`, and the script's, applied to each customer of step 4, by `Migrate.Rebalanced`.

Inputs that would come from outside are parameters:

- the authenticated user (`owner`);
- the request body fields;
- the current time (`now`), where a handler defaults a date.

## Model

| member | source | states |
|---|---|---|
| Models.ParseTxType | models/Transaction.js:8 | exactly "credit" and "debit" pass the `type` enum, mapped to the two kinds; every other string is refused |
| Text.Trim | controllers/customerController.js:18-23 | the result is the input with only whitespace cut from both ends, it starts and ends with a non-space, and it is empty exactly when the input is all whitespace |
| Text.TrimIdempotent | controllers/customerController.js:47 | trimming an already trimmed name changes nothing |
| Text.EscapeRegex | controllers/customerController.js:3 | escaping adds exactly one backslash per special character |
| Text.UnescapeEscapeRegex | controllers/customerController.js:3 | removing the escapes gives back the input (round trip) |
| Text.EscapeRegexShape | controllers/customerController.js:3 | each character of the name sits in the escaped form where its escaped prefix ends, directly behind a backslash when it is one of the special characters and on its own otherwise; no new ordinary character appears; a name with nothing to escape is its own pattern |
| Text.EscapeRegexInjective | controllers/customerController.js:3 | two names with the same escaped form are the same name |
| Text.EscapedLookupMatchesLiteral | controllers/customerController.js:24-27 | the lookup `^escapeRegex(name)$` with option "i" matches a stored name exactly when the anchored literal `name` does: equal ignoring case, or that followed by one final newline, which PCRE's `$` accepts |
| Text.AnchoredMatch | controllers/customerController.js:26 | what the PCRE match of `^literal$` with option "i" accepts: the candidate equals the literal ignoring ASCII case, or is that followed by one final newline (its properties are stated by `Text.EscapedLookupMatchesLiteral` and `Text.AnchoredMatchWithoutNewline`) |
| Text.AnchoredMatchWithoutNewline | controllers/customerController.js:26 | on a stored name that does not end in a newline the anchored case-insensitive match is plain equality ignoring case; "Bob\n" matches `^Bob$` although it is not equal to "Bob" ignoring case |
| Text.UnescapedNameIsNotLiteral | controllers/transactionController.js:14 | an unescaped name with a special character such as "a.b" is not a literal pattern, while its escaped form denotes exactly "a.b" |
| Text.StrLeqTotal | controllers/paymentController.js:9 | any two names are ordered one way or the other by the ascending name sort |
| Text.StrLeqTransitive | controllers/paymentController.js:9 | the ascending name order is transitive |
| Text.StrLeqIsCaseSensitive | controllers/paymentController.js:9 | the name sort compares character codes, so "Zed" sorts before "alice" |
| Sequences.Filter | controllers/transactionController.js:86-91 | a query filter keeps exactly the matching records, each as often as stored |
| Sequences.Sort | controllers/transactionController.js:91 | a `.sort` stage yields a sorted permutation of its input |
| Ledger.FoldIsCreditsMinusDebits | controllers/transactionController.js:50 | the `reduce` over transactions is the sum of the credit amounts minus the sum of the debit amounts |
| Ledger.Fold | controllers/transactionController.js:50 | the `reduce` itself: from 0, a credit adds its amount and a debit subtracts it, in list order (stated by `Ledger.FoldIsCreditsMinusDebits` and `Ledger.FoldConcat`) |
| Ledger.FoldConcat | controllers/transactionController.js:50 | the fold of two concatenated lists is the sum of their folds |
| Ledger.LinkedTo | controllers/transactionController.js:49 | `Transaction.find({ customer, user })`: a transaction is in the result exactly when it is stored and linked to that customer by that user, and the result is no longer than the collection |
| Ledger.LinkedToCounts | controllers/transactionController.js:49 | the query returns each linked transaction exactly as often as it is stored, and no other transaction |
| Ledger.Balance | controllers/transactionController.js:47-51 | the value `recalculateCustomerBalance` writes: the fold of the transactions the query returns (stated by `Ledger.BalanceIsCreditsMinusDebits` and the `Balance*` lemmas) |
| Ledger.BalanceIsCreditsMinusDebits | controllers/transactionController.js:47-51 | a customer's recomputed balance is its linked credits minus its linked debits, and 0 when nothing links to it |
| Ledger.BalanceConcat | controllers/transactionController.js:49-50 | a customer's balance over two concatenated lists is the sum of its balances over each |
| Ledger.BalanceAppend | controllers/transactionController.js:106-108 | appending a transaction moves each customer's balance by that transaction's signed amount if it is linked to that customer, and not at all otherwise |
| Ledger.BalanceRemove | controllers/transactionController.js:136-138 | deleting a transaction takes its signed amount out of the balance of the customer it is linked to only |
| Ledger.BalanceReplace | controllers/transactionController.js:123-125 | replacing a transaction swaps its contribution for the new record's |
| Ledger.WithBalance | controllers/transactionController.js:51 | `Customer.findByIdAndUpdate(customerId, { balance })`: the customers with that id get the new balance, every other customer and the order are unchanged |
| Ledger.Recomputed | controllers/transactionController.js:47-51 | a null customer id leaves the customers alone; otherwise exactly the customers with that id get the fold as balance and nothing else changes |
| Ledger.RecomputeRestores | controllers/transactionController.js:47-51 | when only the given customer's fold changed, recomputing it restores "every cached balance equals its fold" |
| Ledger.AddKeepsConsistent | controllers/transactionController.js:101-109 | adding a transaction linked to an owned customer (or unlinked) and recomputing keeps the cache consistent |
| Ledger.UpdateKeepsConsistent | controllers/transactionController.js:116-126 | updating a transaction in place without touching its link or owner and recomputing the original link keeps the cache consistent |
| Ledger.DeleteKeepsConsistent | controllers/transactionController.js:133-139 | deleting a transaction and recomputing its customer keeps the cache consistent |
| Ledger.AliceExample | controllers/transactionController.js:50 | credit 100, debit 30, credit 20 give 90, and 120 once the debit is deleted |
| TransactionController.FindOwnedCustomer | controllers/transactionController.js:102 | the customer found, read at the position of the store's `{ _id, user }` lookup, has the id and the caller as owner, and none is found only when the caller owns no customer with that id |
| TransactionController.FoundCustomerIsOwned | controllers/transactionController.js:102-103 | with distinct ids, a customer found by id and owner is the only customer with that id, so linking to it keeps links owned |
| TransactionController.FindOwnedTransaction | controllers/transactionController.js:116-117 | the position found holds a transaction with that id and the caller as owner, and none is found only when the caller owns no such transaction |
| TransactionController.RecalculateCustomerBalance | controllers/transactionController.js:47-51 | no effect for a null id; otherwise the customers with that id get the fold of the transactions linked to them by the user, and all other customers and the transactions are unchanged |
| TransactionController.AddTransaction | controllers/transactionController.js:96-112 | succeeds exactly when amount is truthy, type is given, the customer id (if any) is the caller's, and type passes the enum. Errors come in that order and change nothing. On success, one record is appended with the id, the customer's current name as snapshot ("" when unlinked), the date defaulting to now when missing or 0, and the linked customer's balance equal to its fold. Consistency is preserved. |
| TransactionController.SaveNew | controllers/transactionController.js:106-109 | the store keeps valid ids, the id counter moves past the new id, the record is appended, only the linked customer (if any) gets its balance recomputed from the new transaction list, and a consistent store stays consistent |
| TransactionController.Patched | controllers/transactionController.js:119-123 | each falsy body field (a missing or 0 amount or date, an empty type or note) keeps the old value; the link, snapshot, owner and id are never changed; an invalid new type fails the save; an all-falsy body is the identity |
| TransactionController.UpdateTransaction | controllers/transactionController.js:114-129 | not found (and no change) unless the caller owns that id. Otherwise the patched record replaces exactly that one in place, the original link's customer gets its new fold, and consistency is preserved. |
| TransactionController.DeleteTransaction | controllers/transactionController.js:131-142 | not found (and no change) unless the caller owns that id. Otherwise exactly that record is removed, the other transactions keep their order, no transaction with that id remains, the linked customer gets its new fold, and consistency is preserved. |
| TransactionQueries.LaterOrSameIsTotalPreorder | controllers/transactionController.js:30 | "later date first" is a total preorder, so the date sort is well defined |
| TransactionQueries.DistinctOccursOnce | controllers/transactionController.js:24-30 | with distinct ids every stored transaction occurs once |
| TransactionQueries.ListTransactions | controllers/transactionController.js:84-94 | exactly the caller's transactions in the date range (when both bounds are given), each as often as stored, later dates first |
| TransactionQueries.FindByName | controllers/transactionController.js:12-15 | the customer found is the caller's and the anchored case-insensitive pattern of the requested name matches its name (equal ignoring case, or that plus a final newline); none is found only when no customer of the caller matches |
| TransactionQueries.TransactionsByCustomer | controllers/transactionController.js:7-43 | "Customer not found" exactly when the anchored case-insensitive pattern of the name matches no customer of the caller. Otherwise the view has that customer's cached balance and id, and exactly the caller's transactions linked to it by id or carrying its exact stored name, later dates first. |
| TransactionQueries.ViewHasNoDuplicates | controllers/transactionController.js:24-30 | a transaction matching both the link and the name appears once in the view |
| TransactionQueries.InView | controllers/transactionController.js:24-29 | the `find` filter of the per-customer view: the caller's transaction, linked to the customer by id or carrying its exact stored name (used by `TransactionQueries.TransactionsByCustomer`) |
| TransactionQueries.GroupKey | controllers/transactionController.js:76 | the `""` snapshot of an unlinked transaction is its own group key, not "Cash Transactions" |
| TransactionQueries.LastDate | controllers/transactionController.js:76 | `$max` of a group's dates is an upper bound attained by one of them, and is absent exactly for a key no transaction has |
| TransactionQueries.GroupTotalOfAbsentKey | controllers/transactionController.js:76 | a key no transaction carries has group total 0 |
| TransactionQueries.AddToGroups | controllers/transactionController.js:76 | one transaction folded into the `$group` accumulators; there is always at least one row afterwards (its row is stated by `TransactionQueries.AddToGroupsRowFor`) |
| TransactionQueries.AddToGroupsRowFor | controllers/transactionController.js:76 | folding one more transaction into the groups changes only the row of its key, whose total grows by the signed amount and whose date becomes the maximum |
| TransactionQueries.Groups | controllers/transactionController.js:76 | the `$group` stage over the matching transactions, rows in order of first appearance of their key (stated by `TransactionQueries.GroupsCorrect`) |
| TransactionQueries.GroupsCorrect | controllers/transactionController.js:76 | the grouping has one row per key that occurs; that row has the group's signed total and latest date; the rows sum to the net of all transactions |
| TransactionQueries.SumBalancesPermutation | controllers/transactionController.js:77 | reordering the summary rows does not change their total |
| TransactionQueries.PermutationKeepsNamesDistinct | controllers/transactionController.js:77 | sorting the groups keeps their names distinct, so the summary has one row per group |
| TransactionQueries.TransactionSummary | controllers/transactionController.js:67-82 | the rows are a permutation of the groups of the caller's in-range transactions, sorted by latest date, newest first |
| TransactionQueries.SummaryCorrect | controllers/transactionController.js:67-82 | no two summary rows share a name, every row names a group of the matching transactions and carries its signed total and latest date, every matching transaction's group has a row, and the rows add up to the net of the matching transactions |
| CustomerController.FindNamesake | controllers/customerController.js:24-27 | the duplicate lookup finds a customer of the caller (other than the excluded id) whose name the anchored pattern matches: equal ignoring case, or that plus a final newline; none is found only when no such customer exists, and customers of other owners never count |
| CustomerController.TrailingNewlineIsNamesake | controllers/customerController.js:24-30 | a stored "Bob\n" makes the lookup for "Bob" find a duplicate |
| Database.OwnedCustomerAt | controllers/customerController.js:65 | the position acted on by a `{ _id, user }` customer query holds a customer with that id and the caller as owner; none is found only when the caller owns no such customer |
| Database.Store.constructor | models/Customer.js:3-8 | the store starts with the registered users (distinct ids) and empty customer, transaction and payment collections, and satisfies the store invariant |
| Database.Store.NewId | controllers/transactionController.js:106 | the fresh `_id` a `create` assigns: one no stored record carries, after which the store invariant still holds |
| CustomerController.GetCustomers | controllers/customerController.js:5-12 | exactly the caller's customers, each as often as stored, newest first |
| CustomerController.FreshCustomerKeepsConsistent | controllers/customerController.js:32 | a new customer with balance 0 that no transaction links to keeps the cache consistent |
| CustomerController.AppendKeepsNamesUnique | controllers/customerController.js:24-32 | appending a customer whose name no other customer of the owner has ignoring case keeps names unique per owner |
| CustomerController.AddCustomer | controllers/customerController.js:14-39 | refuses a blank name, then a name the caller already has ignoring case, each with its own error and no change. Otherwise it appends one customer with a fresh id, the caller as owner, the trimmed name, the phone ("" when missing) and balance 0. Per-owner name uniqueness and cache consistency are preserved. |
| CustomerController.ApplyPatch | controllers/customerController.js:44-65 | every field the body carries overwrites the stored one, the name trimmed; every absent field is kept; the id and creation time never change; an empty body changes nothing |
| CustomerController.ApplyPatchIdempotent | controllers/customerController.js:62-65 | applying the same update body twice equals applying it once |
| CustomerController.ReplaceKeepsNamesUnique | controllers/customerController.js:52-62 | a rename that passes the duplicate check (which skips the customer itself) keeps names unique per owner |
| CustomerController.ReplaceKeepsConsistent | controllers/customerController.js:65 | replacing a customer with one of the same id, owner and balance keeps the cache consistent |
| CustomerController.UpdateCustomer | controllers/customerController.js:41-71 | refuses, in order and with no change: a string name that trims to nothing, a name another customer of the caller has ignoring case, an id the caller does not own. Otherwise that customer is replaced by the patched record. Transactions are untouched. Names stay unique when the body does not move the customer to another owner. The cache stays consistent when the body also leaves `balance` out. |
| CustomerController.CaseOnlyRenameOfItself | controllers/customerController.js:52-62 | renaming "Bob" to " BOB " is accepted and stores "BOB" |
| CustomerController.PatchedOwnerBreaksNamesUnique | controllers/customerController.js:44 | a body with `user` moves a customer past the duplicate check and can leave one owner with two "Bob"s |
| CustomerController.PatchedBalanceBreaksConsistent | controllers/customerController.js:44 | a body with `balance` overwrites the cached balance and can break "balance equals fold" |
| CustomerController.RemoveKeepsInvariants | controllers/customerController.js:76 | removing one customer keeps names unique, the cache consistent and ids distinct, and no other customer has its id |
| CustomerController.DeleteCustomer | controllers/customerController.js:73-82 | not found (and no change) unless the caller owns that id. Otherwise exactly that customer is removed and none with that id remains. Transactions, with their links and snapshots, are untouched. Name uniqueness and consistency are preserved. |
| PaymentController.UserAt | controllers/paymentController.js:26-27 | the position found holds the user with that id; none is found only when no user has it |
| PaymentController.Adjust | controllers/paymentController.js:42-46 | saving a moved wallet changes only the wallet of the user with that id, by exactly the delta |
| PaymentController.TotalWalletAdjust | controllers/paymentController.js:42-43 | moving one existing user's wallet moves the sum of all wallets by the same amount |
| PaymentController.AdjustKeepsIds | controllers/paymentController.js:45-46 | saving a wallet keeps every user id in place |
| PaymentController.AdjustKeepsNonNegative | controllers/paymentController.js:37-42 | a wallet move that leaves that wallet non-negative keeps all wallets non-negative |
| PaymentController.TransferKeepsIds | controllers/paymentController.js:45-46 | saving the debited sender and the credited receiver keeps the user ids distinct |
| PaymentController.TransferConserves | controllers/paymentController.js:42-43 | a transfer between two existing users leaves the total of all wallets unchanged |
| PaymentController.TransferKeepsNonNegative | controllers/paymentController.js:37-43 | a transfer the sender can cover leaves every wallet non-negative |
| PaymentController.SendPayment | controllers/paymentController.js:18-69 | errors in order, each changing nothing: missing receiver or non-positive amount, unknown receiver, (missing sender), self-payment, insufficient balance. On success the sender loses and the receiver gains exactly the amount. One completed payment is appended with the note given ("" by default). The returned new balance is the sender's old balance minus the amount, and is non-negative. The total of all wallets is conserved and non-negativity is preserved. |
| PaymentController.AddMoneyToWallet | controllers/paymentController.js:89-109 | refuses a missing or non-positive amount; otherwise only the caller's wallet grows by the amount, the new balance is returned, and the total grows by the amount |
| PaymentController.GetWalletBalance | controllers/paymentController.js:112-123 | the caller's wallet balance and name; an error exactly when the caller is not a registered user |
| PaymentController.GetPaymentHistory | controllers/paymentController.js:72-86 | exactly the payments the caller sent or received, each as often as stored, later dates first |
| PaymentController.NameFirstIsTotalPreorder | controllers/paymentController.js:9 | the ascending name sort is a total preorder |
| PaymentController.GetAllUsers | controllers/paymentController.js:4-15 | every user except the caller, each as often as stored, in ascending name order |
| Migrate.DistinctNames | migrate.js:25 | exactly the non-null snapshot names of the user's transactions, each once |
| Migrate.DistinctNamesIgnoresLinks | migrate.js:25 | the distinct names depend only on the owners and snapshots, so linking does not change them |
| Migrate.FindExact | migrate.js:27-28 | the upsert filter matches exactly when a customer of the user carries exactly that name (case-sensitive) |
| Migrate.Upsert | migrate.js:27-31 | an existing exact namesake is left as it is (phone and balance kept); otherwise one customer with that name, the user, no phone and balance 0 is appended; afterwards the name has a customer |
| Migrate.UpsertedAllStep | migrate.js:26-32 | one more upsert keeps "old customers first and unchanged, each upserted name present, new customers with distinct missing names" |
| Migrate.EnsureCustomers | migrate.js:24-32 | after step 1 every distinct snapshot name of the user has an exact-name customer. The old customers are unchanged, and each new customer carries a missing name, once. When every name already had a customer nothing changes. |
| Migrate.LastNamed | migrate.js:37 | the position of the last customer of the user with exactly that name |
| Migrate.NameMap | migrate.js:36-37 | the map's keys are exactly the user's customer names, and each maps to the id of the last customer with that exact name |
| Migrate.NameMapIgnoresBalances | migrate.js:36-37 | the map depends only on ids, owners and names, so step 4 does not change it |
| Migrate.LastCustomerWins | migrate.js:37 | with two customers called "Bob" the map keeps the second one's id |
| Migrate.NameMapIds | migrate.js:37 | the map hands out only ids of existing customers |
| Migrate.UpdateMany | migrate.js:43-46 | `updateMany` links exactly the user's transactions with that snapshot name to the id and leaves every other transaction unchanged |
| Migrate.LinkNames | migrate.js:42-51 | after linking a set of names, each of the user's transactions whose snapshot is in the set points at the mapped id, and all others are unchanged |
| Migrate.LinkOneMore | migrate.js:42-51 | linking one more name is one more `updateMany`, and its `modifiedCount`, the number of the user's transactions carrying that name, adds to the running total |
| Migrate.MatchedIn | migrate.js:43-49 | the `modifiedCount` of the `updateMany` calls for a set of names: the user's transactions whose snapshot is one of them, linked or not, since the timestamps make every match modified (stated by `Migrate.LinkOneMore` and `Migrate.UpsertedCountsNamed`) |
| Migrate.UpsertedCountsNamed | migrate.js:25-51 | after step 1 every snapshot name is a key of the map, so step 3 matches every one of the user's named transactions |
| Migrate.LinkTransactions | migrate.js:40-53 | after step 3 the transactions are linked by the whole map, and `totalUpdated` is the number of the user's transactions whose snapshot is a key of the map, whether their link changed or not, because the schema's timestamps make every matched transaction count as modified |
| Migrate.Rebalanced | migrate.js:71-76 | the script's local `recalculateCustomerBalance` applied to one customer: a customer of the user gets the fold of the transactions linked to it by that user and keeps every other field; other users' customers are unchanged |
| Migrate.RecalculateAll | migrate.js:55-59 | after step 4 every customer of the user has the fold as balance and every other customer is unchanged |
| Migrate.FixedIsFixedPoint | migrate.js:40-59 | on a fixed state, linking by the name map and rebalancing change nothing |
| Migrate.RunIsFixed | migrate.js:24-59 | the four steps leave every snapshot name with a customer, every named transaction linked to the map's id, and every balance equal to its fold |
| Migrate.RunCustomers | migrate.js:24-59 | the old customers are only rebalanced; the new ones carry the missing names, once each, with balance equal to their fold |
| Migrate.RunOnFixed | migrate.js:24-59 | on an already fixed state the four steps change no customer and no transaction |
| Migrate.FixDataLinks | migrate.js:12-69 | with no user nothing changes. Otherwise, for the first user, the run establishes the fixed state: old customers are only rebalanced, new customers are exactly the missing names, transactions are linked by the final name map, and the result is the number of the user's transactions that carry a snapshot name. Other users' customers and transactions are untouched. A fixed state is left exactly as it was. |
| Migrate.FixDataLinksTwice | migrate.js:12-69 | a second run succeeds exactly when the first does, creates and changes nothing, and reports the same `totalUpdated` as the first: the number of the user's named transactions, not 0 |
| Migrate.EmptySnapshotNamesACustomer | migrate.js:25 | the `""` snapshot of unlinked transactions is a non-null name, so step 1 creates a customer named "" |
| Migrate.CaseSensitiveUpsertDuplicates | migrate.js:26-31 | when step 1 starts from a customer "Bob" and "bob" is among the snapshot names, the upserts add a second, fresh customer "bob", so the user has two customers whose names are equal ignoring case |

## Left out

- `getMonthlySummary` (controllers/transactionController.js:54-65) is not modelled. It depends on the wall clock (`new Date()`, `setMonth`) and on calendar year/month extraction.
- The request/response plumbing is not part of this model: the routes, `server.js`, the authentication controller and middleware, the bcrypt hook of the user schema, the database connection, `populate`, logging and `process.exit`. HTTP status codes become distinct `Error` kinds. The authenticated user is an opaque `owner` id parameter.
- migrate-wallet.js is not part of this model. It is a single default-setting `updateMany`.
- The payment routes are not mounted in `server.js`, and `walletBalance` is not declared in models/user.js. The model follows the controller's evident intent: every user has an integer wallet.
- Amounts are integers (for example cents) and dates are integer timestamps. A body date of 0 is falsy, as the numeric body value would be: `addTransaction` then uses now and `updateTransaction` keeps the old date. JavaScript floating point, string-to-number coercion (`walletBalance += amount` with a string body would concatenate) and `Date` parsing are not modelled.
- Concurrency and atomicity are not modelled. The two separate `save()` calls of `sendPayment`, and recomputations racing each other, are sequential steps here.
- `trim` and case-insensitive matching are modelled for ASCII only. Unicode whitespace and Unicode case folding are left out.
- The order among equal sort keys and the order of `distinct` depend on the database engine. The model fixes one order (an insertion sort; first appearance for `distinct`), and the contracts speak only about the sort key order and the multiset of results.
- The JavaScript `Map` iterates in insertion order. Step 3 of the migration picks the next map key nondeterministically. Every order gives the same state, because each name sets only the transactions carrying it.
- The `createdAt`/`updatedAt` timestamps Mongoose adds: only the customers' `createdAt` is modelled, set to `now` on insertion, because `getCustomers` sorts by it. The transactions' `updatedAt` is not a field of the model; its one visible effect, that every transaction an `updateMany` matches counts as modified, is part of the migration's count (`Migrate.MatchedIn`).
- TransactionQueries.FindByName: the name in controllers/transactionController.js:14 goes into the pattern unescaped, so a requested name holding regex operators would be read as a pattern. The model reads it as a literal, matched as the anchored case-insensitive pattern matches (`Text.AnchoredMatch`), which is what the handler evidently means. `Text.UnescapedNameIsNotLiteral` shows one input where the two differ.
- CustomerController.ApplyPatch: only the body fields `name`, `phone`, `balance` and `user` are modelled. Other fields of a mass-assigned body (`_id`, timestamps) are left out, and a `name` that is not a string is treated as absent.
- PaymentController.SendPayment: a sender missing from the users collection makes the handler read a property of `null`; the model reports that as `ServerError` with no change, and likewise for `AddMoneyToWallet` and `GetWalletBalance`.
- TransactionController.AddTransaction: a schema validation failure (a `type` outside the enum) is `ServerError` with no change; other Mongoose validation (for example `amount` cast failures) is not modelled.
- Migrate.FixDataLinks: the user the script picks is `User.findOne()` with no sort. The model takes the first stored user.

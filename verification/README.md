# Recharge system balance engine: a Dafny model

This project models the balance-and-ledger core of a prepaid recharge
service. Sellers hold a balance. Approving a credit request raises the
balance. Charging a phone recharge lowers it. Every change of a balance is
paired with one entry in an append-only ledger of credit transactions.

The store is an immutable `Models.State`. It holds sellers and phone numbers
as maps. Credit requests, recharge sales and ledger entries are sequences,
and the element at position i has primary key i + 1. Each service call is a
pure function from a store to `Success((store', value))` or `Failure(error)`.
`System.Step` commits the new store on success and keeps the old one on any
error. This stands for the service's row locks and atomic blocks: each call
is one atomic transition.

Modules, one per component:

- `Money`: amounts as integer cents. A decimal(15, 2) column holds magnitudes below 10^15 cents, that is up to 9,999,999,999,999.99.
- `Results`, `Errors`: the error taxonomy and the result type.
- `Models`: the five entities and the store.
- `Ledger`: a seller's entries, their sum, the balance_after chain, reference counts.
- `CreditService`: `CreateCreditRequest` and `ApproveCreditRequest`.
- `ChargeService`: `ChargePhone` and `GetRechargeHistory`.
- `Integrity`: the store invariant `Valid`, the reconciliation predicate `Reconciled`, and their preservation per operation.
- `System`: calls as transitions, runs of calls, request lifecycle, and the test scenarios.

Reconciliation is a predicate, not a function. The tests call a reconciliation
method, but the service does not define one. A seller may be created with a
non-zero balance and no ledger entry, so `Integrity.Reconciled` replays each
seller's ledger from an opening balance. That opening is a parameter, because
the store keeps none. On a reconciled store the balance equals the opening plus
the sum of the seller's ledger amounts, and the last entry's balance_after
equals the balance.

Where the code and its tests disagree, the model follows the code:

- `tests/test_recharge_system.py:55-68` creates ten identical requests before approving any.
  The de-duplication at `app/services/credit_service.py:34-36` collapses them into one request.
  The loop at :63-64 approves that one request again. The second approval raises the undefined-name fault
  (`app/services/credit_service.py:56`), nothing catches it, and the scenario ends at :64.
  Had the faults been caught, seller1 would hold 100,000.00, not 1,000,000.00.
  The 500 charges of 5,000.00 at :86-92 would then succeed 20 times and end at zero.
  `System.ComprehensiveScenarioAsWritten` states both outcomes. `System.RetriedCreatesCollapse` and
  `System.RepeatedApprovalsCreditOnce` state the general facts.
- `tests/test_recharge_system.py:185-210` has the same mismatch: five identical requests become one.
- `tests/test_recharge_system.py:108` expects 1,000,000.00 − 500 × 5,000.00, which is negative.
  The charge loops at :86-101 assume a balance of 1,000,000.00. Had the faults been caught, only seller2 of the two sellers would reach it,
  through the five separate rounds at :70-80. From that balance exactly 200 charges succeed and the balance ends at zero.
  The 201st charge raises insufficient balance. `System.FiveHundredSalesScenario` states this.

Two error paths of `approve_credit_request` do not raise the error their authors named:

- A missing request: the handler names `DoesNotExists`, an attribute the model class lacks.
  Matching the handler therefore raises an attribute-lookup fault.
- A request that is not pending: the code raises `InvalidRequestError`, a name that is never defined.
- Both are `Errors.UnhandledFault(kind)`. Like every failure, they leave the store unchanged.
- The declared `CreditRequestNotFoundError` is never raised.

## Model

| member | source | states |
|---|---|---|
| CreditService.FirstPending | app/services/credit_service.py:34 | finds the lowest-keyed request pending for the seller and amount; none exactly when no such request exists |
| CreditService.CreateCreditRequest | app/services/credit_service.py:27-45 | fails with SellerNotFound exactly when the seller is absent; if a pending request with the same seller and amount exists, returns it and writes nothing; otherwise appends one pending request with the next key and leaves balances, sales and ledger untouched |
| CreditService.ApproveCreditRequest | app/services/credit_service.py:48-92 | a missing key or a non-pending request fails with a fault; a missing seller fails with SellerNotFound; a balance beyond column capacity fails with InvalidCreditRequest; success happens exactly otherwise, sets the status to approved with approved_at, raises only that seller's balance by the amount, and appends one credit_increase entry referencing the request with the new balance |
| ChargeService.ChargePhone | app/services/charge_service.py:19-74 | the checks run in order: phone missing, phone inactive, seller missing, balance below amount; the first failing check decides the error; success happens exactly when all pass; it debits only that seller by the amount, never below zero, and appends one completed sale and one negative recharge_sale entry referencing the sale |
| ChargeService.GetRechargeHistory | app/services/charge_service.py:77-82 | returns at most `limit` of the seller's sales, newest first; any sale of the seller left out is older than every sale returned, and then exactly `limit` were returned |
| Ledger.ChainedIffStepwise | app/models.py:54-57 | the recursive balance_after chain is the same as the positional one: each entry's balance_after is the previous balance_after (or the opening) plus its amount |
| Ledger.ChainedBalanceIsSum | app/models.py:54-57 | a chained ledger ends at the opening balance plus the sum of its amounts |
| Ledger.CountRefsZero | app/models.py:55-56 | no entry of a type references an id exactly when its reference count is zero |
| Integrity.ReconciledBalanceIsSum | tests/test_recharge_system.py:115-122 | on a reconciled store a seller's balance equals its opening plus the sum of its ledger amounts |
| Integrity.LastEntryIsBalance | app/services/charge_service.py:59-66 | on a reconciled store the seller's latest entry records the current balance |
| Integrity.PairedAppendPreservesReconciled | app/services/charge_service.py:46-62 | a balance change paired with one appended entry of that seller, which records the change and the new balance, keeps every seller's ledger chained and ending at its balance |
| Integrity.CreatePreservesValid | app/services/credit_service.py:33-45 | creating a request keeps the store valid, including at most one pending request per seller and amount |
| Integrity.ApprovePreservesValid | app/services/credit_service.py:55-84 | approving keeps the store valid: balances stay in range, the request gets exactly one credit_increase entry, approved_at is set exactly when the status is approved |
| Integrity.ApprovePreservesReconciled | app/services/credit_service.py:61-84 | approving keeps every seller's ledger chained and ending at its balance |
| Integrity.ChargePreservesValid | app/services/charge_service.py:39-66 | charging keeps the store valid: balances stay non-negative, the sale is completed and has exactly one recharge_sale entry |
| Integrity.ChargePreservesReconciled | app/services/charge_service.py:46-66 | charging keeps every seller's ledger chained and ending at its balance |
| Integrity.ChargeFailsOnlyByValidation | app/services/charge_service.py:21-74 | on a valid store a failed charge failed with one of the four typed validation errors, never the generic wrapper |
| Integrity.ApproveFaultsEscapeServiceErrors | app/services/credit_service.py:50-56 | a failed approval raises something outside the services' error hierarchy exactly when the request is missing or not pending |
| Integrity.ApproveNeverLosesSeller | app/services/credit_service.py:59-63 | on a valid store every request's seller exists, so approval never fails with SellerNotFound |
| System.InitIsValid | app/models.py:18-28 | a store of sellers with storable non-negative balances and unique phone numbers is valid and reconciled against those balances |
| System.StepPreservesValid | app/models.py:27 | every service call keeps the store valid, including balance >= 0 |
| System.StepPreservesReconciled | app/models.py:51-57 | every service call keeps the ledger reconciled with the balances |
| System.RunPreservesInvariants | app/models.py:27 | every sequence of calls keeps the store valid and reconciled |
| System.ReachableBalancesReconcile | tests/test_parallel_load.py:48-59 | from seeded sellers, after any calls, each balance is non-negative and equals its opening plus its ledger sum |
| System.StepRequestLifecycle | app/models.py:37-39 | requests are only appended, new ones are pending without approved_at, and an existing one either stays as it was or goes from pending to approved with approved_at set |
| System.RunNeverRejects | app/models.py:6-9 | no sequence of calls produces a rejected request or un-approves one |
| System.StepPairsBalanceWithEntry | app/services/credit_service.py:72-84 | the ledger only grows, by at most one entry per call; a seller's balance changes only with one new entry of that seller whose amount is the change and whose balance_after is the new balance |
| System.CreateIsIdempotent | app/services/credit_service.py:33-36 | creating the same request twice in a row returns the same request, and the second call writes nothing |
| System.RetriedCreatesCollapse | tests/test_recharge_system.py:55-60 | any number of identical creates has the effect of one and adds at most one request |
| System.ApproveTwiceCreditsOnce | tests/test_recharge_system.py:32-50 | after an approval a second one fails with a fault and changes nothing, so the balance rose by the amount once |
| System.RepeatedApprovalsCreditOnce | tests/test_recharge_system.py:182-210 | approving one request any number of times leaves the store the first approval produced |
| System.CreateThenApproveCredits | app/services/credit_service.py:27-84 | on a valid store, create then approve raises only that seller's balance, by exactly the amount, with one ledger entry |
| System.CreditRoundsAddUp | tests/test_recharge_system.py:70-80 | k create-then-approve rounds of amount a raise the balance by k·a with k ledger entries |
| System.ChargesWithinBalance | app/services/charge_service.py:35-46 | n charges whose total the balance covers all succeed and debit exactly n·amount, with n sales and n entries |
| System.RepeatedChargesDebit | app/services/charge_service.py:39-42 | n charges of amount succeed min(n, Affordable(balance, amount)) times and the rest fail without effect |
| System.AffordableIsQuotient | app/services/charge_service.py:39 | the number of charges a balance covers is the q with q·amount <= balance < (q+1)·amount |
| System.ChargeExactBalance | app/services/charge_service.py:39-46 | charging exactly the balance succeeds and leaves zero |
| System.ComprehensiveScenarioAsWritten | tests/test_recharge_system.py:52-92 | ten identical creates make one request; after its approval a second approval raises the undefined-name fault; ten approvals leave the store of one, with 100,000.00 credited; 500 charges of 5000.00 from there succeed 20 times and leave zero |
| System.ChargeIgnoresWhichPhone | app/services/charge_service.py:21-27 | two usable phones give a charge the same outcome, balances and ledger; only the phone recorded on the sale differs |
| System.FiveHundredSalesScenario | tests/test_recharge_system.py:82-113 | 500 charges of 5000.00 from the 1,000,000.00 the charge loops assume leave zero with 200 sales |
| System.HundredChargesScenario | tests/test_recharge_system.py:151-175 | 100 charges of 1000.00 from 1,000,000.00 leave 900,000.00 with 100 sales |
| System.ThousandChargesScenario | tests/test_parallel_load.py:25-59 | 1000 charges of 100.00 from 10,000,000.00 all succeed, leaving 9,900,000.00 and 1000 new entries |
| System.FiveCreditRoundsScenario | tests/test_recharge_system.py:70-80 | five rounds of 200,000.00 from zero reach 1,000,000.00 |

## Left out

- Row locking and the atomic blocks: each call is one atomic transition, committed only on success. Concurrent interleavings are not modelled.
- Timestamps: `approvedAtSet` stands for approved_at being non-null. Creation order is sequence order.
- ChargeService.GetRechargeHistory: ordering by created_at is modelled as storage order. Sales created within the same clock tick could come back in another order. `limit` defaults to 100, as in the source; a negative `limit`, which the ORM rejects, is excluded by the `nat` type. The method needs the sales table's keys to be consecutive, which every valid store has.
- The atomic-block wrappers are modelled for one database error only: a balance beyond the decimal(15, 2) column's precision. Other database errors cannot arise in the model.
- Amounts in cents: the `Decimal(str(...))` conversions are the identity on cents.
- Amount limits: amounts of at least 0.01 and at most 15 digits in all, two of them after the point, are preconditions (`Money.ValidAmount`). The request serializers enforce these before the services run.
- `get_seller_balance` is not modelled. It reads a local variable before assigning it, so every call fails.
- `verify_accounting_integrity` is not defined in the source. Reconciliation is the predicate `Integrity.Reconciled`, with the two lemmas on it.
- Rejection of credit requests: no operation produces the rejected status. `System.RunNeverRejects` states this.
- HTTP views and URL routing are not modelled, and neither are serializer field shapes, the admin UI or the seed-data commands.

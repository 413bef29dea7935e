/**
  The five stored entities and the store that holds them. Credit requests,
  recharge sales and ledger entries are never deleted, so each table is a
  sequence whose element at position i has primary key i + 1.
 */
module Models {
  import opened Money

  type SellerId = nat
  type PhoneId = nat

  datatype Seller = Seller(name: string, balance: Cents)

  datatype RequestStatus = Pending | Approved | Rejected

  /**
    A credit request. `approvedAtSet` stands for the nullable approval
    timestamp: true once a timestamp has been written.
   */
  datatype CreditRequest = CreditRequest(
    id: nat,
    seller: SellerId,
    amount: Cents,
    status: RequestStatus,
    approvedAtSet: bool)

  datatype PhoneNumber = PhoneNumber(number: string, isActive: bool)

  /** The status every recharge sale is stored with. */
  const SaleCompleted: string := "completed"

  /** A recharge sale: `amount` was charged to `seller` for `phone`. */
  datatype Sale = Sale(id: nat, seller: SellerId, phone: PhoneId, amount: Cents, status: string)

  datatype TransactionType = CreditIncrease | RechargeSale

  /**
    One ledger entry: a signed change of `seller`'s balance, the id of the
    credit request or sale that caused it, and the balance right after it.
   */
  datatype CreditTransaction = CreditTransaction(
    id: nat,
    seller: SellerId,
    amount: Cents,
    kind: TransactionType,
    referenceId: nat,
    balanceAfter: Cents)

  /** The whole store; `ledger` is append-only and in creation order. */
  datatype State = State(
    sellers: map<SellerId, Seller>,
    requests: seq<CreditRequest>,
    phones: map<PhoneId, PhoneNumber>,
    sales: seq<Sale>,
    ledger: seq<CreditTransaction>)

  /** True iff `r` is a pending request of `seller` for exactly `amount`. */
  predicate PendingFor(r: CreditRequest, seller: SellerId, amount: Cents) {
    r.status == Pending && r.seller == seller && r.amount == amount
  }

  /** True iff some request in `reqs` is pending for `seller` and `amount`. */
  predicate HasPending(reqs: seq<CreditRequest>, seller: SellerId, amount: Cents) {
    exists j :: 0 <= j < |reqs| && PendingFor(reqs[j], seller, amount)
  }
}

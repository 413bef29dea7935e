/**
  The charge engine: debiting a seller for a phone recharge, and reading a
  seller's recharge history.
 */
module ChargeService {
  import opened Money
  import opened Results
  import opened Errors
  import opened Models

  /** True iff `phone` is stored and active. */
  predicate PhoneUsable(s: State, phone: PhoneId) {
    phone in s.phones && s.phones[phone].isActive
  }

  /**
    Charges `amount` to `seller` for a recharge of `phone`. The checks run in
    a fixed order and the first that fails decides the error: the phone must
    exist, be active, the seller must exist, and the balance must cover the
    amount. Then, in one atomic unit, the balance is debited, a completed
    sale is recorded and a negative recharge_sale ledger entry is appended.
   */
  function ChargePhone(s: State, seller: SellerId, phone: PhoneId, amount: Cents): (r: Outcome<(State, Sale)>)
    requires ValidAmount(amount)
    ensures phone !in s.phones ==> r == Failure(PhoneNumberNotFound)
    ensures phone in s.phones && !s.phones[phone].isActive ==> r == Failure(PhoneNumberInactive)
    ensures PhoneUsable(s, phone) && seller !in s.sellers ==> r == Failure(SellerNotFound)
    ensures (PhoneUsable(s, phone) && seller in s.sellers && s.sellers[seller].balance < amount) ==>
      r == Failure(InsufficientBalance(s.sellers[seller].balance, amount))
    ensures r.Success? <==>
      && PhoneUsable(s, phone)
      && seller in s.sellers
      && amount <= s.sellers[seller].balance
      && Fits(s.sellers[seller].balance - amount)
    ensures r.Failure? && !IsChargeValidationError(r.error) ==> r.error == ServiceFailure
    ensures r.Success? ==>
      var s' := r.value.0;
      var sale := r.value.1;
      && sale == Sale(|s.sales| + 1, seller, phone, amount, SaleCompleted)
      && s'.sellers.Keys == s.sellers.Keys
      && 0 <= s'.sellers[seller].balance == s.sellers[seller].balance - amount
      && s'.sellers[seller].name == s.sellers[seller].name
      && (forall sid :: sid in s.sellers && sid != seller ==> s'.sellers[sid] == s.sellers[sid])
      && s'.sales == s.sales + [sale]
      && s'.ledger == s.ledger + [CreditTransaction(|s.ledger| + 1, seller, -amount, RechargeSale, sale.id, s'.sellers[seller].balance)]
      && s'.phones == s.phones
      && s'.requests == s.requests
  {
    if phone !in s.phones then Failure(PhoneNumberNotFound)
    else if !s.phones[phone].isActive then Failure(PhoneNumberInactive)
    else if seller !in s.sellers then Failure(SellerNotFound)
    else
      var current := s.sellers[seller];
      if current.balance < amount then Failure(InsufficientBalance(current.balance, amount))
      else
        var newBalance := current.balance - amount;
        if !Fits(newBalance) then Failure(ServiceFailure)
        else
          var sale := Sale(|s.sales| + 1, seller, phone, amount, SaleCompleted);
          var entry := CreditTransaction(|s.ledger| + 1, seller, -amount, RechargeSale, sale.id, newBalance);
          Success((
            s.(sellers := s.sellers[seller := current.(balance := newBalance)],
               sales := s.sales + [sale],
               ledger := s.ledger + [entry]),
            sale))
  }

  /** True iff the sales carry the consecutive primary keys 1, 2, ... in storage order. */
  predicate SalesNumbered(sales: seq<Sale>) {
    forall i :: 0 <= i < |sales| ==> sales[i].id == i + 1
  }

  /**
    The most recent `limit` sales of `seller`, newest first. Sales are stored
    in creation order, so newest first is descending primary key.
   */
  method GetRechargeHistory(s: State, seller: SellerId, limit: nat := 100) returns (history: seq<Sale>)
    requires SalesNumbered(s.sales)
    ensures |history| <= limit
    ensures forall k :: 0 <= k < |history| ==> history[k] in s.sales && history[k].seller == seller
    ensures forall k :: 0 < k < |history| ==> history[k].id < history[k - 1].id
    ensures forall j :: 0 <= j < |s.sales| && s.sales[j].seller == seller && s.sales[j] !in history ==>
      |history| == limit && forall k :: 0 <= k < |history| ==> s.sales[j].id < history[k].id
  {
    history := [];
    var i := |s.sales|;
    while i > 0 && |history| < limit
      invariant 0 <= i <= |s.sales|
      invariant |history| <= limit
      invariant forall k :: 0 <= k < |history| ==> history[k] in s.sales && history[k].seller == seller
      invariant forall k :: 0 < k < |history| ==> history[k].id < history[k - 1].id
      invariant forall k :: 0 <= k < |history| ==> i < history[k].id
      invariant forall j :: i <= j < |s.sales| && s.sales[j].seller == seller ==> s.sales[j] in history
    {
      i := i - 1;
      if s.sales[i].seller == seller {
        history := history + [s.sales[i]];
      }
    }
  }
}

/**
  The credit engine: creating credit requests and approving them. Each call
  is one atomic step from a store to a new store and a returned request, or
  to an error that leaves the store as it was.
 */
module CreditService {
  import opened Money
  import opened Results
  import opened Errors
  import opened Models

  /**
    The position of the lowest-keyed request that is pending for `seller`
    and `amount`, if there is one.
   */
  function FirstPending(reqs: seq<CreditRequest>, seller: SellerId, amount: Cents): (r: Option<nat>)
    ensures r.Some? ==> r.value < |reqs| && PendingFor(reqs[r.value], seller, amount)
    ensures r.Some? ==> forall j :: 0 <= j < r.value ==> !PendingFor(reqs[j], seller, amount)
    ensures r.None? <==> !HasPending(reqs, seller, amount)
  {
    if reqs == [] then None
    else if PendingFor(reqs[0], seller, amount) then Some(0)
    else
      match FirstPending(reqs[1..], seller, amount)
      case None =>
        assert forall j :: 1 <= j < |reqs| ==> reqs[j] == reqs[1..][j - 1];
        None
      case Some(k) => Some(k + 1)
  }

  /**
    Creates a pending credit request, unless one is already pending for the
    same seller and amount, in which case that one is returned and nothing
    is written.
   */
  function CreateCreditRequest(s: State, seller: SellerId, amount: Cents): (r: Outcome<(State, CreditRequest)>)
    requires ValidAmount(amount)
    ensures r.Failure? <==> seller !in s.sellers
    ensures r.Failure? ==> r.error == SellerNotFound
    ensures r.Success? ==> PendingFor(r.value.1, seller, amount)
    ensures r.Success? && HasPending(s.requests, seller, amount) ==>
      r.value.0 == s && r.value.1 in s.requests
    ensures r.Success? && !HasPending(s.requests, seller, amount) ==>
      && r.value.1.id == |s.requests| + 1
      && !r.value.1.approvedAtSet
      && r.value.0 == s.(requests := s.requests + [r.value.1])
  {
    if seller !in s.sellers then Failure(SellerNotFound)
    else
      match FirstPending(s.requests, seller, amount)
      case Some(j) => Success((s, s.requests[j]))
      case None =>
        var req := CreditRequest(|s.requests| + 1, seller, amount, Pending, false);
        Success((s.(requests := s.requests + [req]), req))
  }

  /** True iff `requestId` is the primary key of a stored credit request. */
  predicate Found(s: State, requestId: nat) {
    1 <= requestId <= |s.requests|
  }

  function RequestOf(s: State, requestId: nat): CreditRequest
    requires Found(s, requestId)
  {
    s.requests[requestId - 1]
  }

  /**
    Approves the request with primary key `requestId`: marks it approved,
    adds its amount to its seller's balance and appends one credit_increase
    ledger entry, all in one atomic unit.
   */
  function ApproveCreditRequest(s: State, requestId: nat): (r: Outcome<(State, CreditRequest)>)
    ensures !Found(s, requestId) ==> r == Failure(UnhandledFault(AttributeLookup))
    ensures Found(s, requestId) && RequestOf(s, requestId).status != Pending ==>
      r == Failure(UnhandledFault(UndefinedName))
    ensures (Found(s, requestId) && RequestOf(s, requestId).status == Pending
             && RequestOf(s, requestId).seller !in s.sellers) ==>
      r == Failure(SellerNotFound)
    ensures r.Success? <==>
      && Found(s, requestId)
      && RequestOf(s, requestId).status == Pending
      && RequestOf(s, requestId).seller in s.sellers
      && Fits(s.sellers[RequestOf(s, requestId).seller].balance + RequestOf(s, requestId).amount)
    ensures (r.Failure? && Found(s, requestId) && RequestOf(s, requestId).status == Pending
             && RequestOf(s, requestId).seller in s.sellers) ==>
      r.error == InvalidCreditRequest
    ensures r.Success? ==>
      var req := RequestOf(s, requestId);
      var seller := req.seller;
      var s' := r.value.0;
      && r.value.1 == req.(status := Approved, approvedAtSet := true)
      && s'.requests == s.requests[requestId - 1 := r.value.1]
      && s'.sellers.Keys == s.sellers.Keys
      && s'.sellers[seller].balance == s.sellers[seller].balance + req.amount
      && s'.sellers[seller].name == s.sellers[seller].name
      && (forall sid :: sid in s.sellers && sid != seller ==> s'.sellers[sid] == s.sellers[sid])
      && s'.ledger == s.ledger + [CreditTransaction(|s.ledger| + 1, seller, req.amount, CreditIncrease, req.id, s'.sellers[seller].balance)]
      && s'.phones == s.phones
      && s'.sales == s.sales
  {
    if !(1 <= requestId <= |s.requests|) then Failure(UnhandledFault(AttributeLookup))
    else
      var i := requestId - 1;
      var req := s.requests[i];
      if req.status != Pending then Failure(UnhandledFault(UndefinedName))
      else if req.seller !in s.sellers then Failure(SellerNotFound)
      else
        var seller := s.sellers[req.seller];
        var newBalance := seller.balance + req.amount;
        if !Fits(newBalance) then Failure(InvalidCreditRequest)
        else
          var approved := req.(status := Approved, approvedAtSet := true);
          var entry := CreditTransaction(|s.ledger| + 1, req.seller, req.amount, CreditIncrease, req.id, newBalance);
          Success((
            s.(requests := s.requests[i := approved],
               sellers := s.sellers[req.seller := seller.(balance := newBalance)],
               ledger := s.ledger + [entry]),
            approved))
  }
}

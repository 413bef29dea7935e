/**
  The invariants of the store that every service call preserves, and the
  reconciliation of stored balances against the ledger.
 */
module Integrity {
  import opened Money
  import opened Results
  import opened Errors
  import opened Models
  import opened Ledger
  import opened CreditService
  import opened ChargeService

  /** The storage check constraint (balance >= 0) and the column's precision. */
  predicate BalancesInRange(s: State) {
    forall sid :: sid in s.sellers ==> 0 <= s.sellers[sid].balance < MaxCents
  }

  /** Phone number strings are unique across the phone table. */
  predicate PhonesUnique(s: State) {
    forall p, q :: p in s.phones && q in s.phones && p != q ==> s.phones[p].number != s.phones[q].number
  }

  predicate RequestWellFormed(s: State, i: nat)
    requires i < |s.requests|
  {
    var r := s.requests[i];
    && r.id == i + 1
    && r.seller in s.sellers
    && ValidAmount(r.amount)
    && (r.approvedAtSet <==> r.status == Approved)
  }

  predicate RequestsWellFormed(s: State) {
    forall i :: 0 <= i < |s.requests| ==> RequestWellFormed(s, i)
  }

  /** No two requests are pending for the same seller and amount. */
  predicate AtMostOnePending(reqs: seq<CreditRequest>) {
    forall i, j :: 0 <= i < j < |reqs| && reqs[i].status == Pending ==>
      !PendingFor(reqs[j], reqs[i].seller, reqs[i].amount)
  }

  predicate SaleWellFormed(s: State, i: nat)
    requires i < |s.sales|
  {
    var sale := s.sales[i];
    && sale.id == i + 1
    && sale.seller in s.sellers
    && sale.phone in s.phones
    && ValidAmount(sale.amount)
    && sale.status == SaleCompleted
  }

  predicate SalesWellFormed(s: State) {
    forall i :: 0 <= i < |s.sales| ==> SaleWellFormed(s, i)
  }

  /**
    A ledger entry belongs to a stored seller and points at what caused it:
    a credit increase at an approved request of the same seller and amount,
    a recharge debit at a sale of the same seller, with the amount negated.
   */
  predicate EntryWellFormed(s: State, k: nat)
    requires k < |s.ledger|
  {
    var e := s.ledger[k];
    && e.id == k + 1
    && e.seller in s.sellers
    && match e.kind
       case CreditIncrease =>
         && 1 <= e.referenceId <= |s.requests|
         && s.requests[e.referenceId - 1].seller == e.seller
         && s.requests[e.referenceId - 1].amount == e.amount
         && s.requests[e.referenceId - 1].status == Approved
       case RechargeSale =>
         && 1 <= e.referenceId <= |s.sales|
         && s.sales[e.referenceId - 1].seller == e.seller
         && e.amount == -s.sales[e.referenceId - 1].amount
  }

  predicate LedgerWellFormed(s: State) {
    forall k :: 0 <= k < |s.ledger| ==> EntryWellFormed(s, k)
  }

  /** A request has exactly one credit_increase entry if approved and none otherwise. */
  predicate ApprovalsRecorded(s: State) {
    forall i :: 0 <= i < |s.requests| ==>
      CountRefs(s.ledger, CreditIncrease, i + 1) == (if s.requests[i].status == Approved then 1 else 0)
  }

  /** The sale at position `i` has exactly one recharge_sale entry. */
  predicate SaleRecorded(s: State, i: nat) {
    CountRefs(s.ledger, RechargeSale, i + 1) == 1
  }

  predicate SalesRecorded(s: State) {
    forall i :: 0 <= i < |s.sales| ==> SaleRecorded(s, i)
  }

  predicate Valid(s: State) {
    && BalancesInRange(s)
    && PhonesUnique(s)
    && RequestsWellFormed(s)
    && AtMostOnePending(s.requests)
    && SalesWellFormed(s)
    && LedgerWellFormed(s)
    && ApprovalsRecorded(s)
    && SalesRecorded(s)
  }

  /**
    Each seller's ledger, replayed from its opening balance (the balance it
    was created with), is chained and ends at the stored balance.
   */
  predicate Reconciled(s: State, opening: map<SellerId, Cents>) {
    forall sid :: sid in s.sellers ==>
      && sid in opening
      && Chained(opening[sid], SellerEntries(s.ledger, sid))
      && LastBalance(opening[sid], SellerEntries(s.ledger, sid)) == s.sellers[sid].balance
  }

  /** Reconciliation: the stored balance is the opening balance plus the sum of the seller's ledger amounts. */
  lemma ReconciledBalanceIsSum(s: State, opening: map<SellerId, Cents>, sid: SellerId)
    requires Reconciled(s, opening)
    requires sid in s.sellers
    ensures s.sellers[sid].balance == opening[sid] + Sum(SellerEntries(s.ledger, sid))
  {
    ChainedBalanceIsSum(opening[sid], SellerEntries(s.ledger, sid));
  }

  /** The seller's latest ledger entry records the stored balance. */
  lemma LastEntryIsBalance(s: State, opening: map<SellerId, Cents>, sid: SellerId)
    requires Reconciled(s, opening)
    requires sid in s.sellers
    requires |SellerEntries(s.ledger, sid)| > 0
    ensures Last(SellerEntries(s.ledger, sid)).balanceAfter == s.sellers[sid].balance
  {
  }

  /** No credit_increase entry refers beyond the request table, so a new request has none. */
  lemma NoEntryForNewRequest(s: State)
    requires LedgerWellFormed(s)
    ensures CountRefs(s.ledger, CreditIncrease, |s.requests| + 1) == 0
  {
    forall k | 0 <= k < |s.ledger| && s.ledger[k].kind == CreditIncrease
      ensures s.ledger[k].referenceId != |s.requests| + 1
    {
      assert EntryWellFormed(s, k);
    }
    CountRefsZero(s.ledger, CreditIncrease, |s.requests| + 1);
  }

  /** No recharge_sale entry refers beyond the sale table, so a new sale has none. */
  lemma NoEntryForNewSale(s: State)
    requires LedgerWellFormed(s)
    ensures CountRefs(s.ledger, RechargeSale, |s.sales| + 1) == 0
  {
    forall k | 0 <= k < |s.ledger| && s.ledger[k].kind == RechargeSale
      ensures s.ledger[k].referenceId != |s.sales| + 1
    {
      assert EntryWellFormed(s, k);
    }
    CountRefsZero(s.ledger, RechargeSale, |s.sales| + 1);
  }

  /**
    A balance change paired with one appended entry of that seller, which
    records the change and the resulting balance, keeps the store reconciled.
   */
  lemma PairedAppendPreservesReconciled(s: State, s': State, e: CreditTransaction, opening: map<SellerId, Cents>)
    requires Reconciled(s, opening)
    requires s'.ledger == s.ledger + [e]
    requires s'.sellers.Keys == s.sellers.Keys
    requires e.seller in s.sellers
    requires e.balanceAfter == s'.sellers[e.seller].balance == s.sellers[e.seller].balance + e.amount
    requires forall sid :: sid in s.sellers && sid != e.seller ==> s'.sellers[sid] == s.sellers[sid]
    ensures Reconciled(s', opening)
  {
    forall sid | sid in s'.sellers
      ensures Chained(opening[sid], SellerEntries(s'.ledger, sid))
      ensures LastBalance(opening[sid], SellerEntries(s'.ledger, sid)) == s'.sellers[sid].balance
    {
      assert sid in s.sellers;
      var es := SellerEntries(s.ledger, sid);
      SellerEntriesAppend(s.ledger, e, sid);
      if e.seller == sid {
        assert DropLast(es + [e]) == es;
      } else {
        assert es + [] == es;
      }
    }
  }

  // ---------------------------------------------------------------- create

  lemma CreatePreservesValid(s: State, seller: SellerId, amount: Cents)
    requires Valid(s)
    requires ValidAmount(amount)
    requires CreateCreditRequest(s, seller, amount).Success?
    ensures Valid(CreateCreditRequest(s, seller, amount).value.0)
  {
    var r := CreateCreditRequest(s, seller, amount);
    if !HasPending(s.requests, seller, amount) {
      var s' := r.value.0;
      var n := |s.requests|;
      assert forall i :: 0 <= i < n ==> s'.requests[i] == s.requests[i];
      assert forall i :: 0 <= i < n ==> RequestWellFormed(s, i);
      assert RequestsWellFormed(s') by {
        forall i | 0 <= i < |s'.requests|
          ensures RequestWellFormed(s', i)
        {
          if i < n { assert RequestWellFormed(s, i); }
        }
      }
      assert AtMostOnePending(s'.requests);
      assert LedgerWellFormed(s') by {
        forall k | 0 <= k < |s'.ledger|
          ensures EntryWellFormed(s', k)
        {
          assert EntryWellFormed(s, k);
        }
      }
      NoEntryForNewRequest(s);
      assert ApprovalsRecorded(s');
      assert SalesRecorded(s') by {
        forall i | 0 <= i < |s'.sales|
          ensures SaleRecorded(s', i)
        {
          assert SaleRecorded(s, i);
        }
      }
      assert SalesWellFormed(s') by {
        forall i | 0 <= i < |s'.sales|
          ensures SaleWellFormed(s', i)
        {
          assert SaleWellFormed(s, i);
        }
      }
    }
  }

  // --------------------------------------------------------------- approve

  lemma ApprovePreservesValid(s: State, requestId: nat)
    requires Valid(s)
    requires ApproveCreditRequest(s, requestId).Success?
    ensures Valid(ApproveCreditRequest(s, requestId).value.0)
  {
    var s' := ApproveCreditRequest(s, requestId).value.0;
    var i := requestId - 1;
    var req := s.requests[i];
    var e := Last(s'.ledger);
    assert RequestWellFormed(s, i);
    assert s'.ledger == s.ledger + [e];
    assert BalancesInRange(s');
    assert RequestsWellFormed(s') by {
      forall j | 0 <= j < |s'.requests|
        ensures RequestWellFormed(s', j)
      {
        assert RequestWellFormed(s, j);
      }
    }
    assert AtMostOnePending(s'.requests);
    assert SalesWellFormed(s') by {
      forall j | 0 <= j < |s'.sales|
        ensures SaleWellFormed(s', j)
      {
        assert SaleWellFormed(s, j);
      }
    }
    assert LedgerWellFormed(s') by {
      forall k | 0 <= k < |s'.ledger|
        ensures EntryWellFormed(s', k)
      {
        if k < |s.ledger| {
          assert s'.ledger[k] == s.ledger[k];
          assert EntryWellFormed(s, k);
        }
      }
    }
    assert ApprovalsRecorded(s') by {
      forall j | 0 <= j < |s'.requests|
        ensures CountRefs(s'.ledger, CreditIncrease, j + 1)
             == (if s'.requests[j].status == Approved then 1 else 0)
      {
        CountRefsAppend(s.ledger, e, CreditIncrease, j + 1);
      }
    }
    assert SalesRecorded(s') by {
      forall j | 0 <= j < |s'.sales|
        ensures SaleRecorded(s', j)
      {
        CountRefsAppend(s.ledger, e, RechargeSale, j + 1);
        if j < |s.sales| {
          assert SaleRecorded(s, j);
        }
      }
    }
  }

  lemma ApprovePreservesReconciled(s: State, requestId: nat, opening: map<SellerId, Cents>)
    requires Reconciled(s, opening)
    requires ApproveCreditRequest(s, requestId).Success?
    ensures Reconciled(ApproveCreditRequest(s, requestId).value.0, opening)
  {
    var s' := ApproveCreditRequest(s, requestId).value.0;
    PairedAppendPreservesReconciled(s, s', Last(s'.ledger), opening);
  }

  // ---------------------------------------------------------------- charge

  lemma ChargePreservesValid(s: State, seller: SellerId, phone: PhoneId, amount: Cents)
    requires Valid(s)
    requires ValidAmount(amount)
    requires ChargePhone(s, seller, phone, amount).Success?
    ensures Valid(ChargePhone(s, seller, phone, amount).value.0)
  {
    var s' := ChargePhone(s, seller, phone, amount).value.0;
    var n := |s.sales|;
    var e := Last(s'.ledger);
    assert s'.ledger == s.ledger + [e];
    assert BalancesInRange(s');
    assert RequestsWellFormed(s') by {
      forall j | 0 <= j < |s'.requests|
        ensures RequestWellFormed(s', j)
      {
        assert RequestWellFormed(s, j);
      }
    }
    assert SalesWellFormed(s') by {
      forall j | 0 <= j < |s'.sales|
        ensures SaleWellFormed(s', j)
      {
        if j < n {
          assert s'.sales[j] == s.sales[j];
          assert SaleWellFormed(s, j);
        }
      }
    }
    assert LedgerWellFormed(s') by {
      forall k | 0 <= k < |s'.ledger|
        ensures EntryWellFormed(s', k)
      {
        if k < |s.ledger| {
          assert s'.ledger[k] == s.ledger[k];
          assert EntryWellFormed(s, k);
          if s.ledger[k].kind == RechargeSale {
            assert s'.sales[s.ledger[k].referenceId - 1] == s.sales[s.ledger[k].referenceId - 1];
          }
        }
      }
    }
    assert ApprovalsRecorded(s') by {
      forall j | 0 <= j < |s'.requests|
        ensures CountRefs(s'.ledger, CreditIncrease, j + 1)
             == (if s'.requests[j].status == Approved then 1 else 0)
      {
        CountRefsAppend(s.ledger, e, CreditIncrease, j + 1);
      }
    }
    NoEntryForNewSale(s);
    assert SalesRecorded(s') by {
      forall j | 0 <= j < |s'.sales|
        ensures SaleRecorded(s', j)
      {
        CountRefsAppend(s.ledger, e, RechargeSale, j + 1);
        if j < |s.sales| {
          assert SaleRecorded(s, j);
        }
      }
    }
  }

  lemma ChargePreservesReconciled(s: State, seller: SellerId, phone: PhoneId, amount: Cents, opening: map<SellerId, Cents>)
    requires Reconciled(s, opening)
    requires ValidAmount(amount)
    requires ChargePhone(s, seller, phone, amount).Success?
    ensures Reconciled(ChargePhone(s, seller, phone, amount).value.0, opening)
  {
    var s' := ChargePhone(s, seller, phone, amount).value.0;
    PairedAppendPreservesReconciled(s, s', Last(s'.ledger), opening);
  }

  // ------------------------------------------------- errors on a valid store

  /**
    On a valid store a charge fails only by one of its four validation
    errors: the atomic unit itself never fails.
   */
  lemma ChargeFailsOnlyByValidation(s: State, seller: SellerId, phone: PhoneId, amount: Cents)
    requires Valid(s)
    requires ValidAmount(amount)
    ensures ChargePhone(s, seller, phone, amount).Failure? ==>
      && IsChargeValidationError(ChargePhone(s, seller, phone, amount).error)
      && IsServiceError(ChargePhone(s, seller, phone, amount).error)
  {
  }

  /**
    On a valid store every request's seller is stored, so the defensive
    seller-not-found branch of an approval is never taken.
   */
  lemma ApproveNeverLosesSeller(s: State, requestId: nat)
    requires Valid(s)
    ensures ApproveCreditRequest(s, requestId) != Failure(SellerNotFound)
  {
    if 1 <= requestId <= |s.requests| {
      assert RequestWellFormed(s, requestId - 1);
    }
  }

  /**
    An approval escapes the services' error hierarchy exactly when the request
    is missing or no longer pending: those two paths raise runtime faults
    that a caller catching the services' base error does not catch.
   */
  lemma ApproveFaultsEscapeServiceErrors(s: State, requestId: nat)
    ensures ApproveCreditRequest(s, requestId).Failure? ==>
      (!IsServiceError(ApproveCreditRequest(s, requestId).error) <==>
        (!Found(s, requestId) || RequestOf(s, requestId).status != Pending))
  {
  }
}

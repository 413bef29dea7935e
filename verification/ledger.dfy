/**
  The append-only ledger of credit transactions and the arithmetic that
  reconciles it with a seller's stored balance.
 */
module Ledger {
  import opened Money
  import opened Models

  function Last<T>(xs: seq<T>): T
    requires |xs| > 0
  {
    xs[|xs| - 1]
  }

  function DropLast<T>(xs: seq<T>): seq<T>
    requires |xs| > 0
  {
    xs[..|xs| - 1]
  }

  /** The entries of `seller`, in ledger order. */
  function SellerEntries(ledger: seq<CreditTransaction>, seller: SellerId): (es: seq<CreditTransaction>)
    ensures |es| <= |ledger|
    ensures forall k :: 0 <= k < |es| ==> es[k].seller == seller && es[k] in ledger
  {
    if ledger == [] then []
    else SellerEntries(DropLast(ledger), seller) + (if Last(ledger).seller == seller then [Last(ledger)] else [])
  }

  /** Appending one entry extends exactly the ledger of that entry's seller. */
  lemma SellerEntriesAppend(ledger: seq<CreditTransaction>, e: CreditTransaction, seller: SellerId)
    ensures SellerEntries(ledger + [e], seller)
         == SellerEntries(ledger, seller) + (if e.seller == seller then [e] else [])
  {
    assert DropLast(ledger + [e]) == ledger;
  }

  /** Sum of the signed amounts of `es`. */
  function Sum(es: seq<CreditTransaction>): int {
    if es == [] then 0 else Sum(DropLast(es)) + Last(es).amount
  }

  /** The balance after the last of `es`, or `opening` when there is none. */
  function LastBalance(opening: Cents, es: seq<CreditTransaction>): Cents {
    if es == [] then opening else Last(es).balanceAfter
  }

  /**
    True iff each entry's balance_after is the balance before it plus its
    amount, starting from `opening`.
   */
  predicate Chained(opening: Cents, es: seq<CreditTransaction>) {
    es == [] ||
    (Chained(opening, DropLast(es)) && Last(es).balanceAfter == LastBalance(opening, DropLast(es)) + Last(es).amount)
  }

  /** The same chain property stated position by position. */
  predicate Stepwise(opening: Cents, es: seq<CreditTransaction>) {
    && (|es| > 0 ==> es[0].balanceAfter == opening + es[0].amount)
    && (forall i :: 0 < i < |es| ==> es[i].balanceAfter == es[i - 1].balanceAfter + es[i].amount)
  }

  /** The recursive and the positional forms of the chain agree. */
  lemma {:induction false} ChainedIffStepwise(opening: Cents, es: seq<CreditTransaction>)
    ensures Chained(opening, es) <==> Stepwise(opening, es)
  {
    if es != [] {
      var init := DropLast(es);
      ChainedIffStepwise(opening, init);
      assert forall i :: 0 <= i < |init| ==> init[i] == es[i];
      if |es| == 1 {
        assert Chained(opening, es) <==> es[0].balanceAfter == opening + es[0].amount;
      } else {
        assert LastBalance(opening, init) == es[|es| - 2].balanceAfter;
        assert Stepwise(opening, es) <==>
          (Stepwise(opening, init) && Last(es).balanceAfter == es[|es| - 2].balanceAfter + Last(es).amount);
      }
    }
  }

  /** A chained ledger ends at the opening balance plus the sum of its amounts. */
  lemma {:induction false} ChainedBalanceIsSum(opening: Cents, es: seq<CreditTransaction>)
    requires Chained(opening, es)
    ensures LastBalance(opening, es) == opening + Sum(es)
  {
    if es != [] {
      ChainedBalanceIsSum(opening, DropLast(es));
    }
  }

  /** Number of entries of type `kind` whose reference id is `ref`. */
  function CountRefs(ledger: seq<CreditTransaction>, kind: TransactionType, ref: nat): nat {
    if ledger == [] then 0
    else CountRefs(DropLast(ledger), kind, ref)
         + (if Last(ledger).kind == kind && Last(ledger).referenceId == ref then 1 else 0)
  }

  lemma CountRefsAppend(ledger: seq<CreditTransaction>, e: CreditTransaction, kind: TransactionType, ref: nat)
    ensures CountRefs(ledger + [e], kind, ref)
         == CountRefs(ledger, kind, ref) + (if e.kind == kind && e.referenceId == ref then 1 else 0)
  {
    assert DropLast(ledger + [e]) == ledger;
  }

  /** No entry of type `kind` refers to `ref` exactly when the count is zero. */
  lemma {:induction false} CountRefsZero(ledger: seq<CreditTransaction>, kind: TransactionType, ref: nat)
    ensures CountRefs(ledger, kind, ref) == 0
        <==> forall k :: 0 <= k < |ledger| && ledger[k].kind == kind ==> ledger[k].referenceId != ref
  {
    if ledger != [] {
      var init := DropLast(ledger);
      CountRefsZero(init, kind, ref);
      assert forall k :: 0 <= k < |init| ==> init[k] == ledger[k];
    }
  }
}

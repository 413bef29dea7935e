/**
  The services as a state machine: each call is one atomic transition of the
  store, committed on success and discarded on error. Invariants proved per
  operation lift to whole runs, and the scenarios the repository's tests
  exercise follow as lemmas.
 */
module System {
  import opened Money
  import opened Results
  import opened Errors
  import opened Models
  import opened Ledger
  import opened CreditService
  import opened ChargeService
  import opened Integrity

  /** A mutating service call, with the arguments its boundary adapter validated. */
  datatype Call =
    | CreateRequest(seller: SellerId, amount: Cents)
    | ApproveRequest(requestId: nat)
    | Charge(seller: SellerId, phone: PhoneId, amount: Cents)

  predicate WellFormedCall(c: Call) {
    match c
    case CreateRequest(_, amount) => ValidAmount(amount)
    case ApproveRequest(_) => true
    case Charge(_, _, amount) => ValidAmount(amount)
  }

  predicate WellFormedCalls(calls: seq<Call>) {
    forall k :: 0 <= k < |calls| ==> WellFormedCall(calls[k])
  }

  /** The store after a call: the call's new store on success, the old one on any error. */
  function Commit<T>(s: State, r: Outcome<(State, T)>): State {
    if r.Success? then r.value.0 else s
  }

  function Step(s: State, c: Call): State
    requires WellFormedCall(c)
  {
    match c
    case CreateRequest(seller, amount) => Commit(s, CreateCreditRequest(s, seller, amount))
    case ApproveRequest(id) => Commit(s, ApproveCreditRequest(s, id))
    case Charge(seller, phone, amount) => Commit(s, ChargePhone(s, seller, phone, amount))
  }

  /** The store after `calls`, performed one after another. */
  function Run(s: State, calls: seq<Call>): State
    requires WellFormedCalls(calls)
    decreases |calls|
  {
    if calls == [] then s else Run(Step(s, calls[0]), calls[1..])
  }

  /** `c` repeated `n` times. */
  function Repeat(c: Call, n: nat): (cs: seq<Call>)
    ensures |cs| == n && forall k :: 0 <= k < n ==> cs[k] == c
  {
    if n == 0 then [] else [c] + Repeat(c, n - 1)
  }

  /** A store holding only sellers and phone numbers created out of band. */
  function Init(sellers: map<SellerId, Seller>, phones: map<PhoneId, PhoneNumber>): State {
    State(sellers, [], phones, [], [])
  }

  /** Each seller's balance at creation, the start of its ledger replay. */
  function Openings(sellers: map<SellerId, Seller>): map<SellerId, Cents> {
    map sid | sid in sellers :: sellers[sid].balance
  }

  /**
    Sellers may start with any storable non-negative balance and no ledger
    entry; such a store is valid and reconciled against those openings.
   */
  lemma InitIsValid(sellers: map<SellerId, Seller>, phones: map<PhoneId, PhoneNumber>)
    requires forall sid :: sid in sellers ==> 0 <= sellers[sid].balance < MaxCents
    requires forall p, q :: p in phones && q in phones && p != q ==> phones[p].number != phones[q].number
    ensures Valid(Init(sellers, phones))
    ensures Reconciled(Init(sellers, phones), Openings(sellers))
  {
  }

  // ------------------------------------------------------------ invariants

  lemma StepPreservesValid(s: State, c: Call)
    requires Valid(s)
    requires WellFormedCall(c)
    ensures Valid(Step(s, c))
  {
    match c
    case CreateRequest(seller, amount) =>
      if CreateCreditRequest(s, seller, amount).Success? {
        CreatePreservesValid(s, seller, amount);
      }
    case ApproveRequest(id) =>
      if ApproveCreditRequest(s, id).Success? {
        ApprovePreservesValid(s, id);
      }
    case Charge(seller, phone, amount) =>
      if ChargePhone(s, seller, phone, amount).Success? {
        ChargePreservesValid(s, seller, phone, amount);
      }
  }

  lemma StepPreservesReconciled(s: State, c: Call, opening: map<SellerId, Cents>)
    requires Reconciled(s, opening)
    requires WellFormedCall(c)
    ensures Reconciled(Step(s, c), opening)
  {
    match c
    case CreateRequest(seller, amount) =>
    case ApproveRequest(id) =>
      if ApproveCreditRequest(s, id).Success? {
        ApprovePreservesReconciled(s, id, opening);
      }
    case Charge(seller, phone, amount) =>
      if ChargePhone(s, seller, phone, amount).Success? {
        ChargePreservesReconciled(s, seller, phone, amount, opening);
      }
  }

  /**
    Every store reachable by service calls is valid (balances non-negative,
    each request approved at most once) and reconciled with its ledger.
   */
  lemma {:induction false} RunPreservesInvariants(s: State, calls: seq<Call>, opening: map<SellerId, Cents>)
    requires WellFormedCalls(calls)
    requires Valid(s) && Reconciled(s, opening)
    ensures Valid(Run(s, calls)) && Reconciled(Run(s, calls), opening)
    decreases |calls|
  {
    if calls != [] {
      StepPreservesValid(s, calls[0]);
      StepPreservesReconciled(s, calls[0], opening);
      RunPreservesInvariants(Step(s, calls[0]), calls[1..], opening);
    }
  }

  /**
    From a freshly seeded store, any run of calls keeps every balance at or
    above zero and equal to its opening plus the sum of its ledger amounts.
   */
  lemma ReachableBalancesReconcile(sellers: map<SellerId, Seller>, phones: map<PhoneId, PhoneNumber>, calls: seq<Call>, sid: SellerId)
    requires forall id :: id in sellers ==> 0 <= sellers[id].balance < MaxCents
    requires forall p, q :: p in phones && q in phones && p != q ==> phones[p].number != phones[q].number
    requires WellFormedCalls(calls)
    requires sid in sellers
    ensures sid in Run(Init(sellers, phones), calls).sellers
    ensures var s := Run(Init(sellers, phones), calls);
      && 0 <= s.sellers[sid].balance
      && s.sellers[sid].balance == sellers[sid].balance + Sum(SellerEntries(s.ledger, sid))
  {
    InitIsValid(sellers, phones);
    RunPreservesInvariants(Init(sellers, phones), calls, Openings(sellers));
    var s := Run(Init(sellers, phones), calls);
    RunKeepsSellers(Init(sellers, phones), calls);
    ReconciledBalanceIsSum(s, Openings(sellers), sid);
  }

  /** No call adds or removes a seller. */
  lemma {:induction false} RunKeepsSellers(s: State, calls: seq<Call>)
    requires WellFormedCalls(calls)
    ensures Run(s, calls).sellers.Keys == s.sellers.Keys
    decreases |calls|
  {
    if calls != [] {
      RunKeepsSellers(Step(s, calls[0]), calls[1..]);
    }
  }

  // ------------------------------------------------------------- lifecycle

  /**
    Requests are only appended, new ones are pending, and an existing one
    either stays as it was or goes from pending to approved with its
    approval time set; no call ever produces a rejected request.
   */
  lemma StepRequestLifecycle(s: State, c: Call)
    requires WellFormedCall(c)
    ensures |s.requests| <= |Step(s, c).requests|
    ensures forall i :: 0 <= i < |s.requests| ==>
      || Step(s, c).requests[i] == s.requests[i]
      || (s.requests[i].status == Pending
          && Step(s, c).requests[i] == s.requests[i].(status := Approved, approvedAtSet := true))
    ensures forall i :: |s.requests| <= i < |Step(s, c).requests| ==>
      Step(s, c).requests[i].status == Pending && !Step(s, c).requests[i].approvedAtSet
  {
  }

  /** Once approved, a request stays approved; a rejected one appears only if it was stored already. */
  lemma {:induction false} RunNeverRejects(s: State, calls: seq<Call>)
    requires WellFormedCalls(calls)
    ensures |s.requests| <= |Run(s, calls).requests|
    ensures forall i :: 0 <= i < |Run(s, calls).requests| && Run(s, calls).requests[i].status == Rejected ==>
      i < |s.requests| && s.requests[i].status == Rejected
    ensures forall i :: 0 <= i < |s.requests| && s.requests[i].status == Approved ==>
      Run(s, calls).requests[i].status == Approved
    decreases |calls|
  {
    if calls != [] {
      StepRequestLifecycle(s, calls[0]);
      RunNeverRejects(Step(s, calls[0]), calls[1..]);
    }
  }

  /**
    The ledger is append-only, and a seller's balance changes only together
    with exactly one new entry of that seller recording the change and the
    resulting balance.
   */
  lemma StepPairsBalanceWithEntry(s: State, c: Call, sid: SellerId)
    requires WellFormedCall(c)
    requires sid in s.sellers
    ensures s.ledger <= Step(s, c).ledger && |Step(s, c).ledger| <= |s.ledger| + 1
    ensures sid in Step(s, c).sellers
    ensures Step(s, c).sellers[sid].balance != s.sellers[sid].balance ==>
      var s' := Step(s, c);
      && |s'.ledger| == |s.ledger| + 1
      && Last(s'.ledger).seller == sid
      && Last(s'.ledger).balanceAfter == s'.sellers[sid].balance
      && s'.sellers[sid].balance == s.sellers[sid].balance + Last(s'.ledger).amount
  {
  }

  // ------------------------------------------------------------- scenarios

  /**
    Creating the same request twice in a row returns the same request, and
    the second call writes nothing.
   */
  lemma CreateIsIdempotent(s: State, seller: SellerId, amount: Cents)
    requires ValidAmount(amount)
    requires seller in s.sellers
    ensures var r1 := CreateCreditRequest(s, seller, amount);
      CreateCreditRequest(r1.value.0, seller, amount) == Success((r1.value.0, r1.value.1))
  {
    var r1 := CreateCreditRequest(s, seller, amount);
    var s1 := r1.value.0;
    if !HasPending(s.requests, seller, amount) {
      var n := |s.requests|;
      assert s1.requests[n] == r1.value.1;
      assert forall j :: 0 <= j < n ==> s1.requests[j] == s.requests[j];
    } else {
      match FirstPending(s.requests, seller, amount)
      case None =>
      case Some(j) =>
    }
  }

  /** A store that a call leaves unchanged stays unchanged under any repetition of it. */
  lemma {:induction false} RepeatFixpoint(s: State, c: Call, n: nat)
    requires WellFormedCall(c)
    requires Step(s, c) == s
    ensures Run(s, Repeat(c, n)) == s
  {
    if n > 0 {
      assert Repeat(c, n)[1..] == Repeat(c, n - 1);
      RepeatFixpoint(s, c, n - 1);
    }
  }

  /**
    Retrying the same create any number of times has the effect of creating
    once: identical pending requests collapse into one.
   */
  lemma RetriedCreatesCollapse(s: State, seller: SellerId, amount: Cents, n: nat)
    requires ValidAmount(amount)
    requires n >= 1
    ensures Run(s, Repeat(CreateRequest(seller, amount), n)) == Step(s, CreateRequest(seller, amount))
    ensures |Run(s, Repeat(CreateRequest(seller, amount), n)).requests| <= |s.requests| + 1
  {
    var c := CreateRequest(seller, amount);
    var s1 := Step(s, c);
    if seller in s.sellers {
      CreateIsIdempotent(s, seller, amount);
    }
    assert Step(s1, c) == s1;
    assert Repeat(c, n)[1..] == Repeat(c, n - 1);
    RepeatFixpoint(s1, c, n - 1);
  }

  /**
    Approving a request a second time fails with a fault and changes
    nothing, so the balance is raised once.
   */
  lemma ApproveTwiceCreditsOnce(s: State, requestId: nat)
    requires ApproveCreditRequest(s, requestId).Success?
    ensures var s1 := ApproveCreditRequest(s, requestId).value.0;
      && ApproveCreditRequest(s1, requestId) == Failure(UnhandledFault(UndefinedName))
      && Step(s1, ApproveRequest(requestId)) == s1
      && s1.sellers[RequestOf(s, requestId).seller].balance
         == s.sellers[RequestOf(s, requestId).seller].balance + RequestOf(s, requestId).amount
  {
  }

  /**
    Approving the same request any number of times credits it once: the
    first approval commits and every later one fails without effect.
   */
  lemma RepeatedApprovalsCreditOnce(s: State, requestId: nat, m: nat)
    requires ApproveCreditRequest(s, requestId).Success?
    requires m >= 1
    ensures Run(s, Repeat(ApproveRequest(requestId), m)) == ApproveCreditRequest(s, requestId).value.0
  {
    var c := ApproveRequest(requestId);
    RunRepeatUnfold(s, c, m);
    ApproveTwiceCreditsOnce(s, requestId);
    RepeatFixpoint(Step(s, c), c, m - 1);
  }

  /** One round of the credit flow: create a request and approve the one returned. */
  function CreateThenApprove(s: State, seller: SellerId, amount: Cents): State
    requires ValidAmount(amount)
  {
    var r := CreateCreditRequest(s, seller, amount);
    if r.Failure? then s else Step(r.value.0, ApproveRequest(r.value.1.id))
  }

  /** On a valid store one round raises the seller's balance by exactly `amount` and nothing else. */
  lemma CreateThenApproveCredits(s: State, seller: SellerId, amount: Cents)
    requires Valid(s)
    requires ValidAmount(amount)
    requires seller in s.sellers
    requires s.sellers[seller].balance + amount < MaxCents
    ensures var s' := CreateThenApprove(s, seller, amount);
      && Valid(s')
      && s'.sellers.Keys == s.sellers.Keys
      && s'.sellers[seller].balance == s.sellers[seller].balance + amount
      && (forall sid :: sid in s.sellers && sid != seller ==> s'.sellers[sid] == s.sellers[sid])
      && |s'.ledger| == |s.ledger| + 1
  {
    var r := CreateCreditRequest(s, seller, amount);
    var s1 := r.value.0;
    var req := r.value.1;
    CreatePreservesValid(s, seller, amount);
    if HasPending(s.requests, seller, amount) {
      var j :| 0 <= j < |s.requests| && s.requests[j] == req;
      assert RequestWellFormed(s, j);
    } else {
      assert RequestWellFormed(s1, |s.requests|);
    }
    assert Found(s1, req.id) && RequestOf(s1, req.id) == req;
    assert ApproveCreditRequest(s1, req.id).Success?;
    ApprovePreservesValid(s1, req.id);
  }

  /** `k` rounds of the credit flow for one seller and amount. */
  function CreditRounds(s: State, seller: SellerId, amount: Cents, k: nat): State
    requires ValidAmount(amount)
    decreases k
  {
    if k == 0 then s else CreditRounds(CreateThenApprove(s, seller, amount), seller, amount, k - 1)
  }

  /** `k` copies of `a` added up. */
  function Times(k: nat, a: int): int {
    if k == 0 then 0 else Times(k - 1, a) + a
  }

  lemma {:induction false} TimesIsProduct(k: nat, a: int)
    ensures Times(k, a) == k * a
  {
    if k > 0 {
      TimesIsProduct(k - 1, a);
    }
  }

  lemma {:induction false} TimesAtLeast(k: nat, a: int)
    requires k > 0 && a > 0
    ensures a <= Times(k, a)
  {
    if k > 1 {
      TimesAtLeast(k - 1, a);
    }
  }

  /** `k` create-then-approve rounds of `amount` raise the balance by k * amount, one ledger entry each. */
  lemma {:induction false} CreditRoundsAddUp(s: State, seller: SellerId, amount: Cents, k: nat)
    requires Valid(s)
    requires ValidAmount(amount)
    requires seller in s.sellers
    requires s.sellers[seller].balance + Times(k, amount) < MaxCents
    ensures var s' := CreditRounds(s, seller, amount, k);
      && Valid(s')
      && seller in s'.sellers
      && s'.sellers[seller].balance == s.sellers[seller].balance + Times(k, amount)
      && |s'.ledger| == |s.ledger| + k
    decreases k
  {
    if k > 0 {
      TimesAtLeast(k, amount);
      CreateThenApproveCredits(s, seller, amount);
      CreditRoundsAddUp(CreateThenApprove(s, seller, amount), seller, amount, k - 1);
    }
  }

  lemma RunRepeatUnfold(s: State, c: Call, n: nat)
    requires WellFormedCall(c)
    requires n > 0
    ensures Run(s, Repeat(c, n)) == Run(Step(s, c), Repeat(c, n - 1))
  {
    assert Repeat(c, n)[1..] == Repeat(c, n - 1);
  }

  /** A charge the balance covers debits it and records one sale and one entry. */
  lemma ChargeOnce(s: State, seller: SellerId, phone: PhoneId, amount: Cents)
    requires ValidAmount(amount)
    requires PhoneUsable(s, phone)
    requires seller in s.sellers
    requires amount <= s.sellers[seller].balance < MaxCents
    ensures var s1 := Step(s, Charge(seller, phone, amount));
      && PhoneUsable(s1, phone)
      && seller in s1.sellers
      && s1.sellers[seller].balance == s.sellers[seller].balance - amount
      && |s1.sales| == |s.sales| + 1
      && |s1.ledger| == |s.ledger| + 1
  {
  }

  /** A charge the balance does not cover is refused and leaves the store as it was. */
  lemma ChargeRefused(s: State, seller: SellerId, phone: PhoneId, amount: Cents)
    requires ValidAmount(amount)
    requires seller in s.sellers
    requires s.sellers[seller].balance < amount
    ensures Step(s, Charge(seller, phone, amount)) == s
  {
  }

  /** `n` charges whose total the balance covers all succeed and debit exactly n * amount. */
  lemma {:induction false} ChargesWithinBalance(s: State, seller: SellerId, phone: PhoneId, amount: Cents, n: nat)
    requires ValidAmount(amount)
    requires PhoneUsable(s, phone)
    requires seller in s.sellers
    requires Times(n, amount) <= s.sellers[seller].balance < MaxCents
    ensures var s' := Run(s, Repeat(Charge(seller, phone, amount), n));
      && seller in s'.sellers
      && s'.sellers[seller].balance == s.sellers[seller].balance - Times(n, amount)
      && |s'.sales| == |s.sales| + n
      && |s'.ledger| == |s.ledger| + n
    decreases n
  {
    if n > 0 {
      var c := Charge(seller, phone, amount);
      RunRepeatUnfold(s, c, n);
      TimesAtLeast(n, amount);
      ChargeOnce(s, seller, phone, amount);
      ChargesWithinBalance(Step(s, c), seller, phone, amount, n - 1);
    }
  }

  /** How many charges of `amount` a balance of `b` covers, one after another. */
  function Affordable(b: Cents, amount: Cents): (k: nat)
    requires amount > 0
    ensures b < 0 || Times(k, amount) <= b
    ensures b < Times(k, amount) + amount
    decreases b
  {
    if b < amount then 0 else 1 + Affordable(b - amount, amount)
  }

  /** Affordable is the quotient: the q with q * amount <= b < (q + 1) * amount. */
  lemma {:induction false} AffordableIsQuotient(b: Cents, amount: Cents, q: nat)
    requires amount > 0
    requires Times(q, amount) <= b < Times(q, amount) + amount
    ensures Affordable(b, amount) == q
    decreases q
  {
    if q > 0 {
      TimesAtLeast(q, amount);
      AffordableIsQuotient(b - amount, amount, q - 1);
    }
  }

  function Min(a: nat, b: nat): nat {
    if a <= b then a else b
  }

  /**
    Charging repeatedly: each charge succeeds while the balance covers it, so
    `n` charges of `amount` debit min(n, Affordable(balance, amount)) of them
    and the rest fail without effect.
   */
  lemma {:induction false} RepeatedChargesDebit(s: State, seller: SellerId, phone: PhoneId, amount: Cents, n: nat)
    requires ValidAmount(amount)
    requires PhoneUsable(s, phone)
    requires seller in s.sellers
    requires 0 <= s.sellers[seller].balance < MaxCents
    ensures var s' := Run(s, Repeat(Charge(seller, phone, amount), n));
      var succeeded := Min(n, Affordable(s.sellers[seller].balance, amount));
      && seller in s'.sellers
      && s'.sellers[seller].balance == s.sellers[seller].balance - Times(succeeded, amount)
      && |s'.sales| == |s.sales| + succeeded
      && |s'.ledger| == |s.ledger| + succeeded
    decreases n
  {
    var c := Charge(seller, phone, amount);
    var b := s.sellers[seller].balance;
    if n > 0 {
      RunRepeatUnfold(s, c, n);
      if b < amount {
        ChargeRefused(s, seller, phone, amount);
        RepeatFixpoint(s, c, n - 1);
      } else {
        ChargeOnce(s, seller, phone, amount);
        RepeatedChargesDebit(Step(s, c), seller, phone, amount, n - 1);
        assert Min(n, Affordable(b, amount)) == Min(n - 1, Affordable(b - amount, amount)) + 1;
      }
    }
  }

  /** Charging exactly the remaining balance succeeds and leaves zero. */
  lemma ChargeExactBalance(s: State, seller: SellerId, phone: PhoneId)
    requires PhoneUsable(s, phone)
    requires seller in s.sellers
    requires ValidAmount(s.sellers[seller].balance)
    ensures var r := ChargePhone(s, seller, phone, s.sellers[seller].balance);
      r.Success? && r.value.0.sellers[seller].balance == 0
  {
  }

  /**
    Which usable phone a charge names affects only the phone recorded on the
    sale: whether it succeeds, and the balances and ledger it leaves, are the
    same. The tests rotate their charges over several active phones; the
    scenarios below charge one, which this makes equivalent.
   */
  lemma ChargeIgnoresWhichPhone(s: State, seller: SellerId, p: PhoneId, q: PhoneId, amount: Cents)
    requires ValidAmount(amount)
    requires PhoneUsable(s, p) && PhoneUsable(s, q)
    ensures ChargePhone(s, seller, p, amount).Success? == ChargePhone(s, seller, q, amount).Success?
    ensures ChargePhone(s, seller, p, amount).Success? ==>
      && Step(s, Charge(seller, p, amount)).sellers == Step(s, Charge(seller, q, amount)).sellers
      && Step(s, Charge(seller, p, amount)).ledger == Step(s, Charge(seller, q, amount)).ledger
      && |Step(s, Charge(seller, p, amount)).sales| == |Step(s, Charge(seller, q, amount)).sales|
  {
  }

  /**
    The comprehensive scenario as the code runs it, from a seller at zero with
    no requests stored: ten identical creates of 100,000.00 make one request;
    its first approval credits it; the second approval raises the undefined-name
    fault, which ends the scenario there. Had the faults been caught, ten
    approvals would leave the store of the first, and 500 charges of 5000.00
    from the 100,000.00 credited would succeed exactly 20 times and end at zero.
    The test rotates over ten phones; one usable phone gives the same balances
    (`ChargeIgnoresWhichPhone`).
   */
  lemma ComprehensiveScenarioAsWritten(s: State, seller: SellerId, phone: PhoneId)
    requires seller in s.sellers && s.sellers[seller].balance == 0
    requires s.requests == []
    requires PhoneUsable(s, phone)
    ensures var created := Run(s, Repeat(CreateRequest(seller, 10_000_000), 10));
      var approved := Step(created, ApproveRequest(1));
      && |created.requests| == 1
      && ApproveCreditRequest(created, 1).Success?
      && ApproveCreditRequest(approved, 1) == Failure(UnhandledFault(UndefinedName))
      && Run(created, Repeat(ApproveRequest(1), 10)) == approved
      && seller in approved.sellers
      && approved.sellers[seller].balance == 10_000_000
    ensures var approved := Step(Run(s, Repeat(CreateRequest(seller, 10_000_000), 10)), ApproveRequest(1));
      var charged := Run(approved, Repeat(Charge(seller, phone, 500_000), 500));
      && seller in charged.sellers
      && charged.sellers[seller].balance == 0
      && |charged.sales| == |s.sales| + 20
  {
    var created := Run(s, Repeat(CreateRequest(seller, 10_000_000), 10));
    RetriedCreatesCollapse(s, seller, 10_000_000, 10);
    assert created.requests == [CreditRequest(1, seller, 10_000_000, Pending, false)];
    assert ApproveCreditRequest(created, 1).Success?;
    RepeatedApprovalsCreditOnce(created, 1, 10);
    var approved := Step(created, ApproveRequest(1));
    TimesIsProduct(20, 500_000);
    TimesIsProduct(21, 500_000);
    AffordableIsQuotient(10_000_000, 500_000, 20);
    RepeatedChargesDebit(approved, seller, phone, 500_000, 500);
  }

  /**
    500 charges of 5000.00 from 1,000,000.00: the balance covers exactly 200
    of them, so it ends at zero with 200 sales, and the other 300 fail. One
    usable phone stands for the test's ten (`ChargeIgnoresWhichPhone`).
   */
  lemma FiveHundredSalesScenario(s: State, seller: SellerId, phone: PhoneId)
    requires PhoneUsable(s, phone)
    requires seller in s.sellers
    requires s.sellers[seller].balance == 100_000_000
    ensures var s' := Run(s, Repeat(Charge(seller, phone, 500_000), 500));
      && seller in s'.sellers
      && s'.sellers[seller].balance == 0
      && |s'.sales| == |s.sales| + 200
  {
    TimesIsProduct(200, 500_000);
    TimesIsProduct(201, 500_000);
    AffordableIsQuotient(100_000_000, 500_000, 200);
    RepeatedChargesDebit(s, seller, phone, 500_000, 500);
  }

  /** 100 charges of 1000.00 from 1,000,000.00 all succeed and leave 900,000.00. */
  lemma HundredChargesScenario(s: State, seller: SellerId, phone: PhoneId)
    requires PhoneUsable(s, phone)
    requires seller in s.sellers
    requires s.sellers[seller].balance == 100_000_000
    ensures var s' := Run(s, Repeat(Charge(seller, phone, 100_000), 100));
      seller in s'.sellers && s'.sellers[seller].balance == 90_000_000 && |s'.sales| == |s.sales| + 100
  {
    TimesIsProduct(100, 100_000);
    ChargesWithinBalance(s, seller, phone, 100_000, 100);
  }

  /**
    1000 charges of 100.00 from 10,000,000.00 all succeed, each with its own
    ledger entry. One usable phone stands for the test's twenty
    (`ChargeIgnoresWhichPhone`).
   */
  lemma ThousandChargesScenario(s: State, seller: SellerId, phone: PhoneId)
    requires PhoneUsable(s, phone)
    requires seller in s.sellers
    requires s.sellers[seller].balance == 1_000_000_000
    ensures var s' := Run(s, Repeat(Charge(seller, phone, 10_000), 1000));
      && seller in s'.sellers
      && s'.sellers[seller].balance == 990_000_000
      && |s'.ledger| == |s.ledger| + 1000
  {
    TimesIsProduct(1000, 10_000);
    ChargesWithinBalance(s, seller, phone, 10_000, 1000);
  }

  /** Five rounds of 200,000.00 from zero reach 1,000,000.00 when each request is approved before the next is created. */
  lemma FiveCreditRoundsScenario(s: State, seller: SellerId)
    requires Valid(s)
    requires seller in s.sellers
    requires s.sellers[seller].balance == 0
    ensures var s' := CreditRounds(s, seller, 20_000_000, 5);
      seller in s'.sellers && s'.sellers[seller].balance == 100_000_000
  {
    TimesIsProduct(5, 20_000_000);
    CreditRoundsAddUp(s, seller, 20_000_000, 5);
  }
}

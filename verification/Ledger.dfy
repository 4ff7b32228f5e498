/**
 The books of the mining pool: shares earn money for addresses, payouts are requested when
 enough has gathered, and the wallet pays them.
 */
module Ledger {
  import opened Amounts
  import opened Common

  const FINAL_PAYOUT_MIN: int := 10_000_000

  datatype Share = Share(addr: string, value: nat, accounted: bool)

  datatype Account = Account(balance: int, requested: int, paid: int, minPayout: int, blocked: bool)

  const NEW_ACCOUNT := Account(0, 0, 0, 0, false)

  datatype Request = Request(time: int, addr: string, amount: int)

  datatype Payment = Payment(addr: string, amount: int)

  /** What the wallet is asked, and its answer: what it holds, or whether it sends a payment. */
  datatype Answer = Holds(amount: int) | Sends(payment: Payment, ok: bool)

  /** What becomes of a request: the wallet sends it, it is dropped because its address is invalid, or it stays. */
  datatype Fate = Paid | Dropped | Kept

  // ---------- sums over the tables ----------

  /** What the accounted shares of an address are worth. */
  function Earned(shares: seq<Share>, a: string): nat {
    if shares == [] then 0
    else (if shares[0].accounted && shares[0].addr == a then shares[0].value else 0) + Earned(shares[1..], a)
  }

  /** What shares of an address still to be accounted are worth. */
  function Unaccounted(shares: seq<Share>, a: string): nat {
    if shares == [] then 0
    else (if !shares[0].accounted && shares[0].addr == a then shares[0].value else 0) + Unaccounted(shares[1..], a)
  }

  function Pending(requests: seq<Request>, a: string): int {
    if requests == [] then 0
    else (if requests[0].addr == a then requests[0].amount else 0) + Pending(requests[1..], a)
  }

  function PaidTo(payments: seq<Payment>, a: string): int {
    if payments == [] then 0
    else (if payments[0].addr == a then payments[0].amount else 0) + PaidTo(payments[1..], a)
  }

  function Counted(shares: seq<Share>, i: nat): seq<Share>
    requires i < |shares|
  {
    shares[i := shares[i].(accounted := true)]
  }

  lemma CountedAddr(shares: seq<Share>, i: nat)
    requires i < |shares|
    ensures |Counted(shares, i)| == |shares|
    ensures forall j :: 0 <= j < |shares| ==>
              Counted(shares, i)[j] == if j == i then shares[i].(accounted := true) else shares[j]
  {
  }

  lemma {:induction false} CountedSums(shares: seq<Share>, i: nat, a: string)
    requires i < |shares| && !shares[i].accounted
    ensures Earned(Counted(shares, i), a) == Earned(shares, a) + if shares[i].addr == a then shares[i].value else 0
    ensures Unaccounted(Counted(shares, i), a) == Unaccounted(shares, a) - if shares[i].addr == a then shares[i].value else 0
  {
    if i == 0 {
      assert Counted(shares, 0)[1..] == shares[1..];
    } else {
      assert Counted(shares, i)[1..] == Counted(shares[1..], i - 1);
      CountedSums(shares[1..], i - 1, a);
    }
  }

  lemma {:induction false} SharesAppended(shares: seq<Share>, s: Share, a: string)
    requires !s.accounted
    ensures Earned(shares + [s], a) == Earned(shares, a)
    ensures Unaccounted(shares + [s], a) == Unaccounted(shares, a) + if s.addr == a then s.value else 0
  {
    if shares == [] {
      assert shares + [s] == [s];
    } else {
      assert (shares + [s])[1..] == shares[1..] + [s];
      SharesAppended(shares[1..], s, a);
    }
  }

  lemma {:induction false} NothingUnaccounted(shares: seq<Share>, a: string)
    requires forall i :: 0 <= i < |shares| ==> shares[i].accounted
    ensures Unaccounted(shares, a) == 0
  {
    if shares != [] {
      NothingUnaccounted(shares[1..], a);
    }
  }

  lemma {:induction false} NothingEarned(shares: seq<Share>, a: string)
    requires forall i :: 0 <= i < |shares| && shares[i].accounted ==> shares[i].addr != a
    ensures Earned(shares, a) == 0
  {
    if shares != [] {
      NothingEarned(shares[1..], a);
    }
  }

  lemma {:induction false} NothingPending(requests: seq<Request>, a: string)
    requires forall i :: 0 <= i < |requests| ==> requests[i].addr != a
    ensures Pending(requests, a) == 0
  {
    if requests != [] {
      NothingPending(requests[1..], a);
    }
  }

  lemma {:induction false} NothingPaid(payments: seq<Payment>, a: string)
    requires forall i :: 0 <= i < |payments| ==> payments[i].addr != a
    ensures PaidTo(payments, a) == 0
  {
    if payments != [] {
      NothingPaid(payments[1..], a);
    }
  }

  lemma {:induction false} PendingJoined(x: seq<Request>, y: seq<Request>, a: string)
    ensures Pending(x + y, a) == Pending(x, a) + Pending(y, a)
  {
    if x == [] {
      assert x + y == y;
    } else {
      assert (x + y)[1..] == x[1..] + y;
      PendingJoined(x[1..], y, a);
    }
  }

  lemma {:induction false} PendingIsPositive(requests: seq<Request>, a: string)
    requires forall i :: 0 <= i < |requests| ==> requests[i].amount >= 0
    ensures Pending(requests, a) >= 0
  {
    if requests != [] {
      PendingIsPositive(requests[1..], a);
    }
  }

  function Without(requests: seq<Request>, k: nat): seq<Request>
    requires k < |requests|
  {
    requests[..k] + requests[k + 1..]
  }

  /** Taking out a request takes its amount from what is pending, and leaves no less than nothing. */
  lemma PendingWithout(requests: seq<Request>, k: nat, a: string)
    requires k < |requests| && forall i :: 0 <= i < |requests| ==> requests[i].amount >= 0
    ensures var r := requests[k];
            Pending(Without(requests, k), a) == Pending(requests, a) - if r.addr == a then r.amount else 0
    ensures Pending(Without(requests, k), a) >= 0
  {
    var front, back := requests[..k], requests[k + 1..];
    assert requests == front + ([requests[k]] + back);
    PendingJoined(front, [requests[k]] + back, a);
    PendingJoined(front, back, a);
    assert ([requests[k]] + back)[1..] == back;
    PendingIsPositive(Without(requests, k), a);
  }

  /** What an address with a valid name is paid and still has pending is conserved. */
  ghost predicate Settles(valid: string -> bool, requests: seq<Request>, payments: seq<Payment>,
                          requests': seq<Request>, payments': seq<Payment>) {
    forall a :: valid(a) ==>
      PaidTo(payments', a) + Pending(requests', a) == PaidTo(payments, a) + Pending(requests, a)
  }

  lemma PaymentSettles(valid: string -> bool, requests: seq<Request>, payments: seq<Payment>, k: nat)
    requires k < |requests| && forall i :: 0 <= i < |requests| ==> requests[i].amount >= 0
    ensures var r := requests[k];
            Settles(valid, requests, payments, Without(requests, k), payments + [Payment(r.addr, r.amount)])
    ensures !valid(requests[k].addr) ==> Settles(valid, requests, payments, Without(requests, k), payments)
  {
    forall a
      ensures var r := requests[k];
              Pending(Without(requests, k), a) == Pending(requests, a) - if r.addr == a then r.amount else 0
      ensures var r := requests[k];
              PaidTo(payments + [Payment(r.addr, r.amount)], a) == PaidTo(payments, a) + if r.addr == a then r.amount else 0
    {
      PendingWithout(requests, k, a);
      PaidAppended(payments, Payment(requests[k].addr, requests[k].amount), a);
    }
  }

  lemma NothingSettles(valid: string -> bool, requests: seq<Request>, payments: seq<Payment>)
    ensures Settles(valid, requests, payments, requests, payments)
  {
  }

  lemma SettlesTwice(valid: string -> bool, r0: seq<Request>, p0: seq<Payment>, r1: seq<Request>, p1: seq<Payment>,
                     r2: seq<Request>, p2: seq<Payment>)
    requires Settles(valid, r0, p0, r1, p1) && Settles(valid, r1, p1, r2, p2)
    ensures Settles(valid, r0, p0, r2, p2)
  {
  }

  lemma {:induction false} PaidAppended(payments: seq<Payment>, p: Payment, a: string)
    ensures PaidTo(payments + [p], a) == PaidTo(payments, a) + if p.addr == a then p.amount else 0
  {
    if payments == [] {
      assert payments + [p] == [p];
    } else {
      assert (payments + [p])[1..] == payments[1..] + [p];
      PaidAppended(payments[1..], p, a);
    }
  }

  /** The requests that stay, and the payments made, when some requests meet their fates. */
  function KeptOf(requests: seq<Request>, fates: seq<Fate>): seq<Request>
    requires |fates| <= |requests|
  {
    if fates == [] then []
    else
      var n := |fates| - 1;
      KeptOf(requests, fates[..n]) + if fates[n].Kept? then [requests[n]] else []
  }

  function PaidOf(requests: seq<Request>, fates: seq<Fate>): seq<Payment>
    requires |fates| <= |requests|
  {
    if fates == [] then []
    else
      var n := |fates| - 1;
      PaidOf(requests, fates[..n]) + if fates[n].Paid? then [Payment(requests[n].addr, requests[n].amount)] else []
  }

  lemma LeftToDo(start: seq<Request>, fates: seq<Fate>, requests: seq<Request>)
    requires |fates| <= |start| && requests == KeptOf(start, fates) + start[|fates|..]
    ensures |requests| - |KeptOf(start, fates)| == |start| - |fates|
  {
  }

  /** How one more fate changes the requests that are left. */
  lemma FateStep(start: seq<Request>, fates: seq<Fate>, fate: Fate, requests: seq<Request>)
    requires |fates| < |start| && requests == KeptOf(start, fates) + start[|fates|..]
    ensures |KeptOf(start, fates)| < |requests| && requests[|KeptOf(start, fates)|] == start[|fates|]
    ensures KeptOf(start, fates + [fate]) + start[|fates| + 1..]
            == if fate.Kept? then requests else Without(requests, |KeptOf(start, fates)|)
    ensures |KeptOf(start, fates + [fate])| == |KeptOf(start, fates)| + if fate.Kept? then 1 else 0
    ensures PaidOf(start, fates + [fate])
            == PaidOf(start, fates) + if fate.Paid? then [Payment(start[|fates|].addr, start[|fates|].amount)] else []
  {
    FateAdded(start, fates, fate);
    hide KeptOf, PaidOf;
    var kept, r, back := KeptOf(start, fates), start[|fates|], start[|fates| + 1..];
    assert start[|fates|..] == [r] + back;
    MiddleOut(kept, r, back, requests);
  }

  lemma FateAdded(start: seq<Request>, fates: seq<Fate>, fate: Fate)
    requires |fates| < |start|
    ensures var r := start[|fates|];
            && KeptOf(start, fates + [fate]) == KeptOf(start, fates) + (if fate.Kept? then [r] else [])
            && PaidOf(start, fates + [fate]) == PaidOf(start, fates) + if fate.Paid? then [Payment(r.addr, r.amount)] else []
  {
    assert (fates + [fate])[..|fates|] == fates;
  }

  lemma MiddleOut(front: seq<Request>, r: Request, back: seq<Request>, requests: seq<Request>)
    requires requests == front + ([r] + back)
    ensures |front| < |requests| && requests[|front|] == r
    ensures front + [r] + back == requests && front + [] + back == Without(requests, |front|)
  {
    assert requests[..|front|] == front && requests[|front| + 1..] == back;
  }

  // ---------- what the wallet is asked ----------

  /** The payments among the answers of the wallet. */
  function SentOf(answers: seq<Answer>): seq<Payment> {
    if answers == [] then []
    else
      var last := answers[|answers| - 1];
      SentOf(answers[..|answers| - 1]) + if last.Sends? && last.ok then [last.payment] else []
  }

  lemma SentOneMore(answers: seq<Answer>, answer: Answer)
    ensures SentOf(answers + [answer]) == SentOf(answers) + if answer.Sends? && answer.ok then [answer.payment] else []
  {
    assert (answers + [answer])[..|answers|] == answers;
  }

  /** What the wallet is asked about one request to a valid address: first what it holds, then to send it. */
  function AskedFor(valid: string -> bool, r: Request, fate: Fate, balance: int): seq<Answer> {
    if valid(r.addr) then [Holds(balance), Sends(Payment(r.addr, r.amount), fate.Paid?)] else []
  }

  function AskedOf(valid: string -> bool, requests: seq<Request>, fates: seq<Fate>, balances: seq<int>): seq<Answer>
    requires |balances| == |fates| <= |requests|
  {
    if fates == [] then []
    else
      var n := |fates| - 1;
      AskedOf(valid, requests, fates[..n], balances[..n]) + AskedFor(valid, requests[n], fates[n], balances[n])
  }

  /** The amount of a request moves from balance and requested to paid. */
  function AfterPayment(acc: Account, amount: int): Account {
    acc.(balance := acc.balance - amount, requested := acc.requested - amount, paid := acc.paid + amount)
  }

  /** The accounts after a request met its fate; an invalid address is blocked. */
  function AccountsAfter(accounts: map<string, Account>, r: Request, fate: Fate): map<string, Account> {
    if r.addr !in accounts then accounts
    else
      match fate
      case Paid => accounts[r.addr := AfterPayment(accounts[r.addr], r.amount)]
      case Dropped => accounts[r.addr := accounts[r.addr].(blocked := true)]
      case Kept => accounts
  }

  function AccountsOf(accounts: map<string, Account>, requests: seq<Request>, fates: seq<Fate>): map<string, Account>
    requires |fates| <= |requests|
  {
    if fates == [] then accounts
    else
      var n := |fates| - 1;
      AccountsAfter(AccountsOf(accounts, requests, fates[..n]), requests[n], fates[n])
  }

  /** The tables that payouts work on, and what the wallet answered so far. */
  datatype Purse = Purse(accounts: map<string, Account>, requests: seq<Request>, payments: seq<Payment>, answers: seq<Answer>)

  /** All tables after some first requests met their fates, the wallet holding some balance at each of them. */
  function AfterFates(valid: string -> bool, p: Purse, fates: seq<Fate>, balances: seq<int>): Purse
    requires |balances| == |fates| <= |p.requests|
  {
    Purse(AccountsOf(p.accounts, p.requests, fates), KeptOf(p.requests, fates) + p.requests[|fates|..],
          p.payments + PaidOf(p.requests, fates), p.answers + AskedOf(valid, p.requests, fates, balances))
  }

  /** A request is dropped exactly if its address is invalid; of the others, the wallet is asked to send those it can cover. */
  ghost predicate FatesFit(valid: string -> bool, requests: seq<Request>, fates: seq<Fate>, balances: seq<int>) {
    && |balances| == |fates| <= |requests|
    && (forall i :: 0 <= i < |fates| ==> (fates[i].Dropped? <==> !valid(requests[i].addr)))
    && forall i :: 0 <= i < |fates| && valid(requests[i].addr) ==> balances[i] - requests[i].amount >= COIN
  }

  /** Some first requests have met their fates, and these are the tables now. */
  ghost predicate Reached(valid: string -> bool, start: Purse, fates: seq<Fate>, balances: seq<int>, now: Purse) {
    && FatesFit(valid, start.requests, fates, balances)
    && now == AfterFates(valid, start, fates, balances)
    && Settles(valid, start.requests, start.payments, now.requests, now.payments)
  }

  lemma ReachedMeans(valid: string -> bool, start: Purse, fates: seq<Fate>, balances: seq<int>, now: Purse)
    requires Reached(valid, start, fates, balances, now)
    ensures FatesFit(valid, start.requests, fates, balances) && |balances| == |fates| <= |start.requests|
    ensures now == AfterFates(valid, start, fates, balances)
    ensures Settles(valid, start.requests, start.payments, now.requests, now.payments)
  {
  }

  lemma ReachedFirst(valid: string -> bool, p: Purse)
    ensures Reached(valid, p, [], [], p) && KeptOf(p.requests, []) == []
  {
    NothingSettles(valid, p.requests, p.payments);
  }

  /** Where the next request is, if any is left. */
  lemma ReachedNext(valid: string -> bool, start: Purse, fates: seq<Fate>, balances: seq<int>, now: Purse)
    requires Reached(valid, start, fates, balances, now)
    ensures |fates| <= |start.requests|
    ensures var k := |KeptOf(start.requests, fates)|;
            if k < |now.requests| then |fates| < |start.requests| && now.requests[k] == start.requests[|fates|]
            else |fates| == |start.requests|
  {
    hide KeptOf, PaidOf, AskedOf, AccountsOf, Settles;
    LeftToDo(start.requests, fates, now.requests);
    if |fates| < |start.requests| {
      FateStep(start.requests, fates, Kept, now.requests);
    }
  }

  /** What one request does to all tables. */
  function AfterFate(valid: string -> bool, p: Purse, k: nat, fate: Fate, balance: int): Purse
    requires k < |p.requests|
  {
    var r := p.requests[k];
    Purse(AccountsAfter(p.accounts, r, fate), if fate.Kept? then p.requests else Without(p.requests, k),
          p.payments + (if fate.Paid? then [Payment(r.addr, r.amount)] else []),
          p.answers + AskedFor(valid, r, fate, balance))
  }

  lemma AskedAdded(valid: string -> bool, requests: seq<Request>, fates: seq<Fate>, balances: seq<int>, fate: Fate, balance: int)
    requires |balances| == |fates| < |requests|
    ensures AskedOf(valid, requests, fates + [fate], balances + [balance])
            == AskedOf(valid, requests, fates, balances) + AskedFor(valid, requests[|fates|], fate, balance)
  {
    hide AskedFor;
    assert (fates + [fate])[..|fates|] == fates && (balances + [balance])[..|fates|] == balances;
  }

  lemma AccountsAdded(accounts: map<string, Account>, requests: seq<Request>, fates: seq<Fate>, fate: Fate)
    requires |fates| < |requests|
    ensures AccountsOf(accounts, requests, fates + [fate])
            == AccountsAfter(AccountsOf(accounts, requests, fates), requests[|fates|], fate)
  {
    hide AccountsAfter;
    assert (fates + [fate])[..|fates|] == fates;
  }

  lemma AfterFatesStep(valid: string -> bool, start: Purse, fates: seq<Fate>, balances: seq<int>, now: Purse,
                       fate: Fate, balance: int)
    requires |balances| == |fates| < |start.requests| && now == AfterFates(valid, start, fates, balances)
    ensures |KeptOf(start.requests, fates)| < |now.requests|
    ensures AfterFates(valid, start, fates + [fate], balances + [balance])
            == AfterFate(valid, now, |KeptOf(start.requests, fates)|, fate, balance)
    ensures |KeptOf(start.requests, fates + [fate])| == |KeptOf(start.requests, fates)| + if fate.Kept? then 1 else 0
  {
    hide KeptOf, PaidOf, Without, AskedFor, AskedOf, AccountsAfter, AccountsOf;
    FateStep(start.requests, fates, fate, now.requests);
    AskedAdded(valid, start.requests, fates, balances, fate, balance);
    AccountsAdded(start.accounts, start.requests, fates, fate);
    var r := start.requests[|fates|];
    Appended(start.payments, PaidOf(start.requests, fates), if fate.Paid? then [Payment(r.addr, r.amount)] else []);
    Appended(start.answers, AskedOf(valid, start.requests, fates, balances), AskedFor(valid, r, fate, balance));
  }

  lemma Appended<T>(a: seq<T>, b: seq<T>, c: seq<T>)
    ensures a + b + c == a + (b + c)
  {
  }

  lemma ReachedStep(valid: string -> bool, start: Purse, fates: seq<Fate>, balances: seq<int>, now: Purse,
                    fate: Fate, balance: int, next: Purse)
    requires Reached(valid, start, fates, balances, now) && |KeptOf(start.requests, fates)| < |now.requests|
    requires var k := |KeptOf(start.requests, fates)|;
             && (fate.Dropped? <==> !valid(now.requests[k].addr))
             && (valid(now.requests[k].addr) ==> balance - now.requests[k].amount >= COIN)
             && next == AfterFate(valid, now, k, fate, balance)
    requires Settles(valid, now.requests, now.payments, next.requests, next.payments)
    ensures Reached(valid, start, fates + [fate], balances + [balance], next)
    ensures |KeptOf(start.requests, fates + [fate])| == |KeptOf(start.requests, fates)| + if fate.Kept? then 1 else 0
  {
    hide KeptOf, PaidOf, Settles, AfterFates, AfterFate;
    ReachedNext(valid, start, fates, balances, now);
    AfterFatesStep(valid, start, fates, balances, now, fate, balance);
    hide AskedOf, AccountsOf;
    SettlesTwice(valid, start.requests, start.payments, now.requests, now.payments, next.requests, next.payments);
  }

  // ---------- what the books keep ----------

  /** What is so of an account at all times, given what its address earned, was paid and has pending. */
  predicate Sound(acc: Account, earned: int, paid: int, pending: int) {
    && acc.balance + acc.paid == earned
    && acc.paid == paid
    && 0 <= acc.requested <= acc.balance
    && 0 <= pending <= acc.requested
    && (!acc.blocked ==> pending == acc.requested)
  }

  /** The tables, and every account against them. */
  ghost predicate Books(accounts: map<string, Account>, shares: seq<Share>,
                        requests: seq<Request>, payments: seq<Payment>) {
    && (forall a :: a in accounts ==>
          Sound(accounts[a], Earned(shares, a), PaidTo(payments, a), Pending(requests, a)))
    && (forall i :: 0 <= i < |shares| && shares[i].accounted ==> shares[i].addr in accounts)
    && (forall i :: 0 <= i < |requests| ==> requests[i].addr in accounts && requests[i].amount >= 0)
    && (forall i :: 0 <= i < |payments| ==> payments[i].addr in accounts)
  }

  /** An account opened now, or the one there is. */
  function Opened(accounts: map<string, Account>, a: string): Account {
    if a in accounts then accounts[a] else NEW_ACCOUNT
  }

  /** An address without an account has nothing in any table. */
  lemma OpenedIsSound(accounts: map<string, Account>, shares: seq<Share>,
                      requests: seq<Request>, payments: seq<Payment>, a: string)
    requires Books(accounts, shares, requests, payments)
    ensures Sound(Opened(accounts, a), Earned(shares, a), PaidTo(payments, a), Pending(requests, a))
    ensures Books(accounts[a := Opened(accounts, a)], shares, requests, payments)
  {
    hide Sound, Earned, PaidTo, Pending;
    if a !in accounts {
      NothingEarned(shares, a);
      NothingPending(requests, a);
      NothingPaid(payments, a);
    }
    NewIsSound();
    var accounts' := accounts[a := Opened(accounts, a)];
    forall b | b in accounts'
      ensures Sound(accounts'[b], Earned(shares, b), PaidTo(payments, b), Pending(requests, b))
    {
    }
  }

  lemma NewIsSound()
    ensures Sound(NEW_ACCOUNT, 0, 0, 0)
  {
  }

  lemma BooksCredited(accounts: map<string, Account>, shares: seq<Share>,
                      requests: seq<Request>, payments: seq<Payment>, i: nat)
    requires Books(accounts, shares, requests, payments)
    requires i < |shares| && !shares[i].accounted && shares[i].addr in accounts
    ensures var acc := accounts[shares[i].addr];
            Books(accounts[shares[i].addr := acc.(balance := acc.balance + shares[i].value)],
                  Counted(shares, i), requests, payments)
  {
    hide Sound;
    var s := shares[i];
    var acc := accounts[s.addr];
    var accounts' := accounts[s.addr := acc.(balance := acc.balance + s.value)];
    forall a | a in accounts'
      ensures Sound(accounts'[a], Earned(Counted(shares, i), a), PaidTo(payments, a), Pending(requests, a))
    {
      CountedSums(shares, i, a);
      SoundCredited(acc, Earned(shares, s.addr), PaidTo(payments, s.addr), Pending(requests, s.addr), s.value);
    }
  }

  lemma SoundCredited(acc: Account, earned: int, paid: int, pending: int, value: nat)
    requires Sound(acc, earned, paid, pending)
    ensures Sound(acc.(balance := acc.balance + value), earned + value, paid, pending)
  {
  }

  lemma BooksRequested(accounts: map<string, Account>, shares: seq<Share>,
                       requests: seq<Request>, payments: seq<Payment>, r: Request)
    requires Books(accounts, shares, requests, payments)
    requires r.addr in accounts && 0 <= r.amount <= accounts[r.addr].balance - accounts[r.addr].requested
    ensures var acc := accounts[r.addr];
            Books(accounts[r.addr := acc.(requested := acc.requested + r.amount)], shares, requests + [r], payments)
  {
    hide Sound;
    var acc := accounts[r.addr];
    var accounts' := accounts[r.addr := acc.(requested := acc.requested + r.amount)];
    forall a | a in accounts'
      ensures Sound(accounts'[a], Earned(shares, a), PaidTo(payments, a), Pending(requests + [r], a))
    {
      PendingJoined(requests, [r], a);
      SoundRequested(acc, Earned(shares, r.addr), PaidTo(payments, r.addr), Pending(requests, r.addr), r.amount);
    }
  }

  lemma SoundRequested(acc: Account, earned: int, paid: int, pending: int, amount: nat)
    requires Sound(acc, earned, paid, pending) && amount <= acc.balance - acc.requested
    ensures Sound(acc.(requested := acc.requested + amount), earned, paid, pending + amount)
  {
  }

  lemma BooksPaid(accounts: map<string, Account>, shares: seq<Share>,
                  requests: seq<Request>, payments: seq<Payment>, k: nat)
    requires Books(accounts, shares, requests, payments) && k < |requests|
    ensures var r := requests[k];
            Books(accounts[r.addr := AfterPayment(accounts[r.addr], r.amount)], shares, Without(requests, k),
                  payments + [Payment(r.addr, r.amount)])
  {
    hide Sound;
    var r := requests[k];
    var acc := accounts[r.addr];
    var accounts' := accounts[r.addr := AfterPayment(acc, r.amount)];
    forall a | a in accounts'
      ensures Sound(accounts'[a], Earned(shares, a), PaidTo(payments + [Payment(r.addr, r.amount)], a),
                    Pending(Without(requests, k), a))
    {
      PendingWithout(requests, k, a);
      PendingWithout(requests, k, r.addr);
      PaidAppended(payments, Payment(r.addr, r.amount), a);
      SoundPaid(acc, Earned(shares, r.addr), PaidTo(payments, r.addr), Pending(requests, r.addr), r.amount);
    }
  }

  lemma SoundPaid(acc: Account, earned: int, paid: int, pending: int, amount: nat)
    requires Sound(acc, earned, paid, pending) && amount <= pending
    ensures Sound(AfterPayment(acc, amount), earned, paid + amount, pending - amount)
  {
  }

  /** A request to an invalid address is dropped without being taken from what was requested, and the user blocked. */
  lemma BooksBlocked(accounts: map<string, Account>, shares: seq<Share>,
                     requests: seq<Request>, payments: seq<Payment>, k: nat)
    requires Books(accounts, shares, requests, payments) && k < |requests|
    ensures var a := requests[k].addr;
            Books(accounts[a := accounts[a].(blocked := true)], shares, Without(requests, k), payments)
  {
    var r := requests[k];
    var accounts' := accounts[r.addr := accounts[r.addr].(blocked := true)];
    forall a | a in accounts'
      ensures Sound(accounts'[a], Earned(shares, a), PaidTo(payments, a), Pending(Without(requests, k), a))
    {
      PendingWithout(requests, k, a);
    }
  }

  lemma BooksShared(accounts: map<string, Account>, shares: seq<Share>,
                    requests: seq<Request>, payments: seq<Payment>, s: Share)
    requires Books(accounts, shares, requests, payments) && !s.accounted
    ensures Books(accounts, shares + [s], requests, payments)
  {
    forall a | a in accounts
      ensures Earned(shares + [s], a) == Earned(shares, a)
    {
      SharesAppended(shares, s, a);
    }
  }

  // ---------- accounting shares ----------

  /** The tables that accounting shares works on. */
  datatype Book = Book(accounts: map<string, Account>, shares: seq<Share>, requests: seq<Request>)

  /** What must have gathered beyond the requests before another one is made: one coin for the first. */
  function MinPayout(setting: nat, acc: Account): int {
    if acc.requested == 0 && acc.paid == 0 then COIN
    else if acc.minPayout >= 1 then acc.minPayout * COIN
    else setting * COIN
  }

  /** Whether crediting makes a payout due. */
  predicate IsDue(setting: nat, acc: Account) {
    acc.balance - acc.requested > MinPayout(setting, acc) && !acc.blocked
  }

  /** One share credited, and a payout requested if one is due. */
  function CreditedOne(setting: nat, now: int, b: Book, i: nat): (r: Book)
    requires i < |b.shares|
    ensures |r.shares| == |b.shares|
  {
    var a := b.shares[i].addr;
    var was := Opened(b.accounts, a);
    var acc := was.(balance := was.balance + b.shares[i].value);
    var min := MinPayout(setting, acc);
    if IsDue(setting, acc) then
      Book(b.accounts[a := acc.(requested := acc.requested + min)], Counted(b.shares, i), b.requests + [Request(now, a, min)])
    else
      Book(b.accounts[a := acc], Counted(b.shares, i), b.requests)
  }

  /**
   The first request of a user asks for one coin, each later one for the minimum the user has set
   or else that of the pool. It is made when more than that has gathered and is not requested.
   */
  lemma RequestedAmount(setting: nat, now: int, b: Book, i: nat)
    requires i < |b.shares|
    ensures var a, r := b.shares[i].addr, CreditedOne(setting, now, b, i);
            var was, acc := Opened(b.accounts, a), r.accounts[a];
            var coins := if was.requested == 0 && was.paid == 0 then 1 else if was.minPayout <= 0 then setting else was.minPayout;
            var amount := coins * 100_000_000;
            && (a !in b.accounts ==> was == Account(0, 0, 0, 0, false))
            && acc.balance == was.balance + b.shares[i].value
            && if acc.blocked || acc.balance - was.requested <= amount then r.requests == b.requests && acc.requested == was.requested
               else r.requests == b.requests + [Request(now, a, amount)] && acc.requested == was.requested + amount
  {
  }

  /** Shares credited one after the other. */
  function CreditedAll(setting: nat, now: int, b: Book, order: seq<nat>): (r: Book)
    requires forall k :: 0 <= k < |order| ==> order[k] < |b.shares|
    ensures |r.shares| == |b.shares|
  {
    if order == [] then b
    else CreditedOne(setting, now, CreditedAll(setting, now, b, order[..|order| - 1]), order[|order| - 1])
  }

  /** An order in which every share to be accounted is taken once. */
  ghost predicate TakesAll(shares: seq<Share>, order: seq<nat>) {
    && Distinct(order)
    && (forall k :: 0 <= k < |order| ==> order[k] < |shares| && !shares[order[k]].accounted)
    && (forall i :: 0 <= i < |shares| && !shares[i].accounted ==> i in order)
  }

  /** Some shares have been taken: exactly those are accounted that were before or are in the order. */
  ghost predicate Taken(shares: seq<Share>, order: seq<nat>, shares': seq<Share>) {
    && Distinct(order) && |shares'| == |shares|
    && (forall k :: 0 <= k < |order| ==> order[k] < |shares| && !shares[order[k]].accounted)
    && (forall i :: 0 <= i < |shares| ==> shares'[i] == if i in order then shares[i].(accounted := true) else shares[i])
  }

  lemma TakenOneMore(setting: nat, now: int, b: Book, order: seq<nat>, b': Book, i: nat)
    requires Taken(b.shares, order, b'.shares) && b' == CreditedAll(setting, now, b, order)
    requires i < |b.shares| && !b'.shares[i].accounted
    ensures Taken(b.shares, order + [i], Counted(b'.shares, i))
    ensures CreditedAll(setting, now, b, order + [i]) == CreditedOne(setting, now, b', i)
  {
    var more := order + [i];
    assert i !in order;
    assert more[..|order|] == order;
    assert forall j :: j in more <==> j in order || j == i;
  }

  ghost predicate TakenInRange(shares: seq<Share>, order: seq<nat>) {
    forall k :: 0 <= k < |order| ==> order[k] < |shares|
  }

  lemma TakenMeans(shares: seq<Share>, order: seq<nat>, shares': seq<Share>)
    requires Taken(shares, order, shares')
    ensures TakenInRange(shares, order) && |shares'| == |shares|
  {
  }

  lemma AllTaken(shares: seq<Share>, order: seq<nat>, shares': seq<Share>)
    requires Taken(shares, order, shares') && TakesAll(shares, order)
    ensures |shares'| == |shares| && forall i :: 0 <= i < |shares| ==> shares'[i] == shares[i].(accounted := true)
  {
  }

  lemma CreditedShares(setting: nat, now: int, b: Book, i: nat)
    requires i < |b.shares|
    ensures CreditedOne(setting, now, b, i).shares == Counted(b.shares, i)
  {
  }

  lemma TakenFirst(setting: nat, now: int, b: Book)
    ensures Taken(b.shares, [], b.shares) && CreditedAll(setting, now, b, []) == b
  {
  }

  lemma TakenLast(shares: seq<Share>, order: seq<nat>, shares': seq<Share>)
    requires Taken(shares, order, shares') && forall i :: 0 <= i < |shares'| ==> shares'[i].accounted
    ensures TakesAll(shares, order)
  {
  }

  // ---------- the final payout ----------

  /** Everything beyond what is requested already, if it is more than a tenth of a coin. */
  predicate HasRemainder(acc: Account) {
    acc.balance - acc.requested > FINAL_PAYOUT_MIN
  }

  function FinalAccounts(accounts: map<string, Account>): map<string, Account> {
    map a | a in accounts :: if HasRemainder(accounts[a]) then accounts[a].(requested := accounts[a].balance) else accounts[a]
  }

  /** Every account with a remainder, once. */
  ghost predicate WithRemainder(accounts: map<string, Account>, who: seq<string>) {
    Distinct(who) && forall a :: a in who <==> a in accounts && HasRemainder(accounts[a])
  }

  function FinalRequests(now: int, accounts: map<string, Account>, who: seq<string>): seq<Request>
    requires forall i :: 0 <= i < |who| ==> who[i] in accounts
  {
    seq(|who|, i requires 0 <= i < |who| => Request(now, who[i], accounts[who[i]].balance - accounts[who[i]].requested))
  }

  function FinalBook(now: int, b: Book, who: seq<string>): Book
    requires forall i :: 0 <= i < |who| ==> who[i] in b.accounts
  {
    Book(FinalAccounts(b.accounts), b.shares, b.requests + FinalRequests(now, b.accounts, who))
  }

  lemma {:induction false} FinalPending(now: int, accounts: map<string, Account>, who: seq<string>, a: string)
    requires Distinct(who) && forall i :: 0 <= i < |who| ==> who[i] in accounts
    ensures Pending(FinalRequests(now, accounts, who), a)
            == if a in who then accounts[a].balance - accounts[a].requested else 0
  {
    if who != [] {
      var k := |who| - 1;
      var last := Request(now, who[k], accounts[who[k]].balance - accounts[who[k]].requested);
      FinalPending(now, accounts, who[..k], a);
      assert FinalRequests(now, accounts, who) == FinalRequests(now, accounts, who[..k]) + [last];
      PendingJoined(FinalRequests(now, accounts, who[..k]), [last], a);
      assert who[k] !in who[..k] && (a in who <==> a == who[k] || a in who[..k]);
    }
  }

  /**
   The final payout requests for each address all that it has beyond its requests, if that is
   more than a tenth of a coin, and nothing otherwise; no account is left with more than that.
   */
  lemma FinalPayoutIs(now: int, b: Book, who: seq<string>, a: string)
    requires WithRemainder(b.accounts, who) && forall i :: 0 <= i < |who| ==> who[i] in b.accounts
    ensures var r := FinalBook(now, b, who);
            if a in b.accounts && 10 * (b.accounts[a].balance - b.accounts[a].requested) > COIN then
              var rest := b.accounts[a].balance - b.accounts[a].requested;
              Pending(r.requests, a) == Pending(b.requests, a) + rest && r.accounts[a].requested == r.accounts[a].balance
            else
              Pending(r.requests, a) == Pending(b.requests, a) && Opened(r.accounts, a) == Opened(b.accounts, a)
  {
    FinalPending(now, b.accounts, who, a);
    PendingJoined(b.requests, FinalRequests(now, b.accounts, who), a);
  }

  /** What an address has, or will have once all shares are accounted, is conserved; so is what it was paid. */
  ghost predicate Conserved(accounts: map<string, Account>, shares: seq<Share>,
                            accounts': map<string, Account>, shares': seq<Share>) {
    forall a: string ::
      && Opened(accounts', a).balance + Unaccounted(shares', a) == Opened(accounts, a).balance + Unaccounted(shares, a)
      && Opened(accounts', a).paid == Opened(accounts, a).paid
  }

  lemma ConservedAtFirst(accounts: map<string, Account>, shares: seq<Share>)
    ensures Conserved(accounts, shares, accounts, shares)
  {
  }

  lemma ConservedTwice(a0: map<string, Account>, s0: seq<Share>, a1: map<string, Account>, s1: seq<Share>,
                       a2: map<string, Account>, s2: seq<Share>)
    requires Conserved(a0, s0, a1, s1) && Conserved(a1, s1, a2, s2)
    ensures Conserved(a0, s0, a2, s2)
  {
  }

  lemma CreditConserves(accounts: map<string, Account>, shares: seq<Share>, i: nat, accounts': map<string, Account>)
    requires i < |shares| && !shares[i].accounted
    requires var was := Opened(accounts, shares[i].addr);
             accounts' == accounts[shares[i].addr := was.(balance := was.balance + shares[i].value)]
    ensures Conserved(accounts, shares, accounts', Counted(shares, i))
  {
    forall a: string
      ensures Opened(accounts', a).balance + Unaccounted(Counted(shares, i), a)
              == Opened(accounts, a).balance + Unaccounted(shares, a)
    {
      CountedSums(shares, i, a);
    }
  }

  lemma RequestConserves(a0: map<string, Account>, s0: seq<Share>,
                         accounts: map<string, Account>, shares: seq<Share>, a: string)
    requires Conserved(a0, s0, accounts, shares) && a in accounts
    ensures forall r :: Conserved(a0, s0, accounts[a := accounts[a].(requested := r)], shares)
  {
  }

  lemma OpenedAt(accounts: map<string, Account>, a: string)
    ensures a in accounts ==> Opened(accounts, a) == accounts[a]
  {
  }

  function ToAccount(shares: seq<Share>): nat {
    if shares == [] then 0 else (if shares[0].accounted then 0 else 1) + ToAccount(shares[1..])
  }

  lemma {:induction false} CountedIsLess(shares: seq<Share>, i: nat)
    requires i < |shares| && !shares[i].accounted
    ensures ToAccount(Counted(shares, i)) < ToAccount(shares)
  {
    if i == 0 {
      assert Counted(shares, 0)[1..] == shares[1..];
    } else {
      assert Counted(shares, i)[1..] == Counted(shares[1..], i - 1);
      CountedIsLess(shares[1..], i - 1);
    }
  }

  lemma NothingLeft(accounts: map<string, Account>, shares: seq<Share>,
                    accounts': map<string, Account>, shares': seq<Share>)
    requires Conserved(accounts, shares, accounts', shares')
    requires forall i :: 0 <= i < |shares'| ==> shares'[i].accounted
    ensures forall a: string ::
              && Opened(accounts', a).balance == Opened(accounts, a).balance + Unaccounted(shares, a)
              && Opened(accounts', a).paid == Opened(accounts, a).paid
  {
    forall a: string
      ensures Unaccounted(shares', a) == 0
    {
      NothingUnaccounted(shares', a);
    }
  }

  // ---------- the pool as a whole ----------

  /** The sum of a quantity over some addresses. */
  ghost function Sum(addrs: set<string>, f: string -> int): int {
    if addrs == {} then 0 else var a :| a in addrs; f(a) + Sum(addrs - {a}, f)
  }

  lemma {:induction false} SumTakes(addrs: set<string>, f: string -> int, a: string)
    requires a in addrs
    ensures Sum(addrs, f) == f(a) + Sum(addrs - {a}, f)
    decreases |addrs|
  {
    var b :| b in addrs && Sum(addrs, f) == f(b) + Sum(addrs - {b}, f);
    if a != b {
      SumTakes(addrs - {b}, f, a);
      SumTakes(addrs - {a}, f, b);
      assert addrs - {a} - {b} == addrs - {b} - {a};
    }
  }

  lemma {:induction false} SumOfSums(addrs: set<string>, f: string -> int, g: string -> int, h: string -> int)
    requires forall a :: a in addrs ==> f(a) == g(a) + h(a)
    ensures Sum(addrs, f) == Sum(addrs, g) + Sum(addrs, h)
    decreases |addrs|
  {
    if addrs != {} {
      var a :| a in addrs;
      SumTakes(addrs, f, a);
      SumTakes(addrs, g, a);
      SumTakes(addrs, h, a);
      SumOfSums(addrs - {a}, f, g, h);
    }
  }

  lemma {:induction false} SumOfZero(addrs: set<string>, f: string -> int)
    requires forall a :: a in addrs ==> f(a) == 0
    ensures Sum(addrs, f) == 0
    decreases |addrs|
  {
    if addrs != {} {
      var a :| a in addrs;
      SumTakes(addrs, f, a);
      SumOfZero(addrs - {a}, f);
    }
  }

  function TotalEarned(shares: seq<Share>): nat {
    if shares == [] then 0 else (if shares[0].accounted then shares[0].value else 0) + TotalEarned(shares[1..])
  }

  function TotalPaid(payments: seq<Payment>): int {
    if payments == [] then 0 else payments[0].amount + TotalPaid(payments[1..])
  }

  lemma {:induction false} SumOfEarned(addrs: set<string>, shares: seq<Share>)
    requires forall i :: 0 <= i < |shares| && shares[i].accounted ==> shares[i].addr in addrs
    ensures Sum(addrs, a => Earned(shares, a)) == TotalEarned(shares)
  {
    if shares == [] {
      SumOfZero(addrs, a => Earned(shares, a));
    } else {
      var s, rest := shares[0], shares[1..];
      var one := (a: string) => if s.accounted && s.addr == a then s.value else 0;
      SumOfEarned(addrs, rest);
      SumOfSums(addrs, a => Earned(shares, a), one, a => Earned(rest, a));
      if s.accounted {
        SumTakes(addrs, one, s.addr);
        SumOfZero(addrs - {s.addr}, one);
      } else {
        SumOfZero(addrs, one);
      }
    }
  }

  lemma {:induction false} SumOfPaid(addrs: set<string>, payments: seq<Payment>)
    requires forall i :: 0 <= i < |payments| ==> payments[i].addr in addrs
    ensures Sum(addrs, a => PaidTo(payments, a)) == TotalPaid(payments)
  {
    if payments == [] {
      SumOfZero(addrs, a => PaidTo(payments, a));
    } else {
      var p, rest := payments[0], payments[1..];
      var one := (a: string) => if p.addr == a then p.amount else 0;
      SumOfPaid(addrs, rest);
      SumOfSums(addrs, a => PaidTo(payments, a), one, a => PaidTo(rest, a));
      SumTakes(addrs, one, p.addr);
      SumOfZero(addrs - {p.addr}, one);
    }
  }

  /** What the pool owes all its users together is what all shares earned, less all that was paid. */
  lemma UserBalance(accounts: map<string, Account>, shares: seq<Share>,
                    requests: seq<Request>, payments: seq<Payment>)
    requires Books(accounts, shares, requests, payments)
    ensures Sum(accounts.Keys, a => Opened(accounts, a).balance) == TotalEarned(shares) - TotalPaid(payments)
  {
    SumOfEarned(accounts.Keys, shares);
    SumOfPaid(accounts.Keys, payments);
    SumOfSums(accounts.Keys, a => Earned(shares, a), a => Opened(accounts, a).balance, a => PaidTo(payments, a));
  }

  /** A request never asks for more than its address has, so that all requests of an address can be paid. */
  lemma RequestsAreCovered(accounts: map<string, Account>, shares: seq<Share>,
                           requests: seq<Request>, payments: seq<Payment>, k: nat)
    requires Books(accounts, shares, requests, payments) && k < |requests|
    ensures var a := requests[k].addr;
            requests[k].amount <= Pending(requests, a) <= accounts[a].balance
            && PaidTo(payments, a) + Pending(requests, a) <= Earned(shares, a)
  {
    PendingWithout(requests, k, requests[k].addr);
  }

  // ---------- the pool's books ----------

  class PoolBackend {
    var accounts: map<string, Account>
    var shares: seq<Share>
    var requests: seq<Request>
    var payments: seq<Payment>
    var tickCounter: nat
    /** All that the wallet was asked and answered. */
    ghost var answers: seq<Answer>
    const poolAddress: string
    const fee: nat
    const minPayout: nat
    const isValidAddress: string -> bool

    ghost predicate Valid()
      reads this
    {
      Books(accounts, shares, requests, payments) && payments == SentOf(answers)
    }

    constructor (poolAddress: string, fee: nat, minPayout: nat, isValidAddress: string -> bool)
      ensures Valid() && accounts == map[] && shares == [] && requests == [] && payments == [] && tickCounter == 0
      ensures this.poolAddress == poolAddress && this.fee == fee && this.minPayout == minPayout
      ensures this.isValidAddress == isValidAddress
    {
      this.poolAddress, this.fee, this.minPayout, this.isValidAddress := poolAddress, fee, minPayout, isValidAddress;
      accounts, shares, requests, payments, tickCounter := map[], [], [], [], 0;
      answers := [];
    }

    /** A share comes in; one that is a block earns the pool its fee as well. */
    method HandleShare(addr: string, value: nat, block: Option<nat>)
      requires Valid()
      modifies this`shares
      ensures Valid()
      ensures shares == old(shares) + (if block.Some? then [Share(poolAddress, block.value * fee / 100, false)] else [])
                        + [Share(addr, value, false)]
    {
      hide Books;
      if block.Some? {
        var feeShare := Share(poolAddress, block.value * fee / 100, false);
        BooksShared(accounts, shares, requests, payments, feeShare);
        shares := shares + [feeShare];
      }
      BooksShared(accounts, shares, requests, payments, Share(addr, value, false));
      shares := shares + [Share(addr, value, false)];
    }

    /** Adds a share to the balance of its address, which gets an account if it has none. */
    method Credit(i: nat)
      requires Valid() && i < |shares| && !shares[i].accounted
      modifies this`accounts, this`shares
      ensures Valid() && shares == Counted(old(shares), i)
      ensures var was := Opened(old(accounts), shares[i].addr);
              accounts == old(accounts)[shares[i].addr := was.(balance := was.balance + shares[i].value)]
    {
      hide Books;
      var share := shares[i];
      if share.addr !in accounts {
        OpenedIsSound(accounts, shares, requests, payments, share.addr);
        accounts := accounts[share.addr := NEW_ACCOUNT];
      }
      var acc := accounts[share.addr];
      BooksCredited(accounts, shares, requests, payments, i);
      accounts := accounts[share.addr := acc.(balance := acc.balance + share.value)];
      shares := shares[i := share.(accounted := true)];
    }

    method AddRequest(a: string, amount: int, now: int)
      requires Valid() && a in accounts && 0 <= amount <= accounts[a].balance - accounts[a].requested
      modifies this`accounts, this`requests
      ensures Valid() && requests == old(requests) + [Request(now, a, amount)]
      ensures accounts == old(accounts)[a := old(accounts)[a].(requested := old(accounts)[a].requested + amount)]
    {
      hide Books;
      BooksRequested(accounts, shares, requests, payments, Request(now, a, amount));
      accounts := accounts[a := accounts[a].(requested := accounts[a].requested + amount)];
      requests := requests + [Request(now, a, amount)];
    }

    ghost function Tables(): Book
      reads this
    {
      Book(accounts, shares, requests)
    }

    /** Credits one share, and requests a payout if one is due. */
    method AccountShare(i: nat, now: int)
      requires Valid() && i < |shares| && !shares[i].accounted
      modifies this`accounts, this`shares, this`requests
      ensures Valid() && Tables() == CreditedOne(minPayout, now, old(Tables()), i)
      ensures Conserved(old(accounts), old(shares), accounts, shares) && old(requests) <= requests
    {
      hide Books, Counted, Conserved, Opened;
      var a := shares[i].addr;
      Credit(i);
      CountedAddr(old(shares), i);
      OpenedAt(accounts, a);
      CreditConserves(old(accounts), old(shares), i, accounts);
      RequestConserves(old(accounts), old(shares), accounts, shares, a);
      var acc := accounts[a];
      var min := MinPayout(minPayout, acc);
      if acc.balance - acc.requested > min && !acc.blocked {
        AddRequest(a, min, now);
      }
    }

    /** Accounts every share there is once, in any order: each address earns exactly what its new shares are worth. */
    method AccountShares(now: int) returns (ghost order: seq<nat>)
      requires Valid()
      modifies this`accounts, this`shares, this`requests
      ensures Valid() && TakesAll(old(shares), order) && Tables() == CreditedAll(minPayout, now, old(Tables()), order)
      ensures |shares| == |old(shares)|
      ensures forall i :: 0 <= i < |shares| ==> shares[i] == old(shares)[i].(accounted := true)
      ensures forall a: string :: Opened(accounts, a).balance == Opened(old(accounts), a).balance + Unaccounted(old(shares), a)
      ensures forall a: string :: Opened(accounts, a).paid == Opened(old(accounts), a).paid
      ensures old(requests) <= requests
    {
      hide Books, Conserved, Counted, CreditedOne, CreditedAll, Taken;
      ghost var before := Tables();
      order := [];
      TakenFirst(minPayout, now, before);
      TakenMeans(before.shares, [], shares);
      ConservedAtFirst(accounts, shares);
      while exists i :: 0 <= i < |shares| && !shares[i].accounted
        invariant Valid() && old(requests) <= requests && Conserved(old(accounts), old(shares), accounts, shares)
        invariant Taken(before.shares, order, shares) && TakenInRange(before.shares, order)
        invariant Tables() == CreditedAll(minPayout, now, before, order)
        decreases ToAccount(shares)
      {
        var i :| 0 <= i < |shares| && !shares[i].accounted;
        ghost var middle := Tables();
        CountedIsLess(shares, i);
        TakenOneMore(minPayout, now, before, order, middle, i);
        AccountShare(i, now);
        CreditedShares(minPayout, now, middle, i);
        ConservedTwice(old(accounts), old(shares), middle.accounts, middle.shares, accounts, shares);
        order := order + [i];
        TakenMeans(before.shares, order, shares);
      }
      TakenMeans(before.shares, order, shares);
      TakenLast(before.shares, order, shares);
      AllTaken(before.shares, order, shares);
      NothingLeft(old(accounts), old(shares), accounts, shares);
    }

    /** Requests all that is left of every account, if it is more than a tenth of a coin. */
    method FinalPayout(now: int) returns (ghost who: seq<string>)
      requires Valid()
      modifies this`accounts, this`requests
      ensures Valid() && WithRemainder(old(accounts), who) && forall i :: 0 <= i < |who| ==> who[i] in old(accounts)
      ensures Tables() == FinalBook(now, old(Tables()), who)
    {
      hide Books, FinalSoFar, FinalBook, WithRemainder;
      ghost var before := Tables();
      var todo := accounts.Keys;
      who := [];
      FinalFirst(now, before);
      while todo != {}
        invariant Valid() && todo <= accounts.Keys && FinalSoFar(now, before, todo, Tables(), who)
        decreases |todo|
      {
        var a :| a in todo;
        var acc := accounts[a];
        var amount := acc.balance - acc.requested;
        FinalStep(now, before, todo, Tables(), who, a);
        if amount > FINAL_PAYOUT_MIN {
          AddRequest(a, amount, now);
          who := who + [a];
        }
        todo := todo - {a};
      }
      FinalLast(now, before, Tables(), who);
    }

    ghost function Money(): Purse
      reads this
    {
      Purse(accounts, requests, payments, answers)
    }

    method GetBalance() returns (balance: int)
      requires payments == SentOf(answers)
      modifies this`answers
      ensures answers == old(answers) + [Holds(balance)] && payments == SentOf(answers)
    {
      balance :| true;
      SentOneMore(answers, Holds(balance));
      answers := answers + [Holds(balance)];
    }

    /** The wallet sends, or refuses to. */
    method SendMoney(addr: string, amount: int) returns (ok: bool)
      modifies this`answers
      ensures answers == old(answers) + [Sends(Payment(addr, amount), ok)]
      ensures SentOf(answers) == SentOf(old(answers)) + if ok then [Payment(addr, amount)] else []
    {
      ok :| true;
      SentOneMore(answers, Sends(Payment(addr, amount), ok));
      answers := answers + [Sends(Payment(addr, amount), ok)];
    }

    /** Deals with one request; when the wallet has too little left, nothing happens and `empty` is set. */
    method Execute(k: nat) returns (fate: Fate, empty: bool, ghost balance: int)
      requires Valid() && k < |requests|
      modifies this`accounts, this`requests, this`payments, this`answers
      ensures Valid() && accounts.Keys == old(accounts).Keys
      ensures var r := old(requests)[k];
              if empty then
                && isValidAddress(r.addr) && balance - r.amount < COIN
                && Money() == old(Money()).(answers := old(answers) + [Holds(balance)])
              else
                && (fate.Dropped? <==> !isValidAddress(r.addr))
                && (isValidAddress(r.addr) ==> balance - r.amount >= COIN)
                && Money() == AfterFate(isValidAddress, old(Money()), k, fate, balance)
      ensures Settles(isValidAddress, old(requests), old(payments), requests, payments)
    {
      hide Sound, Settles, SentOf;
      PaymentSettles(isValidAddress, requests, payments, k);
      NothingSettles(isValidAddress, requests, payments);
      fate, empty, balance := Kept, false, 0;
      var r := requests[k];
      if r.addr in accounts {
        if !isValidAddress(r.addr) {
          BooksBlocked(accounts, shares, requests, payments, k);
          accounts := accounts[r.addr := accounts[r.addr].(blocked := true)];
          requests := requests[..k] + requests[k + 1..];
          fate := Dropped;
          return;
        }
        var holds := GetBalance();
        balance := holds;
        if holds - r.amount < COIN {
          empty := true;
          return;
        }
        var ok := SendMoney(r.addr, r.amount);
        if ok {
          BooksPaid(accounts, shares, requests, payments, k);
          payments := payments + [Payment(r.addr, r.amount)];
          accounts := accounts[r.addr := AfterPayment(accounts[r.addr], r.amount)];
          requests := requests[..k] + requests[k + 1..];
          fate := Paid;
        }
      }
    }

    /**
     Goes through the requests, the oldest first, until the wallet is empty: each of those reached
     meets its fate, and the others stay. What the wallet is asked on the way, and when it
     counts as empty, is given exactly.
     */
    method ExecutePayouts() returns (ghost fates: seq<Fate>, ghost balances: seq<int>, empty: bool, ghost low: int)
      requires Valid()
      modifies this`accounts, this`requests, this`payments, this`answers
      ensures Valid() && accounts.Keys == old(accounts).Keys
      ensures FatesFit(isValidAddress, old(requests), fates, balances) && |balances| == |fates| <= |old(requests)|
      ensures EndsWhen(isValidAddress, old(requests), |fates|, empty, low)
      ensures Money() == Ended(AfterFates(isValidAddress, old(Money()), fates, balances), empty, low)
      ensures Settles(isValidAddress, old(requests), old(payments), requests, payments)
    {
      ghost var start := Money();
      fates, balances, empty, low := [], [], false, 0;
      var k: nat := 0;
      ReachedFirst(isValidAddress, start);
      hide Books, KeptOf, PaidOf, Without, Reached, Settles, AfterPayment, AfterFates, AfterFate, SentOf;
      while k < |requests| && !empty
        invariant Valid() && accounts.Keys == old(accounts).Keys
        invariant Reached(isValidAddress, start, fates, balances, Before(Money(), empty))
        invariant Money() == Ended(Before(Money(), empty), empty, low)
        invariant |fates| <= |start.requests| && k == |KeptOf(start.requests, fates)|
        invariant empty ==> EndsWhen(isValidAddress, start.requests, |fates|, empty, low)
        decreases |start.requests| - |fates|, !empty
      {
        k, empty, fates, balances, low := Proceed(k, start, fates, balances);
      }
      ReachedNext(isValidAddress, start, fates, balances, Before(Money(), empty));
      ReachedMeans(isValidAddress, start, fates, balances, Before(Money(), empty));
    }

    /** Deals with one request and goes on to the next, which stands in its place unless it stays. */
    method Proceed(k: nat, ghost start: Purse, ghost fates: seq<Fate>, ghost balances: seq<int>)
      returns (k': nat, empty: bool, ghost fates': seq<Fate>, ghost balances': seq<int>, ghost low: int)
      requires Valid() && Reached(isValidAddress, start, fates, balances, Money())
      requires |fates| <= |start.requests| && k == |KeptOf(start.requests, fates)| < |requests|
      modifies this`accounts, this`requests, this`payments, this`answers
      ensures Valid() && accounts.Keys == old(accounts).Keys
      ensures Reached(isValidAddress, start, fates', balances', Before(Money(), empty))
      ensures Money() == Ended(Before(Money(), empty), empty, low)
      ensures |fates'| <= |start.requests| && k' == |KeptOf(start.requests, fates')|
      ensures if empty then fates' == fates && EndsWhen(isValidAddress, start.requests, |fates|, empty, low)
              else |fates'| == |fates| + 1
    {
      hide Books, KeptOf, PaidOf, Without, Reached, Settles, AfterPayment, AfterFates, AfterFate, SentOf;
      ghost var before := Money();
      ReachedNext(isValidAddress, start, fates, balances, before);
      k', fates', balances' := k, fates, balances;
      var fate: Fate;
      fate, empty, low := Execute(k);
      if empty {
        EndedBefore(before, low);
      } else {
        ReachedStep(isValidAddress, start, fates, balances, before, fate, low, Money());
        fates', balances' := fates + [fate], balances + [low];
        ReachedNext(isValidAddress, start, fates', balances', Money());
        if fate.Kept? {
          k' := k + 1;
        }
      }
    }

    /**
     One tick of the pool's clock: every share is accounted, on the third tick all remainders are
     requested if wanted, and on every fifteenth the requests are paid if wanted.
     */
    method Accounting(now: int, finalPayout: bool, payout: bool)
      returns (ghost order: seq<nat>, ghost who: seq<string>, ghost due: Book,
               ghost fates: seq<Fate>, ghost balances: seq<int>, ghost empty: bool, ghost low: int)
      requires Valid()
      modifies this
      ensures Valid() && tickCounter == old(tickCounter) + 1
      ensures TakesAll(old(shares), order)
      ensures var credited := CreditedAll(minPayout, now, old(Tables()), order);
              if old(tickCounter) == 3 && finalPayout then
                WithRemainder(credited.accounts, who) && (forall i :: 0 <= i < |who| ==> who[i] in credited.accounts)
                && due == FinalBook(now, credited, who)
              else
                due == credited
      ensures shares == due.shares
      ensures if old(tickCounter) % 15 == 5 && payout then
                && FatesFit(isValidAddress, due.requests, fates, balances) && |balances| == |fates| <= |due.requests|
                && EndsWhen(isValidAddress, due.requests, |fates|, empty, low)
                && Money() == Ended(AfterFates(isValidAddress, Purse(due.accounts, due.requests, old(payments), old(answers)),
                                               fates, balances), empty, low)
              else
                Money() == Purse(due.accounts, due.requests, old(payments), old(answers))
      ensures |shares| == |old(shares)|
      ensures forall i :: 0 <= i < |shares| ==> shares[i] == old(shares)[i].(accounted := true)
      ensures forall a: string :: var acc, was := Opened(accounts, a), Opened(old(accounts), a);
                acc.balance + acc.paid == was.balance + was.paid + Unaccounted(old(shares), a)
    {
      hide Books, Conserved, Earned, Unaccounted, CreditedAll, CreditedOne, TakesAll, AfterFates, FatesFit, SentOf, FinalAccounts;
      BalancesAreEarned(accounts, shares, requests, payments);
      who, fates, balances, empty, low := [], [], [], false, 0;
      order := AccountShares(now);
      EarnedWhenAccounted(old(shares), shares);
      if tickCounter == 3 && finalPayout {
        who := FinalPayout(now);
      }
      due := Tables();
      if tickCounter % 15 == 5 && payout {
        fates, balances, empty, low := ExecutePayouts();
      }
      tickCounter := tickCounter + 1;
      BalancesAreEarned(accounts, shares, requests, payments);
    }
  }

  /** Payouts end with the last request, or at one to a valid address that leaves the wallet less than a coin. */
  ghost predicate EndsWhen(valid: string -> bool, requests: seq<Request>, n: nat, empty: bool, low: int) {
    if empty then n < |requests| && valid(requests[n].addr) && low - requests[n].amount < COIN else n == |requests|
  }

  /** In the end the wallet may have been asked once more what it holds. */
  function Ended(p: Purse, empty: bool, low: int): Purse {
    if empty then p.(answers := p.answers + [Holds(low)]) else p
  }

  function Before(p: Purse, empty: bool): Purse {
    if empty && p.answers != [] then p.(answers := p.answers[..|p.answers| - 1]) else p
  }

  lemma EndedBefore(p: Purse, low: int)
    ensures Before(Ended(p, true, low), true) == p
  {
  }

  /** The accounts but for some still to do, and the requests made for the others. */
  ghost predicate FinalSoFar(now: int, was: Book, todo: set<string>, b: Book, who: seq<string>) {
    && b.accounts.Keys == was.accounts.Keys && b.shares == was.shares
    && (forall a :: a in was.accounts ==>
          b.accounts[a] == if a in todo then was.accounts[a] else FinalAccounts(was.accounts)[a])
    && Distinct(who) && (forall a :: a in who <==> a in was.accounts && a !in todo && HasRemainder(was.accounts[a]))
    && (forall i :: 0 <= i < |who| ==> who[i] in was.accounts)
    && b.requests == was.requests + FinalRequests(now, was.accounts, who)
  }

  lemma FinalFirst(now: int, was: Book)
    ensures FinalSoFar(now, was, was.accounts.Keys, was, [])
  {
    assert FinalRequests(now, was.accounts, []) == [];
  }

  lemma FinalStep(now: int, was: Book, todo: set<string>, b: Book, who: seq<string>, a: string)
    requires FinalSoFar(now, was, todo, b, who) && a in todo && a in b.accounts
    ensures var acc := b.accounts[a];
            var amount := acc.balance - acc.requested;
            if amount > FINAL_PAYOUT_MIN then
              FinalSoFar(now, was, todo - {a},
                         Book(b.accounts[a := acc.(requested := acc.requested + amount)], b.shares,
                              b.requests + [Request(now, a, amount)]), who + [a])
            else FinalSoFar(now, was, todo - {a}, b, who)
  {
    FinalRequestAdded(now, was.accounts, who, a);
    hide FinalRequests;
  }

  lemma FinalLast(now: int, was: Book, b: Book, who: seq<string>)
    requires FinalSoFar(now, was, {}, b, who)
    ensures WithRemainder(was.accounts, who) && forall i :: 0 <= i < |who| ==> who[i] in was.accounts
    ensures b == FinalBook(now, was, who)
  {
    hide FinalRequests;
    assert b.accounts == FinalAccounts(was.accounts);
  }

  lemma FinalRequestAdded(now: int, accounts: map<string, Account>, who: seq<string>, a: string)
    requires a in accounts && forall i :: 0 <= i < |who| ==> who[i] in accounts
    ensures FinalRequests(now, accounts, who + [a])
            == FinalRequests(now, accounts, who) + [Request(now, a, accounts[a].balance - accounts[a].requested)]
  {
  }

  /** What an address has and was paid is what its accounted shares earned, account or not. */
  lemma BalancesAreEarned(accounts: map<string, Account>, shares: seq<Share>,
                          requests: seq<Request>, payments: seq<Payment>)
    requires Books(accounts, shares, requests, payments)
    ensures forall a: string :: Opened(accounts, a).balance + Opened(accounts, a).paid == Earned(shares, a)
  {
    forall a: string
      ensures Opened(accounts, a).balance + Opened(accounts, a).paid == Earned(shares, a)
    {
      OpenedIsSound(accounts, shares, requests, payments, a);
    }
  }

  lemma EarnedWhenAccounted(shares: seq<Share>, shares': seq<Share>)
    requires |shares'| == |shares|
    requires forall i :: 0 <= i < |shares| ==> shares'[i] == shares[i].(accounted := true)
    ensures forall a: string :: Earned(shares', a) == Earned(shares, a) + Unaccounted(shares, a)
  {
    forall a: string
      ensures Earned(shares', a) == Earned(shares, a) + Unaccounted(shares, a)
    {
      EarnedOnceAccounted(shares, shares', a);
    }
  }

  lemma {:induction false} EarnedOnceAccounted(shares: seq<Share>, shares': seq<Share>, a: string)
    requires |shares'| == |shares|
    requires forall i :: 0 <= i < |shares| ==> shares'[i] == shares[i].(accounted := true)
    ensures Earned(shares', a) == Earned(shares, a) + Unaccounted(shares, a)
  {
    if shares != [] {
      EarnedOnceAccounted(shares[1..], shares'[1..], a);
    }
  }
}

/**
 * Balancing of transactions (transaction.go): Balance, Canonicalize and SumTransactions, and the
 * date order used to sort transactions. The loops of the Go code are methods proved against the
 * specification functions below; the lemmas say what the specifications mean.
 */
module Transactions {
  import opened Wrappers
  import opened Ledger

  /** A missing map entry reads as 0, as a Go map of int64 does. */
  function Get(m: map<string, int>, k: string): int
  {
    if k in m then m[k] else 0
  }

  /** accounts[k] += v */
  function Add(m: map<string, int>, k: string, v: int): (r: map<string, int>)
    ensures forall j :: j in r <==> j in m || j == k
    ensures Get(r, k) == Get(m, k) + v
    ensures forall j :: j != k ==> Get(r, j) == Get(m, j)
  {
    m[k := Get(m, k) + v]
  }

  /** Number of Null postings. */
  function NullCount(ps: seq<Posting>): nat
  {
    if ps == [] then 0 else NullCount(ps[..|ps| - 1]) + (if ps[|ps| - 1].isNull then 1 else 0)
  }

  /** Sum of the values of the postings that are not Null. */
  function Total(ps: seq<Posting>): int
  {
    if ps == [] then 0 else Total(ps[..|ps| - 1]) + (if ps[|ps| - 1].isNull then 0 else ps[|ps| - 1].value)
  }

  /** Sum of the Value fields of all postings, Null or not. */
  function ValueSum(ps: seq<Posting>): int
  {
    if ps == [] then 0 else ValueSum(ps[..|ps| - 1]) + ps[|ps| - 1].value
  }

  /** Sum of the values of the postings to account a that are not Null. */
  function SumFor(ps: seq<Posting>, a: string): int
  {
    if ps == [] then 0
    else SumFor(ps[..|ps| - 1], a) + (if !ps[|ps| - 1].isNull && ps[|ps| - 1].account == a then ps[|ps| - 1].value else 0)
  }

  /** The per-account balances accumulated from the postings that are not Null, in order. */
  function AccountSums(ps: seq<Posting>): map<string, int>
  {
    if ps == [] then map[]
    else
      var m := AccountSums(ps[..|ps| - 1]);
      var p := ps[|ps| - 1];
      if p.isNull then m else Add(m, p.account, p.value)
  }

  /** Index of the first Null posting (|ps| when there is none). */
  function NullIndex(ps: seq<Posting>): (i: nat)
    ensures i <= |ps|
    ensures i < |ps| ==> ps[i].isNull
    ensures forall j :: 0 <= j < i ==> !ps[j].isNull
    ensures i == |ps| <==> NullCount(ps) == 0
  {
    if ps == [] then 0
    else
      var q := ps[..|ps| - 1];
      var k := NullIndex(q);
      assert forall j :: 0 <= j < |q| ==> q[j] == ps[j];
      if k < |q| then k else if ps[|ps| - 1].isNull then |q| else |ps|
  }

  /** The (bool, map) pair Balance returns; None stands for the nil map. */
  function BalanceSpec(ps: seq<Posting>): (bool, Option<map<string, int>>)
  {
    if NullCount(ps) >= 2 then (false, None)
    else if NullCount(ps) == 1 then
      (true, Some(Add(AccountSums(ps), ps[NullIndex(ps)].account, -Total(ps))))
    else (Total(ps) == 0, Some(AccountSums(ps)))
  }

  lemma NullCountPrefix(ps: seq<Posting>, i: nat)
    requires i < |ps|
    ensures NullCount(ps[..i + 1]) == NullCount(ps[..i]) + (if ps[i].isNull then 1 else 0)
    ensures Total(ps[..i + 1]) == Total(ps[..i]) + (if ps[i].isNull then 0 else ps[i].value)
  {
    assert ps[..i + 1][..i] == ps[..i];
  }

  lemma AccountSumsStep(ps: seq<Posting>, i: nat)
    requires i < |ps|
    ensures AccountSums(ps[..i + 1]) == if ps[i].isNull then AccountSums(ps[..i]) else Add(AccountSums(ps[..i]), ps[i].account, ps[i].value)
  {
    assert ps[..i + 1][..i] == ps[..i];
  }

  /** What the loops of Balance and Canonicalize know after scanning ps[..i]. */
  predicate Scanned(ps: seq<Posting>, i: nat, bal: int, nullIx: int)
    requires i <= |ps|
  {
    && bal == Total(ps[..i])
    && (nullIx == -1 <==> NullCount(ps[..i]) == 0)
    && (nullIx != -1 ==> NullCount(ps[..i]) == 1 && nullIx == NullIndex(ps) && 0 <= nullIx < i)
  }

  lemma ScanValue(ps: seq<Posting>, i: nat, bal: int, nullIx: int)
    requires i < |ps| && !ps[i].isNull && Scanned(ps, i, bal, nullIx)
    ensures Scanned(ps, i + 1, bal + ps[i].value, nullIx)
  {
    NullCountPrefix(ps, i);
  }

  lemma ScanNull(ps: seq<Posting>, i: nat, bal: int)
    requires i < |ps| && ps[i].isNull && Scanned(ps, i, bal, -1)
    ensures Scanned(ps, i + 1, bal, i)
  {
    NullCountPrefix(ps, i);
    NoNullBefore(ps, i);
  }

  lemma ScanSecondNull(ps: seq<Posting>, i: nat, bal: int, nullIx: int)
    requires i < |ps| && ps[i].isNull && nullIx != -1 && Scanned(ps, i, bal, nullIx)
    ensures NullCount(ps) >= 2
  {
    NullCountPrefix(ps, i);
    NullsAfter(ps, i + 1);
  }

  lemma ScanDone(ps: seq<Posting>, bal: int, nullIx: int)
    requires Scanned(ps, |ps|, bal, nullIx)
    ensures bal == Total(ps)
    ensures nullIx == -1 <==> NullCount(ps) == 0
    ensures nullIx != -1 ==> NullCount(ps) == 1 && nullIx == NullIndex(ps) && 0 <= nullIx < |ps|
  {
    assert ps[..|ps|] == ps;
  }

  /**
   * Transaction.Balance. Two Null postings give (false, nil) as soon as the second is seen;
   * otherwise every non-Null value is added to its account, and a Null posting's account
   * receives the negated total.
   */
  method Balance(t: Transaction) returns (ok: bool, accounts: Option<map<string, int>>)
    ensures (ok, accounts) == BalanceSpec(t.postings)
  {
    var ps := t.postings;
    var bal := 0;
    var nullIx := -1;
    var acc: map<string, int> := map[];
    var i := 0;
    while i < |ps|
      invariant 0 <= i <= |ps|
      invariant Scanned(ps, i, bal, nullIx) && acc == AccountSums(ps[..i])
    {
      var p := ps[i];
      AccountSumsStep(ps, i);
      if p.isNull {
        if nullIx != -1 {
          ScanSecondNull(ps, i, bal, nullIx);
          return false, None;
        }
        ScanNull(ps, i, bal);
        nullIx := i;
      } else {
        ScanValue(ps, i, bal, nullIx);
        bal := bal + p.value;
        acc := Add(acc, p.account, p.value);
      }
      i := i + 1;
    }
    ScanDone(ps, bal, nullIx);
    assert ps[..|ps|] == ps;
    if nullIx != -1 {
      acc := Add(acc, ps[nullIx].account, -bal);
      return true, Some(acc);
    }
    return bal == 0, Some(acc);
  }

  lemma NullIndexIs(ps: seq<Posting>, i: nat)
    requires i < |ps| && ps[i].isNull && forall j :: 0 <= j < i ==> !ps[j].isNull
    ensures NullIndex(ps) == i
  {
  }

  /** The first Null posting met by a scan with no Null posting behind it is the first of all. */
  lemma NoNullBefore(ps: seq<Posting>, i: nat)
    requires i < |ps| && ps[i].isNull && NullCount(ps[..i]) == 0
    ensures NullIndex(ps) == i
  {
    var q := ps[..i];
    assert NullIndex(q) == i;
    assert forall j :: 0 <= j < i ==> q[j] == ps[j];
    NullIndexIs(ps, i);
  }

  /** Counting Null postings in a longer prefix never gives fewer. */
  lemma {:induction false} NullsAfter(ps: seq<Posting>, i: nat)
    requires i <= |ps|
    ensures NullCount(ps) >= NullCount(ps[..i])
    decreases |ps| - i
  {
    if i < |ps| {
      NullsAfter(ps, i + 1);
      NullCountPrefix(ps, i);
    } else {
      assert ps[..i] == ps;
    }
  }

  /** Every account's balance is the sum of its non-Null postings; exactly those accounts appear. */
  lemma {:induction false} AccountSumsMeaning(ps: seq<Posting>, a: string)
    ensures Get(AccountSums(ps), a) == SumFor(ps, a)
    ensures a in AccountSums(ps) <==> exists i :: 0 <= i < |ps| && !ps[i].isNull && ps[i].account == a
  {
    if ps != [] {
      var q := ps[..|ps| - 1];
      AccountSumsMeaning(q, a);
      assert forall i :: 0 <= i < |q| ==> q[i] == ps[i];
      if a in AccountSums(q) {
        var i :| 0 <= i < |q| && !q[i].isNull && q[i].account == a;
        assert ps[i] == q[i];
      }
    }
  }

  /** Sum of the values of a map (defined by taking its entries in any order). */
  ghost function MapSum(m: map<string, int>): int
    decreases |m.Keys|
  {
    if m.Keys == {} then 0
    else
      var k :| k in m;
      m[k] + MapSum(m - {k})
  }

  lemma RemoveKey(m: map<string, int>, k: string)
    requires k in m
    ensures |(m - {k}).Keys| == |m.Keys| - 1
  {
    assert (m - {k}).Keys == m.Keys - {k};
  }

  lemma RemoveTwo(m: map<string, int>, j: string, k: string)
    ensures m - {j} - {k} == m - {k} - {j}
  {
  }

  /** MapSum does not depend on which entry is taken first. */
  lemma {:induction false} MapSumRemove(m: map<string, int>, k: string)
    requires k in m
    ensures MapSum(m) == m[k] + MapSum(m - {k})
    decreases |m.Keys|
  {
    var j :| j in m && MapSum(m) == m[j] + MapSum(m - {j});
    if j != k {
      RemoveKey(m, j);
      RemoveKey(m, k);
      MapSumRemove(m - {j}, k);
      MapSumRemove(m - {k}, j);
      RemoveTwo(m, j, k);
    }
  }

  lemma MapSumAdd(m: map<string, int>, k: string, v: int)
    ensures MapSum(Add(m, k, v)) == MapSum(m) + v
  {
    var r := Add(m, k, v);
    MapSumRemove(r, k);
    assert r - {k} == m - {k};
    if k in m {
      MapSumRemove(m, k);
    } else {
      assert m - {k} == m;
    }
  }

  /** The balances of all accounts add up to the total of the postings. */
  lemma {:induction false} AccountSumsTotal(ps: seq<Posting>)
    ensures MapSum(AccountSums(ps)) == Total(ps)
  {
    if ps != [] {
      AccountSumsTotal(ps[..|ps| - 1]);
      var p := ps[|ps| - 1];
      if !p.isNull {
        MapSumAdd(AccountSums(ps[..|ps| - 1]), p.account, p.value);
      }
    }
  }

  /** With exactly one Null posting the transaction balances and its account map sums to 0. */
  lemma BalanceOneNull(ps: seq<Posting>)
    requires NullCount(ps) == 1
    ensures BalanceSpec(ps).0 && BalanceSpec(ps).1.Some?
    ensures MapSum(BalanceSpec(ps).1.value) == 0
  {
    AccountSumsTotal(ps);
    MapSumAdd(AccountSums(ps), ps[NullIndex(ps)].account, -Total(ps));
  }

  /**
   * Without Null postings Balance reports whether the values cancel out, and maps each account
   * to the sum of its postings.
   */
  lemma BalanceNoNull(ps: seq<Posting>, a: string)
    requires NullCount(ps) == 0
    ensures BalanceSpec(ps).0 <==> Total(ps) == 0
    ensures BalanceSpec(ps).1.Some? && Get(BalanceSpec(ps).1.value, a) == SumFor(ps, a)
  {
    AccountSumsMeaning(ps, a);
  }

  /**
   * Transaction.Canonicalize, on a value: the result is the transaction after the in-place
   * update. Two Null postings, or none and a nonzero total, are errors that change nothing;
   * with one Null posting its Value becomes minus the total of the others.
   */
  method Canonicalize(t: Transaction) returns (r: Transaction, err: Option<LedgerError>)
    ensures NullCount(t.postings) >= 2 ==> r == t && err == Some(MultipleNullError(-1, t.line))
    ensures NullCount(t.postings) == 1 ==>
      var n := NullIndex(t.postings);
      err == None && n < |t.postings| &&
      r == t.(postings := t.postings[n := t.postings[n].(value := -Total(t.postings))])
    ensures NullCount(t.postings) == 0 ==>
      r == t && err == (if Total(t.postings) != 0 then Some(BalanceError(-1, t.line)) else None)
  {
    var ps := t.postings;
    var bal := 0;
    var nullIx := -1;
    var i := 0;
    while i < |ps|
      invariant 0 <= i <= |ps|
      invariant Scanned(ps, i, bal, nullIx)
    {
      var p := ps[i];
      if p.isNull {
        if nullIx != -1 {
          ScanSecondNull(ps, i, bal, nullIx);
          return t, Some(MultipleNullError(-1, t.line));
        }
        ScanNull(ps, i, bal);
        nullIx := i;
      } else {
        ScanValue(ps, i, bal, nullIx);
        bal := bal + p.value;
      }
      i := i + 1;
    }
    ScanDone(ps, bal, nullIx);
    if nullIx != -1 {
      r := t.(postings := ps[nullIx := ps[nullIx].(value := -bal)]);
      return r, None;
    }
    if bal != 0 {
      return t, Some(BalanceError(-1, t.line));
    }
    return t, None;
  }

  lemma {:induction false} ValueSumUpdate(ps: seq<Posting>, n: nat, v: int)
    requires n < |ps|
    ensures ValueSum(ps[n := ps[n].(value := v)]) == ValueSum(ps) - ps[n].value + v
    decreases |ps|
  {
    var q := ps[n := ps[n].(value := v)];
    if n < |ps| - 1 {
      assert q[..|q| - 1] == ps[..|ps| - 1][n := ps[n].(value := v)];
      ValueSumUpdate(ps[..|ps| - 1], n, v);
    } else {
      assert q[..|q| - 1] == ps[..|ps| - 1];
    }
  }

  /** With one Null posting at n, the other values are exactly the non-Null ones. */
  lemma {:induction false} ValueSumOneNull(ps: seq<Posting>)
    ensures NullCount(ps) == 0 ==> ValueSum(ps) == Total(ps)
    ensures NullCount(ps) == 1 ==> NullIndex(ps) < |ps| && ValueSum(ps) == Total(ps) + ps[NullIndex(ps)].value
  {
    if ps != [] {
      var q := ps[..|ps| - 1];
      ValueSumOneNull(q);
      if NullCount(ps) == 1 && NullCount(q) == 1 {
        assert NullIndex(q) == NullIndex(ps) by {
          var i := NullIndex(q);
          assert ps[i] == q[i];
          NullIndexIs(ps, i);
        }
      }
      if NullCount(ps) == 1 && NullCount(q) == 0 {
        assert NullIndex(q) == |q|;
        forall j | 0 <= j < |q| ensures !ps[j].isNull {
          assert ps[j] == q[j];
        }
        NullIndexIs(ps, |q|);
      }
    }
  }

  /** After a successful Canonicalize the Value fields of all postings add up to 0. */
  lemma CanonicalizeBalances(ps: seq<Posting>)
    requires NullCount(ps) == 1 || (NullCount(ps) == 0 && Total(ps) == 0)
    ensures NullCount(ps) == 1 ==> NullIndex(ps) < |ps| && ValueSum(ps[NullIndex(ps) := ps[NullIndex(ps)].(value := -Total(ps))]) == 0
    ensures NullCount(ps) == 0 ==> ValueSum(ps) == 0
  {
    ValueSumOneNull(ps);
    if NullCount(ps) == 1 {
      ValueSumUpdate(ps, NullIndex(ps), -Total(ps));
    }
  }

  /** Entry-wise sum of two balance maps: for k, v := range ac { accounts[k] += v }. */
  function Merge(m1: map<string, int>, m2: map<string, int>): (r: map<string, int>)
    ensures forall k :: k in r <==> k in m1 || k in m2
    ensures forall k :: Get(r, k) == Get(m1, k) + Get(m2, k)
  {
    map k | k in m1.Keys + m2.Keys :: Get(m1, k) + Get(m2, k)
  }

  /** Whether transaction t passes Balance. */
  predicate Balanced(t: Transaction)
  {
    BalanceSpec(t.postings).0
  }

  /** The balance map of a balanced transaction. */
  function Contribution(t: Transaction): map<string, int>
    requires Balanced(t)
  {
    BalanceSpec(t.postings).1.value
  }

  /** Index of the first transaction that does not balance (|ts| when all do). */
  function FirstUnbalanced(ts: seq<Transaction>): (i: nat)
    ensures i <= |ts|
    ensures i < |ts| ==> !Balanced(ts[i])
    ensures forall j :: 0 <= j < i ==> Balanced(ts[j])
  {
    if ts == [] then 0 else if !Balanced(ts[0]) then 0 else 1 + FirstUnbalanced(ts[1..])
  }

  /** The account totals of a list of balanced transactions. */
  function Totals(ts: seq<Transaction>): map<string, int>
    requires forall j :: 0 <= j < |ts| ==> Balanced(ts[j])
  {
    if ts == [] then map[] else Merge(Totals(ts[..|ts| - 1]), Contribution(ts[|ts| - 1]))
  }

  /** SumTransactions: the first unbalanced transaction is an error, otherwise the merged balances. */
  function SumSpec(ts: seq<Transaction>): Result<map<string, int>, LedgerError>
  {
    var i := FirstUnbalanced(ts);
    if i < |ts| then Err(BalanceError(i, ts[i].line)) else Ok(Totals(ts))
  }

  /** SumTransactions balances each transaction in turn and adds its accounts to the result. */
  method SumTransactions(ts: seq<Transaction>) returns (r: Result<map<string, int>, LedgerError>)
    ensures r == SumSpec(ts)
  {
    var accounts: map<string, int> := map[];
    var i := 0;
    while i < |ts|
      invariant 0 <= i <= |ts|
      invariant forall j :: 0 <= j < i ==> Balanced(ts[j])
      invariant accounts == Totals(ts[..i])
    {
      var ok, ac := Balance(ts[i]);
      if !ok {
        FirstUnbalancedIs(ts, i);
        return Err(BalanceError(i, ts[i].line));
      }
      accounts := AddAll(accounts, ac.value);
      TotalsStep(ts, i);
      i := i + 1;
    }
    assert ts[..|ts|] == ts;
    FirstUnbalancedIs(ts, |ts|);
    return Ok(accounts);
  }

  /** The inner loop of SumTransactions: every entry of m is added to accounts, in any order. */
  method AddAll(accounts: map<string, int>, m: map<string, int>) returns (r: map<string, int>)
    ensures r == Merge(accounts, m)
  {
    r := accounts;
    var keys := m.Keys;
    while keys != {}
      invariant keys <= m.Keys
      invariant forall k :: k in r <==> k in accounts || (k in m && k !in keys)
      invariant forall k :: Get(r, k) == Get(accounts, k) + (if k in m.Keys - keys then m[k] else 0)
      decreases |keys|
    {
      var k :| k in keys;
      r := Add(r, k, m[k]);
      keys := keys - {k};
    }
    MergeExt(r, accounts, m);
  }

  /** A map is the merge of two others when it has their keys and sums their entries. */
  lemma MergeExt(r: map<string, int>, m1: map<string, int>, m2: map<string, int>)
    requires forall k :: k in r <==> k in m1 || k in m2
    requires forall k :: Get(r, k) == Get(m1, k) + Get(m2, k)
    ensures r == Merge(m1, m2)
  {
    var q := Merge(m1, m2);
    forall k | k in r.Keys ensures r[k] == q[k] {
      assert Get(r, k) == r[k] && Get(q, k) == q[k];
    }
  }

  lemma TotalsStep(ts: seq<Transaction>, i: nat)
    requires i < |ts| && forall j :: 0 <= j <= i ==> Balanced(ts[j])
    ensures Totals(ts[..i + 1]) == Merge(Totals(ts[..i]), Contribution(ts[i]))
  {
    assert ts[..i + 1][..i] == ts[..i];
  }

  lemma FirstUnbalancedIs(ts: seq<Transaction>, i: nat)
    requires i <= |ts| && (i < |ts| ==> !Balanced(ts[i])) && forall j :: 0 <= j < i ==> Balanced(ts[j])
    ensures FirstUnbalanced(ts) == i
  {
    var k := FirstUnbalanced(ts);
    assert !(k < i) && !(i < k);
  }

  lemma MergeAddStep(m1: map<string, int>, m2: map<string, int>, k: string)
    requires k in m2
    ensures Merge(m1, m2) == Add(Merge(m1, m2 - {k}), k, m2[k])
  {
    var r := Add(Merge(m1, m2 - {k}), k, m2[k]);
    forall j ensures Get(r, j) == Get(m1, j) + Get(m2, j) {
      if j != k {
        assert Get(m2 - {k}, j) == Get(m2, j);
      }
    }
    MergeExt(r, m1, m2);
  }

  lemma MapSumMerge(m1: map<string, int>, m2: map<string, int>)
    ensures MapSum(Merge(m1, m2)) == MapSum(m1) + MapSum(m2)
    decreases |m2.Keys|
  {
    if m2.Keys == {} {
      MergeExt(m1, m1, m2);
    } else {
      var k :| k in m2;
      var m2' := m2 - {k};
      RemoveKey(m2, k);
      MapSumMerge(m1, m2');
      MergeAddStep(m1, m2, k);
      MapSumAdd(Merge(m1, m2'), k, m2[k]);
      MapSumRemove(m2, k);
    }
  }

  /** The balance map of every balanced transaction sums to 0, and so do the totals of a list. */
  lemma ContributionSumsToZero(t: Transaction)
    requires Balanced(t)
    ensures MapSum(Contribution(t)) == 0
  {
    var ps := t.postings;
    if NullCount(ps) == 1 {
      BalanceOneNull(ps);
    } else {
      AccountSumsTotal(ps);
    }
  }

  /** The totals SumTransactions returns add up to 0: money moves between accounts, it is not created. */
  lemma {:induction false} TotalsSumToZero(ts: seq<Transaction>)
    requires forall j :: 0 <= j < |ts| ==> Balanced(ts[j])
    ensures MapSum(Totals(ts)) == 0
  {
    if ts != [] {
      TotalsSumToZero(ts[..|ts| - 1]);
      ContributionSumsToZero(ts[|ts| - 1]);
      MapSumMerge(Totals(ts[..|ts| - 1]), Contribution(ts[|ts| - 1]));
    }
  }

  /** Each account's total is the sum of that account's entries over the transactions. */
  function AccountTotal(ts: seq<Transaction>, a: string): int
    requires forall j :: 0 <= j < |ts| ==> Balanced(ts[j])
  {
    if ts == [] then 0 else AccountTotal(ts[..|ts| - 1], a) + Get(Contribution(ts[|ts| - 1]), a)
  }

  lemma {:induction false} TotalsPerAccount(ts: seq<Transaction>, a: string)
    requires forall j :: 0 <= j < |ts| ==> Balanced(ts[j])
    ensures Get(Totals(ts), a) == AccountTotal(ts, a)
  {
    if ts != [] {
      TotalsPerAccount(ts[..|ts| - 1], a);
    }
  }

  /** TransactionDateSorter.Less: the earlier date first. */
  predicate DateLess(tds: seq<Transaction>, i: nat, j: nat)
    requires i < |tds| && j < |tds|
  {
    Before(tds[i].date, tds[j].date)
  }

  /** Less is a strict weak order, as sort.Sort requires: irreflexive, transitive, and ties are transitive. */
  lemma DateLessStrictWeakOrder(tds: seq<Transaction>, i: nat, j: nat, k: nat)
    requires i < |tds| && j < |tds| && k < |tds|
    ensures !DateLess(tds, i, i)
    ensures DateLess(tds, i, j) && DateLess(tds, j, k) ==> DateLess(tds, i, k)
    ensures !DateLess(tds, i, j) && !DateLess(tds, j, i) && !DateLess(tds, j, k) && !DateLess(tds, k, j) ==>
      !DateLess(tds, i, k) && !DateLess(tds, k, i)
  {
    BeforeOrder(tds[i].date, tds[j].date, tds[k].date);
    BeforeOrder(tds[i].date, tds[k].date, tds[j].date);
  }

  /** TransactionDateSorter.Swap: exchanges two entries of the slice in place. */
  method Swap(tds: array<Transaction>, i: nat, j: nat)
    requires i < tds.Length && j < tds.Length
    modifies tds
    ensures tds[..] == old(tds[..])[i := old(tds[j])][j := old(tds[i])]
    ensures multiset(tds[..]) == old(multiset(tds[..]))
  {
    tds[i], tds[j] := tds[j], tds[i];
  }
}

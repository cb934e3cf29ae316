/**
 * ZipperHTTP and chooseAB (tools/zipper.go): two ledger files zipped into one. The directives
 * are those of the first file followed by the new ones of the second. The transactions are the
 * first file up to the sync point (the last transaction whose Code is the second file's first
 * Code), then the run on which both files agree by Code, then the two diverged tails merged by
 * date with ties broken by the ID, RID and FITID keys.
 */
module Zipper {
  import opened Wrappers
  import opened Ledger
  import Text
  import Directives
  import Files
  import Writing

  // ---------------------------------------------------------------------------------------
  // Directives

  /** d is Directive.Compare-equal to some directive of ds. */
  predicate Known(d: Directive, ds: seq<Directive>)
  {
    exists k :: 0 <= k < |ds| && Directives.Compare(d, ds[k])
  }

  /** The directives of bd, in order, that are not Compare-equal to any directive of ad. */
  function NewDirectives(bd: seq<Directive>, ad: seq<Directive>): seq<Directive>
  {
    if bd == [] then []
    else
      var n := |bd| - 1;
      NewDirectives(bd[..n], ad) + (if Known(bd[n], ad) then [] else [bd[n]])
  }

  /** The directive list of the zipped file. */
  function MergedDirectives(ad: seq<Directive>, bd: seq<Directive>): seq<Directive>
  {
    ad + NewDirectives(bd, ad)
  }

  /** A directive ends up among the new ones exactly when it is in bd and not known to ad. */
  lemma {:induction false} NewDirectivesMembers(bd: seq<Directive>, ad: seq<Directive>, d: Directive)
    ensures d in NewDirectives(bd, ad) <==> d in bd && !Known(d, ad)
  {
    if bd != [] {
      var n := |bd| - 1;
      NewDirectivesMembers(bd[..n], ad, d);
      assert bd == bd[..n] + [bd[n]];
    }
  }

  /** When no directive of bd is known to ad, all of bd is added, in order. */
  lemma {:induction false} NewDirectivesAllNew(bd: seq<Directive>, ad: seq<Directive>)
    requires forall i :: 0 <= i < |bd| ==> !Known(bd[i], ad)
    ensures NewDirectives(bd, ad) == bd
  {
    if bd != [] {
      var n := |bd| - 1;
      NewDirectivesAllNew(bd[..n], ad);
      assert bd == bd[..n] + [bd[n]];
    }
  }

  /** When every directive of bd is known to ad, nothing is added. */
  lemma {:induction false} NewDirectivesNoneNew(bd: seq<Directive>, ad: seq<Directive>)
    requires forall i :: 0 <= i < |bd| ==> Known(bd[i], ad)
    ensures NewDirectives(bd, ad) == []
  {
    if bd != [] {
      NewDirectivesNoneNew(bd[..|bd| - 1], ad);
    }
  }

  /** Zipping a file's directives with themselves adds nothing. */
  lemma MergedDirectivesSelf(ad: seq<Directive>)
    ensures MergedDirectives(ad, ad) == ad
  {
    forall i | 0 <= i < |ad| ensures Known(ad[i], ad) {
      assert Directives.Compare(ad[i], ad[i]);
    }
    NewDirectivesNoneNew(ad, ad);
  }

  lemma NewDirectivesSnoc(bd: seq<Directive>, i: nat, ad: seq<Directive>)
    requires i < |bd|
    ensures NewDirectives(bd[..i + 1], ad) == NewDirectives(bd[..i], ad) + (if Known(bd[i], ad) then [] else [bd[i]])
  {
    assert bd[..i + 1][..i] == bd[..i];
  }

  // ---------------------------------------------------------------------------------------
  // chooseAB and the order of the diverged tails

  /**
   * chooseAB: -1 puts a first, 1 puts b first, 0 cannot decide. A key present on one side
   * only puts that side first; otherwise the values are compared lexically.
   */
  function ChooseAB(a: map<string, string>, b: map<string, string>, key: string): int
  {
    if key in a && key !in b then -1
    else if key !in a && key in b then 1
    else if key !in a && key !in b then 0
    else if a[key] == b[key] then 0
    else if Text.Less(a[key], b[key]) then -1
    else 1
  }

  /**
   * chooseAB is antisymmetric, and it decides nothing exactly when the key is missing on both
   * sides or has the same value on both.
   */
  lemma ChooseABSpec(a: map<string, string>, b: map<string, string>, key: string)
    ensures ChooseAB(a, b, key) == -ChooseAB(b, a, key)
    ensures -1 <= ChooseAB(a, b, key) <= 1
    ensures ChooseAB(a, b, key) == 0 <==> (key !in a && key !in b) || (key in a && key in b && a[key] == b[key])
    ensures key in a && key !in b ==> ChooseAB(a, b, key) == -1
    ensures key in a && key in b && Text.Less(a[key], b[key]) ==> ChooseAB(a, b, key) == -1
  {
    if key in a && key in b {
      Text.LessIrreflexive(a[key]);
      Text.LessTrichotomy(a[key], b[key]);
      if Text.Less(a[key], b[key]) {
        Text.LessAsymmetric(a[key], b[key]);
      }
    }
  }

  /**
   * Which of two diverged heads goes first (negative: x, positive: y, 0: the merge fails):
   * the earlier date, then chooseAB on ID, RID and FITID in turn.
   */
  function Order(x: Transaction, y: Transaction): int
  {
    if Before(x.date, y.date) then -1
    else if After(x.date, y.date) then 1
    else
      var byId := ChooseAB(x.kvPairs, y.kvPairs, "ID");
      if byId != 0 then byId
      else
        var byRid := ChooseAB(x.kvPairs, y.kvPairs, "RID");
        if byRid != 0 then byRid
        else ChooseAB(x.kvPairs, y.kvPairs, "FITID")
  }

  /** Swapping the heads swaps the decision; a tie means the same date and no key decides. */
  lemma OrderSpec(x: Transaction, y: Transaction)
    ensures Order(x, y) == -Order(y, x)
    ensures Before(x.date, y.date) ==> Order(x, y) == -1
    ensures Order(x, y) == 0 ==>
      && x.date == y.date
      && ChooseAB(x.kvPairs, y.kvPairs, "ID") == 0
      && ChooseAB(x.kvPairs, y.kvPairs, "RID") == 0
      && ChooseAB(x.kvPairs, y.kvPairs, "FITID") == 0
  {
    BeforeOrder(x.date, y.date, y.date);
    ChooseABSpec(x.kvPairs, y.kvPairs, "ID");
    ChooseABSpec(x.kvPairs, y.kvPairs, "RID");
    ChooseABSpec(x.kvPairs, y.kvPairs, "FITID");
  }

  // ---------------------------------------------------------------------------------------
  // The transactions

  /** The sync point search from index k down: the last index at most k with the code, or -1. */
  function SyncFrom(at: seq<Transaction>, code: string, k: int): (r: int)
    requires -1 <= k < |at|
    ensures -1 <= r <= k
    decreases k + 1
  {
    if k < 0 then -1
    else if at[k].code == code then k
    else SyncFrom(at, code, k - 1)
  }

  /** The sync point: the last transaction of at with the given code, -1 when there is none. */
  function SyncPoint(at: seq<Transaction>, code: string): int
  {
    SyncFrom(at, code, |at| - 1)
  }

  lemma {:induction false} SyncFromSpec(at: seq<Transaction>, code: string, k: int)
    requires -1 <= k < |at|
    ensures var r := SyncFrom(at, code, k);
      && (r >= 0 ==> at[r].code == code)
      && (forall j :: r < j <= k ==> at[j].code != code)
    decreases k + 1
  {
    if k >= 0 && at[k].code != code {
      SyncFromSpec(at, code, k - 1);
    }
  }

  /** SyncPoint is the last index with the code, and -1 exactly when no transaction has it. */
  lemma SyncPointSpec(at: seq<Transaction>, code: string)
    ensures -1 <= SyncPoint(at, code) < |at|
    ensures SyncPoint(at, code) >= 0 ==> at[SyncPoint(at, code)].code == code
    ensures forall j :: SyncPoint(at, code) < j < |at| ==> at[j].code != code
  {
    SyncFromSpec(at, code, |at| - 1);
  }

  /**
   * The agreed run from i1 in at and i2 in bt: it advances both while the codes match. The
   * loop goes on while either side has transactions left but indexes both, so when one side
   * ends before the other the Go code indexes past the end; that is IndexOutOfRange here.
   */
  function Agreed(at: seq<Transaction>, bt: seq<Transaction>, i1: nat, i2: nat): (r: Result<(nat, nat), LedgerError>)
    requires i1 <= |at| && i2 <= |bt|
    ensures r.Ok? ==> i1 <= r.value.0 <= |at| && i2 <= r.value.1 <= |bt|
    decreases |at| - i1
  {
    if !(i1 < |at| || i2 < |bt|) then Ok((i1, i2))
    else if i1 >= |at| || i2 >= |bt| then Err(IndexOutOfRange)
    else if at[i1].code != bt[i2].code then Ok((i1, i2))
    else Agreed(at, bt, i1 + 1, i2 + 1)
  }

  /** The number of positions from i1 and i2 on where both sides have a transaction and the codes match. */
  function RunLength(at: seq<Transaction>, bt: seq<Transaction>, i1: nat, i2: nat): (n: nat)
    requires i1 <= |at| && i2 <= |bt|
    ensures i1 + n <= |at| && i2 + n <= |bt|
    decreases |at| - i1
  {
    if i1 < |at| && i2 < |bt| && at[i1].code == bt[i2].code then 1 + RunLength(at, bt, i1 + 1, i2 + 1)
    else 0
  }

  /**
   * The agreed run covers the codes that match from i1 and i2 on. When it stops at two codes
   * that differ, or with both sides ended, it succeeds there; when exactly one side has ended
   * it fails with IndexOutOfRange.
   */
  lemma {:induction false} AgreedSpec(at: seq<Transaction>, bt: seq<Transaction>, i1: nat, i2: nat)
    requires i1 <= |at| && i2 <= |bt|
    ensures var n := RunLength(at, bt, i1, i2);
      && (forall k :: i1 <= k < i1 + n ==> at[k].code == bt[k - i1 + i2].code)
      && (i1 + n < |at| && i2 + n < |bt| ==> at[i1 + n].code != bt[i2 + n].code)
      && (Agreed(at, bt, i1, i2).Ok? <==> (i1 + n == |at| <==> i2 + n == |bt|))
      && (Agreed(at, bt, i1, i2).Ok? ==> Agreed(at, bt, i1, i2).value == (i1 + n, i2 + n))
      && (Agreed(at, bt, i1, i2).Err? ==> Agreed(at, bt, i1, i2).error == IndexOutOfRange)
    decreases |at| - i1
  {
    if i1 < |at| && i2 < |bt| && at[i1].code == bt[i2].code {
      AgreedSpec(at, bt, i1 + 1, i2 + 1);
    }
  }

  /** x in front of a successful result. */
  function Cons(x: Transaction, r: Result<seq<Transaction>, LedgerError>): Result<seq<Transaction>, LedgerError>
  {
    match r
    case Ok(s) => Ok([x] + s)
    case Err(e) => Err(e)
  }

  /** p in front of a successful result. */
  function Then(p: seq<Transaction>, r: Result<seq<Transaction>, LedgerError>): Result<seq<Transaction>, LedgerError>
  {
    match r
    case Ok(s) => Ok(p + s)
    case Err(e) => Err(e)
  }

  lemma ThenCons(p: seq<Transaction>, x: Transaction, r: Result<seq<Transaction>, LedgerError>)
    ensures Then(p + [x], r) == Then(p, Cons(x, r))
  {
    if r.Ok? {
      assert (p + [x]) + r.value == p + ([x] + r.value);
    }
  }

  /** The merge of the diverged tails at[i1..] and bt[i2..]. */
  function Merge(at: seq<Transaction>, bt: seq<Transaction>, i1: nat, i2: nat): Result<seq<Transaction>, LedgerError>
    requires i1 <= |at| && i2 <= |bt|
    decreases |at| - i1 + |bt| - i2
  {
    if i1 == |at| && i2 == |bt| then Ok([])
    else if i1 == |at| then Cons(bt[i2], Merge(at, bt, i1, i2 + 1))
    else if i2 == |bt| then Cons(at[i1], Merge(at, bt, i1 + 1, i2))
    else
      var o := Order(at[i1], bt[i2]);
      if o < 0 then Cons(at[i1], Merge(at, bt, i1 + 1, i2))
      else if o > 0 then Cons(bt[i2], Merge(at, bt, i1, i2 + 1))
      else Err(CouldNotOrder)
  }

  /**
   * ZipperHTTP's transaction list: a up to the sync point, the agreed run, and the merged tails.
   * The backward scan reads b.T[0] only when a has a transaction, so an empty b is
   * IndexOutOfRange unless a is empty too; then both loops are skipped and the list is empty.
   */
  function Zip(at: seq<Transaction>, bt: seq<Transaction>): Result<seq<Transaction>, LedgerError>
  {
    if bt == [] then (if at == [] then Ok([]) else Err(IndexOutOfRange))
    else
      var sp := SyncPoint(at, bt[0].code);
      match Agreed(at, bt, sp + 1, 1)
      case Err(e) => Err(e)
      case Ok(p) => Then(at[..p.0], Merge(at, bt, p.0, p.1))
  }

  /** out is xs and ys interleaved: each element of each once, each list in its own order. */
  predicate Interleaving(out: seq<Transaction>, xs: seq<Transaction>, ys: seq<Transaction>)
    decreases |out|
  {
    if out == [] then xs == [] && ys == []
    else
      || (xs != [] && out[0] == xs[0] && Interleaving(out[1..], xs[1..], ys))
      || (ys != [] && out[0] == ys[0] && Interleaving(out[1..], xs, ys[1..]))
  }

  /** An interleaving has exactly the elements of both lists. */
  lemma {:induction false} InterleavingMultiset(out: seq<Transaction>, xs: seq<Transaction>, ys: seq<Transaction>)
    requires Interleaving(out, xs, ys)
    ensures multiset(out) == multiset(xs) + multiset(ys)
    ensures |out| == |xs| + |ys|
    decreases |out|
  {
    if out != [] {
      assert out == [out[0]] + out[1..];
      if xs != [] && out[0] == xs[0] && Interleaving(out[1..], xs[1..], ys) {
        InterleavingMultiset(out[1..], xs[1..], ys);
        assert xs == [xs[0]] + xs[1..];
      } else {
        InterleavingMultiset(out[1..], xs, ys[1..]);
        assert ys == [ys[0]] + ys[1..];
      }
    }
  }

  lemma DropFirst(s: seq<Transaction>, i: nat)
    requires i < |s|
    ensures s[i..] == [s[i]] + s[i + 1..]
  {
  }

  /** A successful merge interleaves the two diverged tails. */
  lemma {:induction false} MergeInterleaves(at: seq<Transaction>, bt: seq<Transaction>, i1: nat, i2: nat)
    requires i1 <= |at| && i2 <= |bt|
    requires Merge(at, bt, i1, i2).Ok?
    ensures Interleaving(Merge(at, bt, i1, i2).value, at[i1..], bt[i2..])
    decreases |at| - i1 + |bt| - i2
  {
    var out := Merge(at, bt, i1, i2).value;
    if i1 == |at| && i2 == |bt| {
    } else if i1 < |at| && (i2 == |bt| || Order(at[i1], bt[i2]) < 0) {
      MergeInterleaves(at, bt, i1 + 1, i2);
      DropFirst(at, i1);
      assert out[1..] == Merge(at, bt, i1 + 1, i2).value;
    } else {
      MergeInterleaves(at, bt, i1, i2 + 1);
      DropFirst(bt, i2);
      assert out[1..] == Merge(at, bt, i1, i2 + 1).value;
    }
  }

  /** The merge fails only with CouldNotOrder, and only on reaching two heads that tie. */
  lemma {:induction false} MergeFails(at: seq<Transaction>, bt: seq<Transaction>, i1: nat, i2: nat)
    requires i1 <= |at| && i2 <= |bt|
    requires Merge(at, bt, i1, i2).Err?
    ensures Merge(at, bt, i1, i2).error == CouldNotOrder
    ensures exists i, j :: i1 <= i < |at| && i2 <= j < |bt| && Order(at[i], bt[j]) == 0
    decreases |at| - i1 + |bt| - i2
  {
    if i1 == |at| {
      MergeFails(at, bt, i1, i2 + 1);
    } else if i2 == |bt| {
      MergeFails(at, bt, i1 + 1, i2);
    } else if Order(at[i1], bt[i2]) < 0 {
      MergeFails(at, bt, i1 + 1, i2);
    } else if Order(at[i1], bt[i2]) > 0 {
      MergeFails(at, bt, i1, i2 + 1);
    }
  }

  /** Without a tie between the two tails the merge succeeds. */
  lemma {:induction false} MergeNoTie(at: seq<Transaction>, bt: seq<Transaction>, i1: nat, i2: nat)
    requires i1 <= |at| && i2 <= |bt|
    requires forall i, j :: i1 <= i < |at| && i2 <= j < |bt| ==> Order(at[i], bt[j]) != 0
    ensures Merge(at, bt, i1, i2).Ok?
  {
    if Merge(at, bt, i1, i2).Err? {
      MergeFails(at, bt, i1, i2);
    }
  }

  /**
   * A successful zip starts with a's transactions up to the end of the agreed run; the rest is
   * the interleaving of the two tails after it.
   */
  lemma ZipShape(at: seq<Transaction>, bt: seq<Transaction>)
    requires Zip(at, bt).Ok?
    ensures bt == [] ==> at == [] && Zip(at, bt).value == []
    ensures bt != [] ==> Agreed(at, bt, SyncPoint(at, bt[0].code) + 1, 1).Ok?
    ensures bt != [] ==> var e := Agreed(at, bt, SyncPoint(at, bt[0].code) + 1, 1).value;
      && Zip(at, bt).value[..e.0] == at[..e.0]
      && Interleaving(Zip(at, bt).value[e.0..], at[e.0..], bt[e.1..])
  {
    if bt != [] {
      var e := Agreed(at, bt, SyncPoint(at, bt[0].code) + 1, 1).value;
      MergeInterleaves(at, bt, e.0, e.1);
      var m := Merge(at, bt, e.0, e.1).value;
      var z := Zip(at, bt).value;
      assert z == at[..e.0] + m;
      assert z[e.0..] == m && z[..e.0] == at[..e.0];
    }
  }

  lemma {:induction false} AgreedSelf(at: seq<Transaction>, i: nat)
    requires i <= |at|
    ensures Agreed(at, at, i, i) == Ok((|at|, |at|))
    decreases |at| - i
  {
    if i < |at| {
      AgreedSelf(at, i + 1);
    }
  }

  /** The search from k down stops at 0 when no index in 1..k has the code at 0. */
  lemma {:induction false} SyncFromFirst(at: seq<Transaction>, k: int)
    requires 0 <= k < |at|
    requires forall j :: 0 < j < |at| ==> at[j].code != at[0].code
    ensures SyncFrom(at, at[0].code, k) == 0
    decreases k
  {
    if k > 0 {
      SyncFromFirst(at, k - 1);
    }
  }

  /** An empty b zips only with an empty a, to no transactions; otherwise b.T[0] is read. */
  lemma ZipEmptyB(at: seq<Transaction>)
    ensures Zip(at, []).Ok? <==> at == []
    ensures Zip(at, []).Ok? ==> Zip(at, []).value == []
    ensures Zip(at, []).Err? ==> Zip(at, []).error == IndexOutOfRange
  {
  }

  /** A list whose first Code occurs nowhere else zips with itself to itself. */
  lemma ZipSelf(at: seq<Transaction>)
    requires at != [] && forall k :: 0 < k < |at| ==> at[k].code != at[0].code
    ensures Zip(at, at) == Ok(at)
  {
    SyncFromFirst(at, |at| - 1);
    AgreedSelf(at, 1);
    assert Merge(at, at, |at|, |at|) == Ok([]);
    assert at[..|at|] + [] == at;
  }

  // ---------------------------------------------------------------------------------------
  // ZipperHTTP

  lemma MergeStep(at: seq<Transaction>, bt: seq<Transaction>, i1: nat, i2: nat, trs: seq<Transaction>, fromA: bool)
    requires i1 <= |at| && i2 <= |bt| && !(i1 == |at| && i2 == |bt|)
    requires fromA ==> i1 < |at| && (i2 == |bt| || Order(at[i1], bt[i2]) < 0)
    requires !fromA ==> i2 < |bt| && (i1 == |at| || Order(at[i1], bt[i2]) > 0)
    ensures fromA ==> Then(trs + [at[i1]], Merge(at, bt, i1 + 1, i2)) == Then(trs, Merge(at, bt, i1, i2))
    ensures !fromA ==> Then(trs + [bt[i2]], Merge(at, bt, i1, i2 + 1)) == Then(trs, Merge(at, bt, i1, i2))
  {
    if fromA {
      ThenCons(trs, at[i1], Merge(at, bt, i1 + 1, i2));
    } else {
      ThenCons(trs, bt[i2], Merge(at, bt, i1, i2 + 1));
    }
  }

  /** The directive half of ZipperHTTP: a.D, then each directive of b.D that a.D does not know. */
  method CollectDirectives(ad: seq<Directive>, bd: seq<Directive>) returns (drs: seq<Directive>)
    ensures drs == MergedDirectives(ad, bd)
  {
    drs := ad;
    var di := 0;
    label outer:
    while di < |bd|
      invariant 0 <= di <= |bd|
      invariant drs == ad + NewDirectives(bd[..di], ad)
    {
      var d2 := bd[di];
      NewDirectivesSnoc(bd, di, ad);
      di := di + 1;
      var dj := 0;
      while dj < |ad|
        invariant 0 <= dj <= |ad|
        invariant forall k :: 0 <= k < dj ==> !Directives.Compare(d2, ad[k])
      {
        if Directives.Compare(d2, ad[dj]) {
          continue outer;
        }
        dj := dj + 1;
      }
      drs := drs + [d2];
    }
    assert bd[..|bd|] == bd;
    // The anchor reset: d is a copy of the element, so drs is left as it is.
    var k := 0;
    while k < |drs|
      invariant 0 <= k <= |drs|
    {
      var d := drs[k];
      d := d.(foundBefore := 0);
      k := k + 1;
    }
  }

  // The anchor reset is meant to move every directive to the top of the zipped file; as written
  // it changes a copy, and each directive keeps the anchor it had in its own file.

  /** As written: a directive of b anchored past the zipped transactions keeps that anchor. */
  lemma AnchorKept(d: Directive, ts: seq<Transaction>)
    requires d.foundBefore == |ts| + 1
    ensures MergedDirectives([], [d]) == [d]
    ensures !Files.AnchorsInRange(MergedDirectives([], [d]), |ts|)
    ensures !Writing.Anchored(ts, Files.StableSort(MergedDirectives([], [d])))
  {
    assert [d][..0] == [];
    assert !Known(d, []);
    assert NewDirectives([d], []) == [d];
    Files.FormatAnchors(ts, [d]);
  }

  /** The directives with every anchor set to 0, the rest of each kept. */
  function ResetAnchors(ds: seq<Directive>): (r: seq<Directive>)
    ensures |r| == |ds|
    ensures forall i :: 0 <= i < |r| ==> r[i].foundBefore == 0 && r[i].(foundBefore := ds[i].foundBefore) == ds[i]
  {
    seq(|ds|, i requires 0 <= i < |ds| => ds[i].(foundBefore := 0))
  }

  /** Corrected: the directive list of the zipped file, every directive anchored at the top. */
  function MergedDirectivesFixed(ad: seq<Directive>, bd: seq<Directive>): seq<Directive>
  {
    ResetAnchors(MergedDirectives(ad, bd))
  }

  /** With the anchors reset, the zipped file writes, directives first, whatever its transactions. */
  lemma MergedDirectivesFixedAnchored(ad: seq<Directive>, bd: seq<Directive>, ts: seq<Transaction>)
    ensures |MergedDirectivesFixed(ad, bd)| == |MergedDirectives(ad, bd)|
    ensures Files.AnchorsInRange(MergedDirectivesFixed(ad, bd), 0)
    ensures Writing.Anchored(ts, Files.StableSort(MergedDirectivesFixed(ad, bd)))
  {
    var r := MergedDirectivesFixed(ad, bd);
    assert Files.AnchorsInRange(r, |ts|);
    Files.FormatAnchors(ts, r);
  }

  /** The backward scan for the sync point. */
  method FindSyncPoint(at: seq<Transaction>, code: string) returns (syncPoint: int)
    ensures syncPoint == SyncPoint(at, code)
  {
    syncPoint := |at| - 1;
    while syncPoint >= 0
      invariant -1 <= syncPoint < |at|
      invariant SyncPoint(at, code) == SyncFrom(at, code, syncPoint)
    {
      if at[syncPoint].code == code {
        break;
      }
      syncPoint := syncPoint - 1;
    }
  }

  /**
   * The copy of at up to the sync point and the agreed run after it: the transactions so far
   * and the two cursors, or IndexOutOfRange where Go indexes past an end.
   */
  method CopyAgreed(at: seq<Transaction>, bt: seq<Transaction>, syncPoint: int)
    returns (trs: seq<Transaction>, i1: nat, i2: nat, err: Option<LedgerError>)
    requires -1 <= syncPoint < |at| && bt != []
    ensures Agreed(at, bt, syncPoint + 1, 1).Err? ==> err == Some(Agreed(at, bt, syncPoint + 1, 1).error)
    ensures Agreed(at, bt, syncPoint + 1, 1).Ok? ==>
      && err == None && Agreed(at, bt, syncPoint + 1, 1).value == (i1, i2)
      && i1 <= |at| && i2 <= |bt| && trs == at[..i1]
  {
    trs := [];
    var i := 0;
    while i <= syncPoint
      invariant 0 <= i <= syncPoint + 1 && trs == at[..i]
    {
      trs := trs + [at[i]];
      i := i + 1;
    }
    i1, i2 := syncPoint + 1, 1;
    while i1 < |at| || i2 < |bt|
      invariant i1 <= |at| && 1 <= i2 <= |bt| && trs == at[..i1]
      invariant Agreed(at, bt, i1, i2) == Agreed(at, bt, syncPoint + 1, 1)
      decreases |at| - i1
    {
      if i1 >= |at| || i2 >= |bt| {
        return trs, i1, i2, Some(IndexOutOfRange);
      }
      if at[i1].code != bt[i2].code {
        break;
      }
      trs := trs + [at[i1]];
      i1, i2 := i1 + 1, i2 + 1;
    }
    err := None;
  }

  /** The merge loop over the diverged tails, appending to trs. */
  method MergeTails(at: seq<Transaction>, bt: seq<Transaction>, i1: nat, i2: nat, trs: seq<Transaction>)
    returns (r: Result<seq<Transaction>, LedgerError>)
    requires i1 <= |at| && i2 <= |bt|
    ensures r == Then(trs, Merge(at, bt, i1, i2))
  {
    var out: seq<Transaction>, j1: nat, j2: nat := trs, i1, i2;
    while j1 < |at| || j2 < |bt|
      invariant j1 <= |at| && j2 <= |bt|
      invariant Then(out, Merge(at, bt, j1, j2)) == Then(trs, Merge(at, bt, i1, i2))
      decreases |at| - j1 + |bt| - j2
    {
      if j1 >= |at| {
        MergeStep(at, bt, j1, j2, out, false);
        out := out + [bt[j2]];
        j2 := j2 + 1;
        continue;
      }
      if j2 >= |bt| {
        MergeStep(at, bt, j1, j2, out, true);
        out := out + [at[j1]];
        j1 := j1 + 1;
        continue;
      }
      var x, y := at[j1], bt[j2];
      if Before(x.date, y.date) {
        MergeStep(at, bt, j1, j2, out, true);
        out := out + [x];
        j1 := j1 + 1;
        continue;
      }
      if After(x.date, y.date) {
        MergeStep(at, bt, j1, j2, out, false);
        out := out + [y];
        j2 := j2 + 1;
        continue;
      }
      var dir := ChooseAB(x.kvPairs, y.kvPairs, "ID");
      if dir == 0 {
        dir := ChooseAB(x.kvPairs, y.kvPairs, "RID");
      }
      if dir == 0 {
        dir := ChooseAB(x.kvPairs, y.kvPairs, "FITID");
      }
      if dir < 0 {
        MergeStep(at, bt, j1, j2, out, true);
        out := out + [x];
        j1 := j1 + 1;
        continue;
      }
      if dir > 0 {
        MergeStep(at, bt, j1, j2, out, false);
        out := out + [y];
        j2 := j2 + 1;
        continue;
      }
      return Err(CouldNotOrder);
    }
    assert out + [] == out;
    return Ok(out);
  }

  /**
   * ZipperHTTP: the zipped file, or the error of Zip. Neither input file is changed, and the
   * directives keep their FoundBefore values.
   */
  method ZipperHTTP(a: Files.File, b: Files.File) returns (r: Result<Files.File, LedgerError>)
    ensures Zip(a.T, b.T).Err? ==> r.Err? && r.error == Zip(a.T, b.T).error
    ensures Zip(a.T, b.T).Ok? ==>
      && r.Ok? && fresh(r.value)
      && r.value.T == Zip(a.T, b.T).value && r.value.D == MergedDirectives(a.D, b.D)
  {
    var drs := CollectDirectives(a.D, b.D);
    if |b.T| == 0 {
      if |a.T| == 0 {
        // the scan, the agreed run and the merge all stop before indexing
        var f := new Files.File([], drs);
        return Ok(f);
      }
      return Err(IndexOutOfRange);
    }
    var syncPoint := FindSyncPoint(a.T, b.T[0].code);
    SyncPointSpec(a.T, b.T[0].code);
    var trs, i1, i2, err := CopyAgreed(a.T, b.T, syncPoint);
    if err.Some? {
      return Err(err.value);
    }
    var merged := MergeTails(a.T, b.T, i1, i2, trs);
    if merged.Err? {
      return Err(merged.error);
    }
    var f := new Files.File(merged.value, drs);
    return Ok(f);
  }
}

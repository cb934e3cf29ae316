/**
 * LTail (tools/ltail.go): the tail of a ledger file from the last transaction with a given ID
 * (and RID, when one is given), with the directives that come after it.
 */
module LTail {
  import opened Wrappers
  import opened Ledger
  import Files

  /** The transaction has the ID, and the RID too when rid is not empty. */
  predicate TailMatch(t: Transaction, id: string, rid: string)
  {
    && "ID" in t.kvPairs && t.kvPairs["ID"] == id
    && (rid != "" ==> "RID" in t.kvPairs && t.kvPairs["RID"] == rid)
  }

  /** The backward search from k: the last index at most k that matches, or -1. */
  function TailFrom(ts: seq<Transaction>, id: string, rid: string, k: int): (r: int)
    requires -1 <= k < |ts|
    ensures -1 <= r <= k
    decreases k + 1
  {
    if k < 0 then -1
    else if TailMatch(ts[k], id, rid) then k
    else TailFrom(ts, id, rid, k - 1)
  }

  /** Where the tail starts: the last matching transaction, -1 when none matches. */
  function TailIndex(ts: seq<Transaction>, id: string, rid: string): int
  {
    TailFrom(ts, id, rid, |ts| - 1)
  }

  lemma {:induction false} TailFromSpec(ts: seq<Transaction>, id: string, rid: string, k: int)
    requires -1 <= k < |ts|
    ensures var r := TailFrom(ts, id, rid, k);
      && (r >= 0 ==> TailMatch(ts[r], id, rid))
      && (forall j :: r < j <= k ==> !TailMatch(ts[j], id, rid))
    decreases k + 1
  {
    if k >= 0 && !TailMatch(ts[k], id, rid) {
      TailFromSpec(ts, id, rid, k - 1);
    }
  }

  /**
   * The tail starts at a matching transaction and no later one matches; -1 means that no
   * transaction matches at all.
   */
  lemma TailIndexSpec(ts: seq<Transaction>, id: string, rid: string)
    ensures -1 <= TailIndex(ts, id, rid) < |ts|
    ensures TailIndex(ts, id, rid) >= 0 ==> TailMatch(ts[TailIndex(ts, id, rid)], id, rid)
    ensures forall j :: TailIndex(ts, id, rid) < j < |ts| ==> !TailMatch(ts[j], id, rid)
  {
    TailFromSpec(ts, id, rid, |ts| - 1);
  }

  /** The forward search from j: the first index at least j anchored after i, or |ds|. */
  function CutFrom(ds: seq<Directive>, i: int, j: nat): (r: nat)
    requires j <= |ds|
    ensures j <= r <= |ds|
    decreases |ds| - j
  {
    if j == |ds| then |ds|
    else if ds[j].foundBefore > i then j
    else CutFrom(ds, i, j + 1)
  }

  /** The first directive kept: the first one anchored after transaction i. */
  function CutIndex(ds: seq<Directive>, i: int): nat
  {
    CutFrom(ds, i, 0)
  }

  lemma {:induction false} CutFromSpec(ds: seq<Directive>, i: int, j: nat)
    requires j <= |ds|
    ensures var r := CutFrom(ds, i, j);
      && (r < |ds| ==> ds[r].foundBefore > i)
      && (forall k :: j <= k < r ==> ds[k].foundBefore <= i)
    decreases |ds| - j
  {
    if j < |ds| && ds[j].foundBefore <= i {
      CutFromSpec(ds, i, j + 1);
    }
  }

  /** Every directive before the cut is anchored at or before i; the one at the cut after it. */
  lemma CutIndexSpec(ds: seq<Directive>, i: int)
    ensures CutIndex(ds, i) <= |ds|
    ensures CutIndex(ds, i) < |ds| ==> ds[CutIndex(ds, i)].foundBefore > i
    ensures forall k :: 0 <= k < CutIndex(ds, i) ==> ds[k].foundBefore <= i
  {
    CutFromSpec(ds, i, 0);
  }

  /** Each anchor moved down by i: what the FoundBefore adjustment loop leaves. */
  function Rebase(ds: seq<Directive>, i: int): seq<Directive>
  {
    seq(|ds|, k requires 0 <= k < |ds| => ds[k].(foundBefore := ds[k].foundBefore - i))
  }

  /** Rebasing changes nothing but the anchors, and rebasing back restores the list. */
  lemma RebaseRoundTrip(ds: seq<Directive>, i: int)
    ensures |Rebase(ds, i)| == |ds|
    ensures forall k :: 0 <= k < |ds| ==> Rebase(ds, i)[k].(foundBefore := 0) == ds[k].(foundBefore := 0)
    ensures Rebase(Rebase(ds, i), -i) == ds
  {
    var r := Rebase(Rebase(ds, i), -i);
    assert |r| == |ds|;
    forall k | 0 <= k < |ds|
      ensures r[k] == ds[k]
    {
    }
  }

  /**
   * In a list sorted by anchor the kept directives are exactly those anchored after i: one
   * anchored at i itself, which stands before the first transaction kept, is dropped too.
   * Every kept anchor ends at least 1, and anchors within n transactions stay within the
   * n - i transactions of the tail.
   */
  lemma TailDirectives(ds: seq<Directive>, i: int, n: int)
    requires Files.SortedByAnchor(ds)
    ensures forall k :: 0 <= k < |ds| ==> (CutIndex(ds, i) <= k <==> ds[k].foundBefore > i)
    ensures forall d :: d in Rebase(ds[CutIndex(ds, i)..], i) ==> d.foundBefore >= 1
    ensures Files.AnchorsInRange(ds, n) ==> Files.AnchorsInRange(Rebase(ds[CutIndex(ds, i)..], i), n - i)
  {
    CutIndexSpec(ds, i);
    var c := CutIndex(ds, i);
    forall k | 0 <= k < |ds|
      ensures c <= k <==> ds[k].foundBefore > i
    {
      if c <= k && c < |ds| {
        assert ds[c].foundBefore <= ds[k].foundBefore;
      }
    }
  }

  /** The backward loop of LTail: stops at the last matching transaction, or at -1. */
  method FindTail(ts: seq<Transaction>, id: string, rid: string) returns (i: int)
    ensures i == TailIndex(ts, id, rid)
  {
    i := |ts| - 1;
    while i >= 0
      invariant -1 <= i < |ts|
      invariant TailFrom(ts, id, rid, i) == TailIndex(ts, id, rid)
    {
      if "ID" in ts[i].kvPairs && ts[i].kvPairs["ID"] == id {
        if rid != "" {
          if "RID" in ts[i].kvPairs && ts[i].kvPairs["RID"] == rid {
            break;
          }
          i := i - 1;
          continue;
        }
        break;
      }
      i := i - 1;
    }
  }

  /** The forward loop of LTail: stops at the first directive anchored after i. */
  method FindCut(ds: seq<Directive>, i: int) returns (j: nat)
    ensures j == CutIndex(ds, i)
  {
    j := 0;
    while j < |ds|
      invariant j <= |ds|
      invariant CutFrom(ds, i, j) == CutIndex(ds, i)
    {
      if ds[j].foundBefore > i {
        break;
      }
      j := j + 1;
    }
  }

  /**
   * The FoundBefore adjustment: the loop runs over the slice ds[j..], which shares its backing
   * array with ds, so every directive from j on moves down by i in ds itself.
   */
  method RebaseFrom(ds: seq<Directive>, j: nat, i: int) returns (d: seq<Directive>)
    requires j <= |ds|
    ensures d == ds[..j] + Rebase(ds[j..], i)
  {
    d := ds;
    var k := 0;
    while k < |ds| - j
      invariant 0 <= k <= |ds| - j
      invariant |d| == |ds|
      invariant forall m :: 0 <= m < j + k ==> d[m] == (if m < j then ds[m] else ds[m].(foundBefore := ds[m].foundBefore - i))
      invariant forall m :: j + k <= m < |ds| ==> d[m] == ds[m]
    {
      d := d[j + k := d[j + k].(foundBefore := d[j + k].foundBefore - i)];
      k := k + 1;
    }
    assert d == ds[..j] + Rebase(ds[j..], i);
  }

  /**
   * LTail: keeps the transactions from the last matching one on, drops the directives up to
   * the first one anchored after it and moves the remaining anchors down. The adjustment
   * writes through the shared backing array, so the caller's f.D changes too. Without a match
   * Go slices at -1 and panics.
   */
  method LTail(f: Files.File, id: string, rid: string) returns (r: Result<Files.File, LedgerError>)
    modifies f
    ensures TailIndex(old(f.T), id, rid) == -1 ==> r == Err(IndexOutOfRange) && f.T == old(f.T) && f.D == old(f.D)
    ensures TailIndex(old(f.T), id, rid) >= 0 ==>
      var i := TailIndex(old(f.T), id, rid);
      var j := CutIndex(old(f.D), i);
      && r.Ok? && fresh(r.value)
      && r.value.T == old(f.T)[i..]
      && r.value.D == Rebase(old(f.D)[j..], i)
      && f.T == old(f.T)
      && f.D == old(f.D)[..j] + Rebase(old(f.D)[j..], i)
  {
    var i := FindTail(f.T, id, rid);
    if i < 0 {
      return Err(IndexOutOfRange);
    }
    TailIndexSpec(f.T, id, rid);
    var rtrs := f.T[i..];
    var rdrs := f.D;
    if |f.D| > 0 {
      var j := FindCut(f.D, i);
      CutIndexSpec(f.D, i);
      f.D := RebaseFrom(f.D, j, i);
      rdrs := f.D[j..];
    }
    var tail := new Files.File(rtrs, rdrs);
    r := Ok(tail);
  }

  /**
   * LTail as its doc comment promises: without a matching transaction the result is an empty
   * file, and f stays as it is; with a match it is LTail's result.
   */
  method LTailFixed(f: Files.File, id: string, rid: string) returns (r: Files.File)
    modifies f
    ensures TailIndex(old(f.T), id, rid) == -1 ==>
      fresh(r) && r.T == [] && r.D == [] && f.T == old(f.T) && f.D == old(f.D)
    ensures TailIndex(old(f.T), id, rid) >= 0 ==>
      var i := TailIndex(old(f.T), id, rid);
      var j := CutIndex(old(f.D), i);
      && fresh(r)
      && r.T == old(f.T)[i..]
      && r.D == Rebase(old(f.D)[j..], i)
      && f.T == old(f.T)
      && f.D == old(f.D)[..j] + Rebase(old(f.D)[j..], i)
  {
    var t := LTail(f, id, rid);
    if t.Err? {
      r := new Files.File([], []);
    } else {
      r := t.value;
    }
  }
}

/**
 * WriteLedgerFile (write.go): the transactions and directives of a file written in one pass, each
 * directive in front of the transaction whose index is its FoundBefore. The writer is recorded as
 * the sequence of items written; each is written as a newline followed by its String.
 */
module Writing {
  import opened Wrappers
  import opened Ledger

  datatype Item = TransactionItem(t: Transaction) | DirectiveItem(d: Directive)

  function TransactionsOf(out: seq<Item>): seq<Transaction>
  {
    if out == [] then []
    else
      var last := out[|out| - 1];
      TransactionsOf(out[..|out| - 1]) + (if last.TransactionItem? then [last.t] else [])
  }

  function DirectivesOf(out: seq<Item>): seq<Directive>
  {
    if out == [] then []
    else
      var last := out[|out| - 1];
      DirectivesOf(out[..|out| - 1]) + (if last.DirectiveItem? then [last.d] else [])
  }

  /** Every directive written stands after exactly FoundBefore transactions. */
  predicate AnchorsHold(out: seq<Item>)
  {
    forall p :: 0 <= p < |out| && out[p].DirectiveItem? ==> |TransactionsOf(out[..p])| == out[p].d.foundBefore
  }

  /** out holds the transactions and the directives, each list in its own order, each directive at its anchor. */
  predicate Interleaves(out: seq<Item>, trs: seq<Transaction>, drs: seq<Directive>)
  {
    TransactionsOf(out) == trs && DirectivesOf(out) == drs && AnchorsHold(out)
  }

  /** The directives' anchors are ascending and each names a place among the transactions. */
  predicate Anchored(trs: seq<Transaction>, drs: seq<Directive>)
  {
    && (forall i :: 0 <= i < |drs| ==> 0 <= drs[i].foundBefore <= |trs|)
    && (forall i, j :: 0 <= i < j < |drs| ==> drs[i].foundBefore <= drs[j].foundBefore)
  }

  /** The state of the loop after writing the first ctr transactions and cdr directives. */
  predicate Progress(trs: seq<Transaction>, drs: seq<Directive>, out: seq<Item>, ctr: nat, cdr: nat)
  {
    && ctr <= |trs| && cdr <= |drs|
    && TransactionsOf(out) == trs[..ctr] && DirectivesOf(out) == drs[..cdr] && AnchorsHold(out)
    && (forall i :: 0 <= i < cdr ==> 0 <= drs[i].foundBefore <= ctr)
    && (forall i, j :: 0 <= i < j < cdr ==> drs[i].foundBefore <= drs[j].foundBefore)
    && (Anchored(trs, drs) ==> forall j :: cdr <= j < |drs| ==> ctr <= drs[j].foundBefore)
  }

  lemma AnchorsKept(out: seq<Item>, x: Item)
    requires AnchorsHold(out)
    requires x.DirectiveItem? ==> x.d.foundBefore == |TransactionsOf(out)|
    ensures AnchorsHold(out + [x])
  {
    var o := out + [x];
    assert o[..|out|] == out;
    forall p | 0 <= p < |out| ensures o[..p] == out[..p] {
    }
  }

  lemma EmitDirective(trs: seq<Transaction>, drs: seq<Directive>, out: seq<Item>, ctr: nat, cdr: nat)
    requires Progress(trs, drs, out, ctr, cdr) && cdr < |drs| && drs[cdr].foundBefore == ctr
    ensures Progress(trs, drs, out + [DirectiveItem(drs[cdr])], ctr, cdr + 1)
  {
    var o := out + [DirectiveItem(drs[cdr])];
    assert o[..|o| - 1] == out;
    assert drs[..cdr + 1] == drs[..cdr] + [drs[cdr]];
    AnchorsKept(out, DirectiveItem(drs[cdr]));
  }

  lemma EmitTransaction(trs: seq<Transaction>, drs: seq<Directive>, out: seq<Item>, ctr: nat, cdr: nat)
    requires Progress(trs, drs, out, ctr, cdr) && ctr < |trs|
    requires cdr < |drs| ==> drs[cdr].foundBefore != ctr
    ensures Progress(trs, drs, out + [TransactionItem(trs[ctr])], ctr + 1, cdr)
  {
    var o := out + [TransactionItem(trs[ctr])];
    assert o[..|o| - 1] == out;
    assert trs[..ctr + 1] == trs[..ctr] + [trs[ctr]];
    AnchorsKept(out, TransactionItem(trs[ctr]));
    if Anchored(trs, drs) {
      forall j | cdr <= j < |drs| ensures ctr + 1 <= drs[j].foundBefore {
        assert drs[cdr].foundBefore <= drs[j].foundBefore;
      }
    }
  }

  lemma Finish(trs: seq<Transaction>, drs: seq<Directive>, out: seq<Item>)
    requires Progress(trs, drs, out, |trs|, |drs|)
    ensures Interleaves(out, trs, drs) && Anchored(trs, drs)
  {
    assert trs[..|trs|] == trs && drs[..|drs|] == drs;
  }

  lemma Stuck(trs: seq<Transaction>, drs: seq<Directive>, out: seq<Item>, ctr: nat, cdr: nat)
    requires Progress(trs, drs, out, ctr, cdr) && ctr == |trs| && cdr < |drs| && drs[cdr].foundBefore != ctr
    ensures !Anchored(trs, drs)
    ensures TransactionsOf(out) == trs && DirectivesOf(out) == drs[..cdr] && AnchorsHold(out)
  {
    assert trs[..|trs|] == trs;
  }

  /**
   * WriteLedgerFile: writes a directive whenever its anchor is the index of the next transaction,
   * and otherwise the next transaction. It succeeds exactly when the anchors are ascending and
   * within 0..|trs|; on failure all transactions and the directives before the first misplaced one
   * have already been written.
   */
  method WriteLedgerFile(trs: seq<Transaction>, drs: seq<Directive>) returns (out: seq<Item>, err: Option<LedgerError>)
    ensures err == None <==> Anchored(trs, drs)
    ensures err == None ==> Interleaves(out, trs, drs)
    ensures err != None ==>
      && err == Some(ErrImproperInterleave) && TransactionsOf(out) == trs && AnchorsHold(out)
      && exists cdr :: 0 <= cdr < |drs| && DirectivesOf(out) == drs[..cdr]
  {
    var ctr, cdr := 0, 0;
    out := [];
    while ctr < |trs| || cdr < |drs|
      invariant Progress(trs, drs, out, ctr, cdr)
      decreases |trs| - ctr + |drs| - cdr
    {
      if cdr < |drs| && drs[cdr].foundBefore == ctr {
        EmitDirective(trs, drs, out, ctr, cdr);
        out := out + [DirectiveItem(drs[cdr])];
        cdr := cdr + 1;
        continue;
      }
      if ctr >= |trs| {
        Stuck(trs, drs, out, ctr, cdr);
        return out, Some(ErrImproperInterleave);
      }
      EmitTransaction(trs, drs, out, ctr, cdr);
      out := out + [TransactionItem(trs[ctr])];
      ctr := ctr + 1;
    }
    Finish(trs, drs, out);
    return out, None;
  }

  /** Only one sequence of items interleaves two lists. */
  lemma {:induction false} InterleavesUnique(o1: seq<Item>, o2: seq<Item>, trs: seq<Transaction>, drs: seq<Directive>)
    requires Interleaves(o1, trs, drs) && Interleaves(o2, trs, drs)
    ensures o1 == o2
    decreases |o1|
  {
    if o1 != [] && o2 != [] {
      var n1: nat, n2: nat := |o1| - 1, |o2| - 1;
      // The last item is the last directive when it is anchored at |trs|, the last transaction otherwise.
      SameLast(o1, o2, trs, drs);
      var a := o1[n1];
      var t' := if a.TransactionItem? then trs[..|trs| - 1] else trs;
      var d' := if a.DirectiveItem? then drs[..|drs| - 1] else drs;
      DropLast(o1, trs, drs);
      DropLast(o2, trs, drs);
      InterleavesUnique(o1[..n1], o2[..n2], t', d');
      SnocEqual(o1, o2);
    } else if o1 != [] {
      NonEmpty(o1, trs, drs);
      NonEmpty(o2, trs, drs);
    } else if o2 != [] {
      NonEmpty(o2, trs, drs);
      NonEmpty(o1, trs, drs);
    }
  }

  /** Two interleavings of the same lists end with the same item. */
  lemma SameLast(o1: seq<Item>, o2: seq<Item>, trs: seq<Transaction>, drs: seq<Directive>)
    requires o1 != [] && o2 != [] && Interleaves(o1, trs, drs) && Interleaves(o2, trs, drs)
    ensures o1[|o1| - 1] == o2[|o2| - 1]
  {
    LastItem(o1, trs, drs);
    LastItem(o2, trs, drs);
  }

  lemma SnocEqual(o1: seq<Item>, o2: seq<Item>)
    requires o1 != [] && o2 != [] && o1[..|o1| - 1] == o2[..|o2| - 1] && o1[|o1| - 1] == o2[|o2| - 1]
    ensures o1 == o2
  {
    assert o1 == o1[..|o1| - 1] + [o1[|o1| - 1]];
    assert o2 == o2[..|o2| - 1] + [o2[|o2| - 1]];
  }

  lemma NonEmpty(o: seq<Item>, trs: seq<Transaction>, drs: seq<Directive>)
    requires Interleaves(o, trs, drs)
    ensures o == [] <==> trs == [] && drs == []
  {
    if o != [] {
      var last := o[|o| - 1];
      assert last.TransactionItem? ==> TransactionsOf(o) != [];
      assert last.DirectiveItem? ==> DirectivesOf(o) != [];
    }
  }

  /** Which item must come last. */
  predicate LastIs(o: seq<Item>, trs: seq<Transaction>, drs: seq<Directive>)
    requires o != []
  {
    if drs != [] && drs[|drs| - 1].foundBefore == |trs| then o[|o| - 1] == DirectiveItem(drs[|drs| - 1])
    else trs != [] && o[|o| - 1] == TransactionItem(trs[|trs| - 1])
  }

  lemma LastItem(o: seq<Item>, trs: seq<Transaction>, drs: seq<Directive>)
    requires o != [] && Interleaves(o, trs, drs)
    ensures LastIs(o, trs, drs)
  {
    var n := |o| - 1;
    var last := o[n];
    assert o[..n] + [last] == o;
    if last.DirectiveItem? {
      assert DirectivesOf(o) == DirectivesOf(o[..n]) + [last.d];
      assert TransactionsOf(o) == TransactionsOf(o[..n]);
      assert drs[|drs| - 1] == last.d;
    } else {
      assert TransactionsOf(o) == TransactionsOf(o[..n]) + [last.t];
      assert DirectivesOf(o) == DirectivesOf(o[..n]);
      if drs != [] {
        LastDirectiveBound(o, trs, drs);
      }
    }
  }

  /** When a transaction ends the output, the last directive stands before it. */
  lemma LastDirectiveBound(o: seq<Item>, trs: seq<Transaction>, drs: seq<Directive>)
    requires o != [] && Interleaves(o, trs, drs) && o[|o| - 1].TransactionItem? && drs != []
    ensures drs[|drs| - 1].foundBefore < |trs|
  {
    var p := LastDirectivePosition(o);
    assert o[p] == DirectiveItem(drs[|drs| - 1]);
    TransactionsPrefix(o, p);
  }

  /** The position of the last directive of an output that holds one. */
  lemma LastDirectivePosition(o: seq<Item>) returns (p: nat)
    requires DirectivesOf(o) != []
    ensures p < |o| && o[p] == DirectiveItem(DirectivesOf(o)[|DirectivesOf(o)| - 1])
    ensures forall q :: p < q < |o| ==> o[q].TransactionItem?
  {
    var n := |o| - 1;
    if o[n].DirectiveItem? {
      p := n;
    } else {
      assert DirectivesOf(o) == DirectivesOf(o[..n]);
      p := LastDirectivePosition(o[..n]);
    }
  }

  /** A transaction after position p means fewer than all transactions stand before p. */
  lemma TransactionsPrefix(o: seq<Item>, p: nat)
    requires p < |o| - 1 && o[|o| - 1].TransactionItem?
    ensures |TransactionsOf(o[..p])| < |TransactionsOf(o)|
  {
    TransactionsMono(o[..|o| - 1], p);
    assert o[..|o| - 1][..p] == o[..p];
  }

  lemma {:induction false} TransactionsMono(o: seq<Item>, p: nat)
    requires p <= |o|
    ensures |TransactionsOf(o[..p])| <= |TransactionsOf(o)|
    decreases |o|
  {
    if p < |o| {
      assert o[..|o| - 1][..p] == o[..p];
      TransactionsMono(o[..|o| - 1], p);
    } else {
      assert o[..p] == o;
    }
  }

  /** Dropping the last item leaves an interleaving of the rest. */
  lemma DropLast(o: seq<Item>, trs: seq<Transaction>, drs: seq<Directive>)
    requires o != [] && Interleaves(o, trs, drs)
    ensures var last := o[|o| - 1];
      Interleaves(o[..|o| - 1],
        if last.TransactionItem? then trs[..|trs| - 1] else trs,
        if last.DirectiveItem? then drs[..|drs| - 1] else drs)
  {
    var n := |o| - 1;
    var o' := o[..n];
    forall p | 0 <= p < n ensures o'[..p] == o[..p] {
    }
  }
}

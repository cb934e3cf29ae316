/**
 * The File type of file.go: the transactions and directives of one ledger file, with the
 * operations that rewrite them in place (Format, StripHistory) and the ones that read the
 * account and payee directives out of them.
 */
module Files {
  import opened Wrappers
  import opened Ledger
  import Text
  import Lex
  import Writing

  // ---------------------------------------------------------------------------------------
  // sort.SliceStable of the directives by FoundBefore

  predicate SortedByAnchor(ds: seq<Directive>)
  {
    forall i, j :: 0 <= i < j < |ds| ==> ds[i].foundBefore <= ds[j].foundBefore
  }

  /** The directives anchored at k, in their order in ds. */
  function AnchorGroup(ds: seq<Directive>, k: int): seq<Directive>
  {
    if ds == [] then []
    else
      var last := ds[|ds| - 1];
      AnchorGroup(ds[..|ds| - 1], k) + (if last.foundBefore == k then [last] else [])
  }

  lemma AnchorGroupSnoc(ds: seq<Directive>, d: Directive, k: int)
    ensures AnchorGroup(ds + [d], k) == AnchorGroup(ds, k) + (if d.foundBefore == k then [d] else [])
  {
    assert (ds + [d])[..|ds|] == ds;
  }

  /** d placed after every directive at the end of ds whose anchor is above its own. */
  function InsertByAnchor(d: Directive, ds: seq<Directive>): seq<Directive>
  {
    if ds == [] then [d]
    else
      var init, last := ds[..|ds| - 1], ds[|ds| - 1];
      if last.foundBefore <= d.foundBefore then ds + [d]
      else InsertByAnchor(d, init) + [last]
  }

  /** Insertion adds d and nothing else. */
  lemma {:induction false} InsertMultiset(d: Directive, ds: seq<Directive>)
    ensures multiset(InsertByAnchor(d, ds)) == multiset(ds) + multiset{d}
  {
    if ds != [] {
      var init, last := ds[..|ds| - 1], ds[|ds| - 1];
      assert ds == init + [last];
      if last.foundBefore > d.foundBefore {
        InsertMultiset(d, init);
      }
    }
  }

  /** Every directive of ds has an anchor at most bound. */
  predicate AnchorsAtMost(ds: seq<Directive>, bound: int)
  {
    forall i :: 0 <= i < |ds| ==> ds[i].foundBefore <= bound
  }

  lemma {:induction false} InsertAtMost(d: Directive, ds: seq<Directive>, bound: int)
    requires AnchorsAtMost(ds, bound) && d.foundBefore <= bound
    ensures AnchorsAtMost(InsertByAnchor(d, ds), bound)
  {
    if ds != [] {
      var init, last := ds[..|ds| - 1], ds[|ds| - 1];
      if last.foundBefore > d.foundBefore {
        InsertAtMost(d, init, bound);
      }
    }
  }

  /** Insertion keeps a sorted list sorted. */
  lemma {:induction false} InsertSorted(d: Directive, ds: seq<Directive>)
    requires SortedByAnchor(ds)
    ensures SortedByAnchor(InsertByAnchor(d, ds))
  {
    if ds != [] {
      var init, last := ds[..|ds| - 1], ds[|ds| - 1];
      if last.foundBefore > d.foundBefore {
        InsertSorted(d, init);
        InsertAtMost(d, init, last.foundBefore);
        var r := InsertByAnchor(d, init);
        assert AnchorsAtMost(r, last.foundBefore);
        assert forall i :: 0 <= i < |r| ==> (r + [last])[i] == r[i];
      }
    }
  }

  /** Insertion adds d to its own anchor's group, after the members already there. */
  lemma {:induction false} InsertGroups(d: Directive, ds: seq<Directive>, k: int)
    ensures AnchorGroup(InsertByAnchor(d, ds), k) == AnchorGroup(ds, k) + (if d.foundBefore == k then [d] else [])
  {
    if ds == [] {
      AnchorGroupSnoc([], d, k);
      assert [] + [d] == [d];
    } else {
      var init, last := ds[..|ds| - 1], ds[|ds| - 1];
      assert ds == init + [last];
      if last.foundBefore <= d.foundBefore {
        AnchorGroupSnoc(ds, d, k);
      } else {
        InsertGroups(d, init, k);
        AnchorGroupSnoc(InsertByAnchor(d, init), last, k);
        AnchorGroupSnoc(init, last, k);
      }
    }
  }

  /** sort.SliceStable(D, FoundBefore less), as insertion of each directive in turn. */
  function StableSort(ds: seq<Directive>): seq<Directive>
  {
    if ds == [] then []
    else InsertByAnchor(ds[|ds| - 1], StableSort(ds[..|ds| - 1]))
  }

  /** The sort is a permutation. */
  lemma {:induction false} StableSortMultiset(ds: seq<Directive>)
    ensures multiset(StableSort(ds)) == multiset(ds)
  {
    if ds != [] {
      var init, last := ds[..|ds| - 1], ds[|ds| - 1];
      assert ds == init + [last];
      StableSortMultiset(init);
      InsertMultiset(last, StableSort(init));
    }
  }

  /**
   * The sort is stable: ascending anchors, and the directives of each anchor in their
   * original order.
   */
  lemma {:induction false} StableSortStable(ds: seq<Directive>)
    ensures SortedByAnchor(StableSort(ds))
    ensures forall k :: AnchorGroup(StableSort(ds), k) == AnchorGroup(ds, k)
  {
    if ds != [] {
      var init, last := ds[..|ds| - 1], ds[|ds| - 1];
      assert ds == init + [last];
      var s := StableSort(init);
      StableSortStable(init);
      InsertSorted(last, s);
      forall k ensures AnchorGroup(StableSort(ds), k) == AnchorGroup(ds, k) {
        InsertGroups(last, s, k);
        AnchorGroupSnoc(init, last, k);
      }
    }
  }

  /** A sorted list is its own stable sort. */
  lemma {:induction false} StableSortSorted(ds: seq<Directive>)
    requires SortedByAnchor(ds)
    ensures StableSort(ds) == ds
  {
    if ds != [] {
      var init, last := ds[..|ds| - 1], ds[|ds| - 1];
      assert SortedByAnchor(init) by {
        forall i, j | 0 <= i < j < |init| ensures init[i].foundBefore <= init[j].foundBefore {
          assert init[i] == ds[i] && init[j] == ds[j];
        }
      }
      StableSortSorted(init);
      InsertAtEnd(last, init);
      assert ds == init + [last];
    }
  }

  /** A directive anchored no lower than the last one goes at the end. */
  lemma InsertAtEnd(d: Directive, ds: seq<Directive>)
    requires SortedByAnchor(ds + [d])
    ensures InsertByAnchor(d, ds) == ds + [d]
  {
    if ds != [] {
      assert (ds + [d])[|ds| - 1] == ds[|ds| - 1] && (ds + [d])[|ds|] == d;
    }
  }

  /** Lists with the same multiset have the same members. */
  lemma SameMembers(a: seq<Directive>, b: seq<Directive>)
    requires multiset(a) == multiset(b)
    ensures forall x :: x in a <==> x in b
  {
    forall x ensures x in a <==> x in b {
      assert x in a <==> x in multiset(a);
      assert x in b <==> x in multiset(b);
    }
  }

  /** Every anchor of ds lies in 0..n. */
  predicate AnchorsInRange(ds: seq<Directive>, n: int)
  {
    forall i :: 0 <= i < |ds| ==> 0 <= ds[i].foundBefore <= n
  }

  lemma AnchorsInRangeMembers(ds: seq<Directive>, n: int)
    ensures AnchorsInRange(ds, n) <==> forall x :: x in ds ==> 0 <= x.foundBefore <= n
  {
  }

  /** After the sort the anchors interleave with ts exactly when each one lies in 0..|ts|. */
  lemma FormatAnchors(ts: seq<Transaction>, ds: seq<Directive>)
    ensures Writing.Anchored(ts, StableSort(ds)) <==> AnchorsInRange(ds, |ts|)
  {
    var r := StableSort(ds);
    StableSortStable(ds);
    StableSortMultiset(ds);
    SameMembers(r, ds);
    AnchorsInRangeMembers(r, |ts|);
    AnchorsInRangeMembers(ds, |ts|);
    assert Writing.Anchored(ts, r) <==> AnchorsInRange(r, |ts|);
  }

  // ---------------------------------------------------------------------------------------
  // StripHistory

  /** The "ID" key of a transaction; a missing or empty ID counts as none. */
  function IdOf(t: Transaction): Option<string>
  {
    if "ID" in t.kvPairs && t.kvPairs["ID"] != "" then Some(t.kvPairs["ID"]) else None
  }

  /** ts[i] has no ID, or no earlier transaction has its ID. */
  predicate FirstOfId(ts: seq<Transaction>, i: nat)
    requires i < |ts|
  {
    IdOf(ts[i]) == None || forall j :: 0 <= j < i ==> IdOf(ts[j]) != IdOf(ts[i])
  }

  /** The positions StripHistory keeps, in order. */
  function Kept(ts: seq<Transaction>): (r: seq<nat>)
    ensures forall j :: 0 <= j < |r| ==> r[j] < |ts|
  {
    if ts == [] then []
    else
      var n := |ts| - 1;
      Kept(ts[..n]) + (if FirstOfId(ts, n) then [n] else [])
  }

  /** Kept lists, in increasing order, exactly the first transaction of each ID and every one without. */
  lemma {:induction false} KeptSpec(ts: seq<Transaction>)
    ensures forall j :: 0 <= j < |Kept(ts)| ==> FirstOfId(ts, Kept(ts)[j])
    ensures forall i, j :: 0 <= i < j < |Kept(ts)| ==> Kept(ts)[i] < Kept(ts)[j]
    ensures forall i :: 0 <= i < |ts| && FirstOfId(ts, i) ==> i in Kept(ts)
  {
    if ts != [] {
      var n := |ts| - 1;
      var init := ts[..n];
      KeptSpec(init);
      assert forall i :: 0 <= i < n ==> FirstOfId(ts, i) == FirstOfId(init, i);
    }
  }

  /** The position of the last version of ts[i]: the last transaction with its ID, or i itself. */
  function LastVersion(ts: seq<Transaction>, i: nat): (j: nat)
    requires i < |ts|
    ensures i <= j < |ts|
  {
    var n := |ts| - 1;
    if i == n then i
    else if IdOf(ts[i]) != None && IdOf(ts[n]) == IdOf(ts[i]) then n
    else LastVersion(ts[..n], i)
  }

  /** LastVersion is ts[i] itself or a later one with the same ID, and no version comes after it. */
  lemma {:induction false} LastVersionSpec(ts: seq<Transaction>, i: nat)
    requires i < |ts|
    ensures var j := LastVersion(ts, i);
      && (j == i || (IdOf(ts[i]) != None && IdOf(ts[j]) == IdOf(ts[i])))
      && (IdOf(ts[i]) != None ==> forall k :: j < k < |ts| ==> IdOf(ts[k]) != IdOf(ts[i]))
  {
    var n := |ts| - 1;
    if i != n && !(IdOf(ts[i]) != None && IdOf(ts[n]) == IdOf(ts[i])) {
      LastVersionSpec(ts[..n], i);
      assert forall k :: 0 <= k < n ==> ts[..n][k] == ts[k];
    }
  }

  /**
   * The transactions StripHistory leaves: one per ID, at the place of its first version and
   * holding its last one, and every transaction without an ID, in order.
   */
  function Stripped(ts: seq<Transaction>): (r: seq<Transaction>)
  {
    var k := Kept(ts);
    seq(|k|, j requires 0 <= j < |k| => ts[LastVersion(ts, k[j])])
  }

  /** No two transactions left by StripHistory share an ID. */
  lemma StrippedDistinctIds(ts: seq<Transaction>)
    ensures var r := Stripped(ts);
      forall i, j :: 0 <= i < j < |r| ==> IdOf(r[i]) == None || IdOf(r[i]) != IdOf(r[j])
  {
    var k := Kept(ts);
    var r := Stripped(ts);
    KeptSpec(ts);
    forall i, j | 0 <= i < j < |r| && IdOf(r[i]) != None ensures IdOf(r[i]) != IdOf(r[j]) {
      LastVersionSpec(ts, k[i]);
      LastVersionSpec(ts, k[j]);
      assert k[i] < k[j];
      assert IdOf(r[i]) == IdOf(ts[k[i]]) && IdOf(r[j]) == IdOf(ts[k[j]]);
    }
  }

  /** Transactions without an ID are all kept, in their original order. */
  lemma StrippedKeepsUnidentified(ts: seq<Transaction>, i: nat)
    requires i < |ts| && IdOf(ts[i]) == None
    ensures exists j :: 0 <= j < |Stripped(ts)| && Kept(ts)[j] == i && Stripped(ts)[j] == ts[i]
  {
    var k := Kept(ts);
    assert FirstOfId(ts, i);
    assert i in k;
    var j :| 0 <= j < |k| && k[j] == i;
    assert Stripped(ts)[j] == ts[LastVersion(ts, i)];
  }

  /** No ID occurs twice in ts. */
  predicate UniqueIds(ts: seq<Transaction>)
  {
    forall i, j :: 0 <= i < j < |ts| ==> IdOf(ts[i]) == None || IdOf(ts[i]) != IdOf(ts[j])
  }

  /** Without repeated IDs every position is kept. */
  lemma {:induction false} KeptUnique(ts: seq<Transaction>)
    requires UniqueIds(ts)
    ensures |Kept(ts)| == |ts| && forall j :: 0 <= j < |ts| ==> Kept(ts)[j] == j
  {
    if ts != [] {
      var n := |ts| - 1;
      var init := ts[..n];
      assert UniqueIds(init);
      KeptUnique(init);
      assert FirstOfId(ts, n);
      assert forall i :: 0 <= i < n ==> FirstOfId(ts, i) == FirstOfId(init, i);
    }
  }

  /** A list without repeated IDs is left as it is: StripHistory is idempotent. */
  lemma StrippedIdempotent(ts: seq<Transaction>)
    requires UniqueIds(ts)
    ensures Stripped(ts) == ts
    ensures UniqueIds(Stripped(ts))
  {
    KeptUnique(ts);
    forall j | 0 <= j < |ts| ensures LastVersion(ts, j) == j {
      LastVersionSpec(ts, j);
    }
  }

  /** The new list holds the latest version of each kept position of ps. */
  ghost predicate KeptMatches(ps: seq<Transaction>, newTrs: seq<Transaction>)
  {
    var k := Kept(ps);
    |newTrs| == |k| && forall j :: 0 <= j < |k| ==> newTrs[j] == ps[LastVersion(ps, k[j])]
  }

  /** The IDs that occur in ps. */
  function SeenIds(ps: seq<Transaction>): set<string>
  {
    if ps == [] then {}
    else
      var n := |ps| - 1;
      SeenIds(ps[..n]) + (if IdOf(ps[n]).Some? then {IdOf(ps[n]).value} else {})
  }

  lemma SeenIdsSnoc(ps: seq<Transaction>, t: Transaction)
    ensures SeenIds(ps + [t]) == SeenIds(ps) + (if IdOf(t).Some? then {IdOf(t).value} else {})
  {
    assert (ps + [t])[..|ps|] == ps;
  }

  /** SeenIds holds exactly the IDs of the transactions of ps. */
  lemma {:induction false} SeenIdsExact(ps: seq<Transaction>, id: string)
    ensures id in SeenIds(ps) <==> exists i :: 0 <= i < |ps| && IdOf(ps[i]) == Some(id)
  {
    if ps != [] {
      var n := |ps| - 1;
      SeenIdsExact(ps[..n], id);
      if exists i :: 0 <= i < |ps| && IdOf(ps[i]) == Some(id) {
        var i :| 0 <= i < |ps| && IdOf(ps[i]) == Some(id);
        if i < n {
          assert ps[..n][i] == ps[i];
        }
      }
      if exists i :: 0 <= i < n && IdOf(ps[..n][i]) == Some(id) {
        var i :| 0 <= i < n && IdOf(ps[..n][i]) == Some(id);
        assert ps[i] == ps[..n][i];
      }
    }
  }

  /** The index map holds, for each ID seen in ps, the place of its entry in the new list. */
  ghost predicate IndexMatches(ps: seq<Transaction>, trIxs: map<string, int>)
  {
    var k := Kept(ps);
    && (forall id :: id in trIxs <==> id in SeenIds(ps))
    && (forall id :: id in trIxs ==> 0 <= trIxs[id] < |k| && IdOf(ps[k[trIxs[id]]]) == Some(id))
  }

  lemma KeptMatchesStripped(ts: seq<Transaction>, newTrs: seq<Transaction>)
    requires KeptMatches(ts, newTrs)
    ensures newTrs == Stripped(ts)
  {
  }

  lemma KeptSnoc(ps: seq<Transaction>, t: Transaction)
    ensures Kept(ps + [t]) == Kept(ps) + (if FirstOfId(ps + [t], |ps|) then [|ps|] else [])
  {
    assert (ps + [t])[..|ps|] == ps;
  }

  lemma LastVersionSnoc(ps: seq<Transaction>, t: Transaction, i: nat)
    requires i < |ps|
    ensures (ps + [t])[LastVersion(ps + [t], i)] ==
      if IdOf(ps[i]) != None && IdOf(t) == IdOf(ps[i]) then t else ps[LastVersion(ps, i)]
  {
    assert (ps + [t])[..|ps|] == ps;
  }

  /** A transaction whose ID is new (or absent) is appended. */
  lemma KeptAppend(ps: seq<Transaction>, t: Transaction, newTrs: seq<Transaction>)
    requires KeptMatches(ps, newTrs)
    requires forall i :: 0 <= i < |ps| ==> IdOf(t) == None || IdOf(ps[i]) != IdOf(t)
    ensures KeptMatches(ps + [t], newTrs + [t])
    ensures Kept(ps + [t]) == Kept(ps) + [|ps|]
  {
    var ps' := ps + [t];
    assert FirstOfId(ps', |ps|) by {
      assert forall i :: 0 <= i < |ps| ==> ps'[i] == ps[i];
    }
    KeptSnoc(ps, t);
    var k, k' := Kept(ps), Kept(ps');
    forall j | 0 <= j < |k'| ensures (newTrs + [t])[j] == ps'[LastVersion(ps', k'[j])] {
      if j < |k| {
        assert k'[j] == k[j];
        LastVersionSnoc(ps, t, k[j]);
      }
    }
  }

  /** A later version of a seen ID replaces the entry at that ID's place. */
  lemma KeptReplace(ps: seq<Transaction>, t: Transaction, newTrs: seq<Transaction>, idx: nat)
    requires KeptMatches(ps, newTrs) && IdOf(t) != None
    requires idx < |Kept(ps)| && IdOf(ps[Kept(ps)[idx]]) == IdOf(t)
    ensures KeptMatches(ps + [t], newTrs[idx := t])
    ensures Kept(ps + [t]) == Kept(ps)
  {
    var ps' := ps + [t];
    var k := Kept(ps);
    assert ps'[k[idx]] == ps[k[idx]];
    assert !FirstOfId(ps', |ps|);
    KeptSnoc(ps, t);
    KeptSpec(ps);
    forall j | 0 <= j < |k| ensures newTrs[idx := t][j] == ps'[LastVersion(ps', k[j])] {
      LastVersionSnoc(ps, t, k[j]);
    }
  }

  lemma IndexNoId(ps: seq<Transaction>, t: Transaction, trIxs: map<string, int>)
    requires IndexMatches(ps, trIxs) && IdOf(t) == None
    requires Kept(ps + [t]) == Kept(ps) + [|ps|]
    ensures IndexMatches(ps + [t], trIxs)
  {
    var ps' := ps + [t];
    SeenIdsSnoc(ps, t);
    forall id | id in trIxs ensures IdOf(ps'[Kept(ps')[trIxs[id]]]) == Some(id) {
      assert Kept(ps')[trIxs[id]] == Kept(ps)[trIxs[id]];
    }
  }

  lemma IndexSeen(ps: seq<Transaction>, t: Transaction, trIxs: map<string, int>)
    requires IndexMatches(ps, trIxs) && IdOf(t) != None && IdOf(t).value in trIxs
    requires Kept(ps + [t]) == Kept(ps)
    ensures IndexMatches(ps + [t], trIxs)
  {
    var ps' := ps + [t];
    var k := Kept(ps);
    SeenIdsSnoc(ps, t);
    forall id | id in trIxs ensures IdOf(ps'[k[trIxs[id]]]) == Some(id) {
      assert ps'[k[trIxs[id]]] == ps[k[trIxs[id]]];
    }
  }

  lemma IndexNew(ps: seq<Transaction>, t: Transaction, trIxs: map<string, int>, id: string)
    requires IndexMatches(ps, trIxs) && IdOf(t) == Some(id) && id !in trIxs
    requires Kept(ps + [t]) == Kept(ps) + [|ps|]
    ensures IndexMatches(ps + [t], trIxs[id := |Kept(ps)|])
  {
    var ps' := ps + [t];
    var m := trIxs[id := |Kept(ps)|];
    SeenIdsSnoc(ps, t);
    forall x | x in m ensures 0 <= m[x] < |Kept(ps')| && IdOf(ps'[Kept(ps')[m[x]]]) == Some(x) {
      if x != id {
        assert Kept(ps')[trIxs[x]] == Kept(ps)[trIxs[x]];
        assert ps'[Kept(ps)[trIxs[x]]] == ps[Kept(ps)[trIxs[x]]];
      }
    }
  }

  /** No earlier transaction has an ID that the index map has not seen. */
  lemma UnseenIsNew(ps: seq<Transaction>, trIxs: map<string, int>, id: string)
    requires IndexMatches(ps, trIxs) && id !in trIxs
    ensures forall i :: 0 <= i < |ps| ==> IdOf(ps[i]) != Some(id)
  {
    SeenIdsExact(ps, id);
  }

  /** The state of StripHistory's loop after the first n transactions of ts. */
  ghost predicate StripState(ts: seq<Transaction>, n: nat, newTrs: seq<Transaction>, trIxs: map<string, int>)
  {
    n <= |ts| && KeptMatches(ts[..n], newTrs) && IndexMatches(ts[..n], trIxs)
  }

  lemma StepNoId(ts: seq<Transaction>, n: nat, newTrs: seq<Transaction>, trIxs: map<string, int>)
    requires StripState(ts, n, newTrs, trIxs) && n < |ts| && IdOf(ts[n]) == None
    ensures StripState(ts, n + 1, newTrs + [ts[n]], trIxs)
  {
    assert ts[..n + 1] == ts[..n] + [ts[n]];
    KeptAppend(ts[..n], ts[n], newTrs);
    IndexNoId(ts[..n], ts[n], trIxs);
  }

  lemma StepSeen(ts: seq<Transaction>, n: nat, newTrs: seq<Transaction>, trIxs: map<string, int>, id: string)
    requires StripState(ts, n, newTrs, trIxs) && n < |ts| && IdOf(ts[n]) == Some(id) && id in trIxs
    ensures 0 <= trIxs[id] < |newTrs| && StripState(ts, n + 1, newTrs[trIxs[id] := ts[n]], trIxs)
  {
    assert ts[..n + 1] == ts[..n] + [ts[n]];
    KeptReplace(ts[..n], ts[n], newTrs, trIxs[id]);
    IndexSeen(ts[..n], ts[n], trIxs);
  }

  lemma StepNew(ts: seq<Transaction>, n: nat, newTrs: seq<Transaction>, trIxs: map<string, int>, id: string)
    requires StripState(ts, n, newTrs, trIxs) && n < |ts| && IdOf(ts[n]) == Some(id) && id !in trIxs
    ensures StripState(ts, n + 1, newTrs + [ts[n]], trIxs[id := |newTrs|])
  {
    assert ts[..n + 1] == ts[..n] + [ts[n]];
    UnseenIsNew(ts[..n], trIxs, id);
    KeptAppend(ts[..n], ts[n], newTrs);
    IndexNew(ts[..n], ts[n], trIxs, id);
  }

  /** The loop state after all of ts is the stripped list. */
  lemma StripDone(ts: seq<Transaction>, newTrs: seq<Transaction>, trIxs: map<string, int>)
    requires StripState(ts, |ts|, newTrs, trIxs)
    ensures newTrs == Stripped(ts)
  {
    assert ts[..|ts|] == ts;
    KeptMatchesStripped(ts, newTrs);
  }

  /** The loop state before any transaction. */
  lemma StripStart(ts: seq<Transaction>)
    ensures StripState(ts, 0, [], map[])
  {
    assert ts[..0] == [];
  }

  // ---------------------------------------------------------------------------------------
  // Account and payee directives

  /** An account directive, read by Accounts. */
  datatype Account = Account(
    name: string,
    note: string,
    aliases: seq<string>,
    payees: seq<string>,
    isDefault: bool,
    foundBefore: int,
    directiveIndex: int,
    location: bv64)

  /** A payee, read by Payees. */
  datatype Payee = Payee(
    name: string,
    aliases: seq<string>,
    uuids: seq<string>,
    foundBefore: int,
    directiveIndex: int,
    location: bv64)

  /** A name that would make the file read differently: a double space, a ';' or a tab. */
  predicate Malformed(s: string)
  {
    Text.HasDoubleSpace(s) || Text.ContainsAny(s, ";\t")
  }

  /** How Accounts reads a sub-line: the first of the prefixes it has, with the trimmed rest. */
  datatype SubLine = DefaultLine | AliasLine(alias: string) | PayeeLine(payee: string) | NoteLine(note: string) | OtherLine

  function AccountSubLine(sd: string): SubLine
  {
    if Text.HasPrefix(sd, "default") then DefaultLine
    else if Text.HasPrefix(sd, "alias") then AliasLine(Text.TrimSpace(sd[5..]))
    else if Text.HasPrefix(sd, "payee") then PayeeLine(Text.TrimSpace(sd[5..]))
    else if Text.HasPrefix(sd, "note") then NoteLine(Text.TrimSpace(sd[4..]))
    else OtherLine
  }

  function AccountSubLines(lines: seq<string>): seq<SubLine>
  {
    seq(|lines|, i requires 0 <= i < |lines| => AccountSubLine(lines[i]))
  }

  /** The alias sub-lines, in order. */
  function AliasesOf(subs: seq<SubLine>): seq<string>
  {
    if subs == [] then []
    else
      var s := subs[|subs| - 1];
      AliasesOf(subs[..|subs| - 1]) + (if s.AliasLine? then [s.alias] else [])
  }

  /** The payee sub-lines, in order. */
  function PayeesOf(subs: seq<SubLine>): seq<string>
  {
    if subs == [] then []
    else
      var s := subs[|subs| - 1];
      PayeesOf(subs[..|subs| - 1]) + (if s.PayeeLine? then [s.payee] else [])
  }

  /** The text of the last note sub-line, "" when there is none. */
  function NoteOf(subs: seq<SubLine>): string
  {
    if subs == [] then ""
    else
      var s := subs[|subs| - 1];
      if s.NoteLine? then s.note else NoteOf(subs[..|subs| - 1])
  }

  predicate BadAlias(s: SubLine)
  {
    s.AliasLine? && Malformed(s.alias)
  }

  /** The first alias sub-line whose alias is malformed. */
  function FirstBadAlias(subs: seq<SubLine>): Option<nat>
  {
    if subs == [] then None
    else
      var n := |subs| - 1;
      var r := FirstBadAlias(subs[..n]);
      if r.Some? then r else if BadAlias(subs[n]) then Some(n) else None
  }

  /** FirstBadAlias finds the first malformed alias, and None means there is none. */
  lemma {:induction false} FirstBadAliasSpec(subs: seq<SubLine>)
    ensures var r := FirstBadAlias(subs);
      && (r.Some? ==> r.value < |subs| && BadAlias(subs[r.value]) && forall j :: 0 <= j < r.value ==> !BadAlias(subs[j]))
      && (r.None? ==> forall j :: 0 <= j < |subs| ==> !BadAlias(subs[j]))
  {
    if subs != [] {
      var n := |subs| - 1;
      FirstBadAliasSpec(subs[..n]);
      assert forall j :: 0 <= j < n ==> subs[..n][j] == subs[j];
    }
  }

  /** The account a directive at index dIx describes. */
  function AccountOf(d: Directive, dIx: int): Account
  {
    var subs := AccountSubLines(d.lines);
    Account(d.argument, NoteOf(subs), AliasesOf(subs), PayeesOf(subs), DefaultLine in subs,
            d.foundBefore, dIx, d.location)
  }

  /** The location reported for the alias on sub-line sdIx (Location.L, so 0). */
  function AliasLocation(loc: bv64, sdIx: nat): bv64
  {
    Lex.WithLine(loc, Lex.Line(loc) + (sdIx % 0x1_0000_0000_0000_0000) as bv64)
  }

  /** Why an account directive is refused, if it is. */
  function AccountError(d: Directive): Option<LedgerError>
  {
    if Malformed(d.argument) then Some(ErrMalformedAccountName(d.argument, d.location))
    else
      var subs := AccountSubLines(d.lines);
      FirstBadAliasSpec(subs);
      match FirstBadAlias(subs)
      case Some(i) => Some(ErrMalformedAccountName(subs[i].alias, AliasLocation(d.location, i)))
      case None => None
  }

  /** The indices of the account directives, in order. */
  function AccountIndices(ds: seq<Directive>): (r: seq<nat>)
    ensures forall j :: 0 <= j < |r| ==> r[j] < |ds| && ds[r[j]].kind == "account"
    ensures forall i, j :: 0 <= i < j < |r| ==> r[i] < r[j]
    ensures forall i :: 0 <= i < |ds| && ds[i].kind == "account" ==> i in r
  {
    if ds == [] then []
    else
      var n := |ds| - 1;
      AccountIndices(ds[..n]) + (if ds[n].kind == "account" then [n] else [])
  }

  /** The first account directive Accounts refuses. */
  function FirstBadAccount(ds: seq<Directive>): Option<nat>
  {
    if ds == [] then None
    else
      var n := |ds| - 1;
      var r := FirstBadAccount(ds[..n]);
      if r.Some? then r
      else if ds[n].kind == "account" && AccountError(ds[n]).Some? then Some(n)
      else None
  }

  /** FirstBadAccount finds the first refused account directive; None means every one is accepted. */
  lemma {:induction false} FirstBadAccountSpec(ds: seq<Directive>)
    ensures var r := FirstBadAccount(ds);
      && (r.Some? ==> r.value < |ds| && ds[r.value].kind == "account" && AccountError(ds[r.value]).Some?)
      && (r.Some? ==> forall j :: 0 <= j < r.value && ds[j].kind == "account" ==> AccountError(ds[j]).None?)
      && (r.None? ==> forall j :: 0 <= j < |ds| && ds[j].kind == "account" ==> AccountError(ds[j]).None?)
  {
    if ds != [] {
      var n := |ds| - 1;
      FirstBadAccountSpec(ds[..n]);
      assert forall j :: 0 <= j < n ==> ds[..n][j] == ds[j];
    }
  }

  /** How Payees reads a sub-line: alias first, then uuid. */
  datatype PayeeSubLine = PayeeAlias(alias: string) | PayeeUuid(uuid: string) | PayeeOther

  function PayeeSubLineOf(sd: string): PayeeSubLine
  {
    if Text.HasPrefix(sd, "alias") then PayeeAlias(Text.TrimSpace(sd[5..]))
    else if Text.HasPrefix(sd, "uuid") then PayeeUuid(Text.TrimSpace(sd[4..]))
    else PayeeOther
  }

  function PayeeSubLines(lines: seq<string>): seq<PayeeSubLine>
  {
    seq(|lines|, i requires 0 <= i < |lines| => PayeeSubLineOf(lines[i]))
  }

  function PayeeAliasesOf(subs: seq<PayeeSubLine>): seq<string>
  {
    if subs == [] then []
    else
      var s := subs[|subs| - 1];
      PayeeAliasesOf(subs[..|subs| - 1]) + (if s.PayeeAlias? then [s.alias] else [])
  }

  function UuidsOf(subs: seq<PayeeSubLine>): seq<string>
  {
    if subs == [] then []
    else
      var s := subs[|subs| - 1];
      UuidsOf(subs[..|subs| - 1]) + (if s.PayeeUuid? then [s.uuid] else [])
  }

  function PayeeOf(d: Directive, dIx: int): Payee
  {
    var subs := PayeeSubLines(d.lines);
    Payee(d.argument, PayeeAliasesOf(subs), UuidsOf(subs), d.foundBefore, dIx, d.location)
  }

  /** The account fields read from the first i sub-lines. */
  function PartialAccount(d: Directive, dIx: int, subs: seq<SubLine>): Account
  {
    Account(d.argument, NoteOf(subs), AliasesOf(subs), PayeesOf(subs), DefaultLine in subs,
            d.foundBefore, dIx, d.location)
  }

  lemma SubLineStep(subs: seq<SubLine>, i: nat)
    requires i < |subs|
    ensures var p, p', s := subs[..i], subs[..i + 1], subs[i];
      && AliasesOf(p') == AliasesOf(p) + (if s.AliasLine? then [s.alias] else [])
      && PayeesOf(p') == PayeesOf(p) + (if s.PayeeLine? then [s.payee] else [])
      && NoteOf(p') == (if s.NoteLine? then s.note else NoteOf(p))
      && (DefaultLine in p' <==> DefaultLine in p || s == DefaultLine)
      && FirstBadAlias(p') == (if FirstBadAlias(p).Some? then FirstBadAlias(p) else if BadAlias(s) then Some(i) else None)
  {
    assert subs[..i + 1] == subs[..i] + [subs[i]];
    assert subs[..i + 1][..i] == subs[..i];
  }

  lemma PayeeSubLineStep(subs: seq<PayeeSubLine>, i: nat)
    requires i < |subs|
    ensures var p, p', s := subs[..i], subs[..i + 1], subs[i];
      && PayeeAliasesOf(p') == PayeeAliasesOf(p) + (if s.PayeeAlias? then [s.alias] else [])
      && UuidsOf(p') == UuidsOf(p) + (if s.PayeeUuid? then [s.uuid] else [])
  {
    assert subs[..i + 1][..i] == subs[..i];
  }

  /** A bad alias after a clean prefix is the first one. */
  lemma {:induction false} FirstBadAliasAt(subs: seq<SubLine>, i: nat)
    requires i < |subs| && FirstBadAlias(subs[..i]).None? && BadAlias(subs[i])
    ensures FirstBadAlias(subs) == Some(i)
  {
    var n := |subs| - 1;
    if n == i {
    } else {
      assert subs[..n][..i] == subs[..i] && subs[..n][i] == subs[i];
      FirstBadAliasAt(subs[..n], i);
    }
  }

  /** What one sub-line does to the account being read. */
  function ApplySubLine(acct: Account, s: SubLine): Account
  {
    match s
    case DefaultLine => acct.(isDefault := true)
    case AliasLine(alias) => acct.(aliases := acct.aliases + [alias])
    case PayeeLine(payee) => acct.(payees := acct.payees + [payee])
    case NoteLine(note) => acct.(note := note)
    case OtherLine => acct
  }

  /** The state of ReadAccount's loop after the first i sub-lines. */
  ghost predicate ReadState(d: Directive, dIx: int, i: nat, acct: Account)
  {
    var subs := AccountSubLines(d.lines);
    i <= |d.lines| && FirstBadAlias(subs[..i]).None? && acct == PartialAccount(d, dIx, subs[..i])
  }

  lemma ReadStart(d: Directive, dIx: int)
    ensures ReadState(d, dIx, 0, Account(d.argument, "", [], [], false, d.foundBefore, dIx, d.location))
  {
    assert AccountSubLines(d.lines)[..0] == [];
  }

  lemma ReadLine(d: Directive, dIx: int, i: nat, acct: Account)
    requires ReadState(d, dIx, i, acct) && i < |d.lines| && !BadAlias(AccountSubLine(d.lines[i]))
    ensures ReadState(d, dIx, i + 1, ApplySubLine(acct, AccountSubLine(d.lines[i])))
  {
    SubLineStep(AccountSubLines(d.lines), i);
  }

  lemma ReadBadLine(d: Directive, dIx: int, i: nat, acct: Account)
    requires ReadState(d, dIx, i, acct) && i < |d.lines| && BadAlias(AccountSubLine(d.lines[i]))
    requires !Malformed(d.argument)
    ensures FirstBadAlias(AccountSubLines(d.lines)).Some?
    ensures AccountError(d) == Some(ErrMalformedAccountName(AccountSubLine(d.lines[i]).alias, AliasLocation(d.location, i)))
  {
    FirstBadAliasAt(AccountSubLines(d.lines), i);
  }

  lemma ReadDone(d: Directive, dIx: int, acct: Account)
    requires ReadState(d, dIx, |d.lines|, acct)
    ensures FirstBadAlias(AccountSubLines(d.lines)).None? && acct == AccountOf(d, dIx)
  {
    assert AccountSubLines(d.lines)[..|d.lines|] == AccountSubLines(d.lines);
  }

  /** The sub-line loop of Accounts for one account directive with a well-formed name. */
  method ReadAccount(d: Directive, dIx: int) returns (r: Result<Account, LedgerError>)
    requires !Malformed(d.argument)
    ensures FirstBadAlias(AccountSubLines(d.lines)).None? ==> r == Ok(AccountOf(d, dIx))
    ensures FirstBadAlias(AccountSubLines(d.lines)).Some? ==> r.Err? && Some(r.error) == AccountError(d)
  {
    var acct := Account(d.argument, "", [], [], false, d.foundBefore, dIx, d.location);
    ReadStart(d, dIx);
    var sdIx := 0;
    while sdIx < |d.lines|
      invariant ReadState(d, dIx, sdIx, acct)
    {
      var sub := AccountSubLine(d.lines[sdIx]);
      if sub.AliasLine? && (Text.HasDoubleSpace(sub.alias) || Text.ContainsAny(sub.alias, ";\t")) {
        ReadBadLine(d, dIx, sdIx, acct);
        return Err(ErrMalformedAccountName(sub.alias, AliasLocation(d.location, sdIx)));
      }
      ReadLine(d, dIx, sdIx, acct);
      match sub {
        case DefaultLine => acct := acct.(isDefault := true);
        case AliasLine(alias) => acct := acct.(aliases := acct.aliases + [alias]);
        case PayeeLine(payee) => acct := acct.(payees := acct.payees + [payee]);
        case NoteLine(note) => acct := acct.(note := note);
        case OtherLine =>
      }
      sdIx := sdIx + 1;
    }
    ReadDone(d, dIx, acct);
    return Ok(acct);
  }

  /** The sub-line loop of Payees for one directive. */
  method ReadPayee(d: Directive, dIx: int) returns (p: Payee)
    ensures p == PayeeOf(d, dIx)
  {
    ghost var subs := PayeeSubLines(d.lines);
    p := Payee(d.argument, [], [], d.foundBefore, dIx, d.location);
    assert subs[..0] == [];
    var i := 0;
    while i < |d.lines|
      invariant 0 <= i <= |d.lines|
      invariant p == Payee(d.argument, PayeeAliasesOf(subs[..i]), UuidsOf(subs[..i]), d.foundBefore, dIx, d.location)
    {
      PayeeSubLineStep(subs, i);
      match PayeeSubLineOf(d.lines[i]) {
        case PayeeAlias(alias) => p := p.(aliases := p.aliases + [alias]);
        case PayeeUuid(uuid) => p := p.(uuids := p.uuids + [uuid]);
        case PayeeOther =>
      }
      i := i + 1;
    }
    assert subs[..|d.lines|] == subs;
  }

  lemma DirectivePrefixStep(ds: seq<Directive>, n: nat)
    requires n < |ds|
    ensures AccountIndices(ds[..n + 1]) == AccountIndices(ds[..n]) + (if ds[n].kind == "account" then [n] else [])
    ensures FirstBadAccount(ds[..n + 1]) ==
      if FirstBadAccount(ds[..n]).Some? then FirstBadAccount(ds[..n])
      else if ds[n].kind == "account" && AccountError(ds[n]).Some? then Some(n) else None
  {
    assert ds[..n + 1][..n] == ds[..n];
  }

  /** The account entries for the (prefix of the) directive list ds with account indices idx. */
  predicate AccountsRead(ds: seq<Directive>, idx: seq<nat>, accts: seq<Account>)
    requires forall j :: 0 <= j < |idx| ==> idx[j] < |ds|
  {
    |accts| == |idx| && forall j :: 0 <= j < |idx| ==> accts[j] == AccountOf(ds[idx[j]], idx[j])
  }

  /** The payee entries for the (prefix of the) directive list ds with account indices idx. */
  predicate PayeesRead(ds: seq<Directive>, idx: seq<nat>, payees: seq<Payee>)
    requires forall j :: 0 <= j < |idx| ==> idx[j] < |ds|
  {
    |payees| == |idx| && forall j :: 0 <= j < |idx| ==> payees[j] == PayeeOf(ds[idx[j]], idx[j])
  }

  /** The state of the Accounts loop after the first n directives. */
  predicate AccountsState(ds: seq<Directive>, n: nat, accts: seq<Account>)
  {
    n <= |ds| && FirstBadAccount(ds[..n]).None? && AccountsRead(ds, AccountIndices(ds[..n]), accts)
  }

  lemma AccountsStart(ds: seq<Directive>)
    ensures AccountsState(ds, 0, [])
  {
    assert ds[..0] == [];
  }

  lemma AccountsNext(ds: seq<Directive>, n: nat, accts: seq<Account>, a: seq<Account>)
    requires AccountsState(ds, n, accts) && n < |ds|
    requires ds[n].kind == "account" ==> AccountError(ds[n]).None? && a == [AccountOf(ds[n], n)]
    requires ds[n].kind != "account" ==> a == []
    ensures AccountsState(ds, n + 1, accts + a)
  {
    DirectivePrefixStep(ds, n);
  }

  lemma AccountsBad(ds: seq<Directive>, n: nat, accts: seq<Account>)
    requires AccountsState(ds, n, accts) && n < |ds| && ds[n].kind == "account" && AccountError(ds[n]).Some?
    ensures FirstBadAccount(ds) == Some(n)
  {
    BadAccountAt(ds, n);
  }

  lemma AccountsDone(ds: seq<Directive>, accts: seq<Account>)
    requires AccountsState(ds, |ds|, accts)
    ensures FirstBadAccount(ds).None? && AccountsRead(ds, AccountIndices(ds), accts)
  {
    assert ds[..|ds|] == ds;
  }

  /** The state of the Payees loop after the first n directives. */
  predicate PayeesState(ds: seq<Directive>, n: nat, payees: seq<Payee>)
  {
    n <= |ds| && PayeesRead(ds, AccountIndices(ds[..n]), payees)
  }

  lemma PayeesStart(ds: seq<Directive>)
    ensures PayeesState(ds, 0, [])
  {
    assert ds[..0] == [];
  }

  lemma PayeesNext(ds: seq<Directive>, n: nat, payees: seq<Payee>, p: seq<Payee>)
    requires PayeesState(ds, n, payees) && n < |ds|
    requires ds[n].kind == "account" ==> p == [PayeeOf(ds[n], n)]
    requires ds[n].kind != "account" ==> p == []
    ensures PayeesState(ds, n + 1, payees + p)
  {
    DirectivePrefixStep(ds, n);
  }

  lemma PayeesDone(ds: seq<Directive>, payees: seq<Payee>)
    requires PayeesState(ds, |ds|, payees)
    ensures PayeesRead(ds, AccountIndices(ds), payees)
  {
    assert ds[..|ds|] == ds;
  }

  // Payees reads the account directives (transaction.go's documentation and the Payee type say
  // payee directives); below, the reading as written and the reading the documentation describes.

  /** The indices of the directives of the given kind, in order. */
  function KindIndices(ds: seq<Directive>, kind: string): (r: seq<nat>)
    ensures forall j :: 0 <= j < |r| ==> r[j] < |ds| && ds[r[j]].kind == kind
    ensures forall i, j :: 0 <= i < j < |r| ==> r[i] < r[j]
    ensures forall i :: 0 <= i < |ds| && ds[i].kind == kind ==> i in r
  {
    if ds == [] then []
    else
      var n := |ds| - 1;
      KindIndices(ds[..n], kind) + (if ds[n].kind == kind then [n] else [])
  }

  /** As written: a lone payee directive yields no payee, and only an account directive yields one. */
  lemma PayeeDirectiveIgnored(d: Directive, payees: seq<Payee>)
    requires d.kind == "payee"
    requires PayeesRead([d], AccountIndices([d]), payees)
    ensures payees == []
    ensures KindIndices([d], "payee") == [0]
  {
    assert [d][..0] == [];
    assert "payee" != "account" by { assert "payee"[0] != "account"[0]; }
    assert AccountIndices([d]) == [];
  }

  /** Corrected: one Payee per payee directive, read from its alias and uuid sub-lines. */
  function PayeesFixed(ds: seq<Directive>): (r: seq<Payee>)
    ensures |r| == |KindIndices(ds, "payee")|
    ensures forall j :: 0 <= j < |r| ==>
      (0 <= r[j].directiveIndex < |ds| && ds[r[j].directiveIndex].kind == "payee" &&
       r[j] == PayeeOf(ds[r[j].directiveIndex], r[j].directiveIndex))
  {
    var idx := KindIndices(ds, "payee");
    seq(|idx|, j requires 0 <= j < |idx| => PayeeOf(ds[idx[j]], idx[j]))
  }

  /** Every payee directive of the file has its entry in PayeesFixed, with its own name. */
  lemma PayeesFixedComplete(ds: seq<Directive>, i: nat)
    requires i < |ds| && ds[i].kind == "payee"
    ensures exists j :: (0 <= j < |PayeesFixed(ds)| && PayeesFixed(ds)[j].directiveIndex == i &&
                         PayeesFixed(ds)[j].name == ds[i].argument)
  {
    var idx := KindIndices(ds, "payee");
    var j :| 0 <= j < |idx| && idx[j] == i;
    assert PayeesFixed(ds)[j].directiveIndex == i;
  }

  class File {
    var T: seq<Transaction>
    var D: seq<Directive>

    constructor (t: seq<Transaction>, d: seq<Directive>)
      ensures T == t && D == d
    {
      T := t;
      D := d;
    }

    /**
     * Format: sorts D stably by anchor, then writes the file as WriteLedgerFile does. It
     * succeeds exactly when every anchor lies in 0..|T|.
     */
    method Format() returns (out: seq<Writing.Item>, err: Option<LedgerError>)
      modifies this
      ensures T == old(T) && D == StableSort(old(D))
      ensures err == None <==> AnchorsInRange(old(D), |T|)
      ensures err == None ==> Writing.Interleaves(out, T, D)
      ensures err != None ==> err == Some(ErrImproperInterleave)
    {
      FormatAnchors(T, D);
      D := StableSort(D);
      out, err := Writing.WriteLedgerFile(T, D);
    }

    /**
     * Accounts: the account directives of D in order, or the error of the first one whose
     * name or one of whose aliases is malformed.
     */
    method Accounts() returns (accts: seq<Account>, err: Option<LedgerError>)
      ensures FirstBadAccount(D).Some? ==>
        accts == [] && FirstBadAccount(D).value < |D| && err == AccountError(D[FirstBadAccount(D).value])
      ensures FirstBadAccount(D).None? ==> err == None && AccountsRead(D, AccountIndices(D), accts)
    {
      accts := [];
      var dIx := 0;
      AccountsStart(D);
      while dIx < |D|
        invariant AccountsState(D, dIx, accts)
      {
        var d := D[dIx];
        if d.kind != "account" {
          AccountsNext(D, dIx, accts, []);
          dIx := dIx + 1;
          continue;
        }
        if Text.HasDoubleSpace(d.argument) || Text.ContainsAny(d.argument, ";\t") {
          AccountsBad(D, dIx, accts);
          return [], Some(ErrMalformedAccountName(d.argument, d.location));
        }
        var r := ReadAccount(d, dIx);
        if r.Err? {
          AccountsBad(D, dIx, accts);
          return [], Some(r.error);
        }
        AccountsNext(D, dIx, accts, [r.value]);
        accts := accts + [r.value];
        dIx := dIx + 1;
      }
      AccountsDone(D, accts);
      return accts, None;
    }

    /**
     * Payees: documented to read the payee directives, it reads the account directives
     * (Type "account"), with their alias and uuid sub-lines, and never fails.
     */
    method Payees() returns (payees: seq<Payee>, err: Option<LedgerError>)
      ensures err == None && PayeesRead(D, AccountIndices(D), payees)
    {
      payees := [];
      var dIx := 0;
      PayeesStart(D);
      while dIx < |D|
        invariant PayeesState(D, dIx, payees)
      {
        var d := D[dIx];
        if d.kind != "account" {
          PayeesNext(D, dIx, payees, []);
          dIx := dIx + 1;
          continue;
        }
        var p := ReadPayee(d, dIx);
        PayeesNext(D, dIx, payees, [p]);
        payees := payees + [p];
        dIx := dIx + 1;
      }
      PayeesDone(D, payees);
      return payees, None;
    }

    /** CleanCopy: a new File with the same contents and nothing shared. */
    method CleanCopy() returns (nf: File)
      ensures fresh(nf) && nf.T == T && nf.D == D
    {
      nf := new File([], []);
      var i := 0;
      while i < |T|
        invariant 0 <= i <= |T| && nf.T == T[..i] && nf.D == []
      {
        nf.T := nf.T + [T[i]];
        i := i + 1;
      }
      var j := 0;
      while j < |D|
        invariant 0 <= j <= |D| && nf.T == T && nf.D == D[..j]
      {
        nf.D := nf.D + [D[j]];
        j := j + 1;
      }
    }

    /** StripHistory: keeps one transaction per ID (see Stripped) and replaces T. */
    method StripHistory()
      modifies this
      ensures T == Stripped(old(T)) && D == old(D)
    {
      var ts := T;
      var newTrs: seq<Transaction> := [];
      var trIxs: map<string, int> := map[];
      var n := 0;
      StripStart(ts);
      while n < |ts|
        invariant StripState(ts, n, newTrs, trIxs)
        invariant ts == old(T) && D == old(D)
      {
        var tr := ts[n];
        if "ID" !in tr.kvPairs || tr.kvPairs["ID"] == "" {
          StepNoId(ts, n, newTrs, trIxs);
          newTrs := newTrs + [tr];
          n := n + 1;
          continue;
        }
        var id := tr.kvPairs["ID"];
        if id in trIxs {
          StepSeen(ts, n, newTrs, trIxs, id);
          newTrs := newTrs[trIxs[id] := tr];
          n := n + 1;
          continue;
        }
        StepNew(ts, n, newTrs, trIxs, id);
        trIxs := trIxs[id := |newTrs|];
        newTrs := newTrs + [tr];
        n := n + 1;
      }
      StripDone(ts, newTrs, trIxs);
      T := newTrs;
    }
  }

  lemma {:induction false} BadAccountAt(ds: seq<Directive>, n: nat)
    requires n < |ds| && FirstBadAccount(ds[..n]).None? && ds[n].kind == "account" && AccountError(ds[n]).Some?
    ensures FirstBadAccount(ds) == Some(n)
  {
    var m := |ds| - 1;
    if m != n {
      assert ds[..m][..n] == ds[..n] && ds[..m][n] == ds[n];
      BadAccountAt(ds[..m], n);
    }
  }
}

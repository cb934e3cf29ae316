/**
 * FormatSums and sumTree.render (transaction.go): the account balances are gathered into a tree
 * keyed by the ':'-separated parts of the account names, each node holding the total of the
 * accounts below it, and the tree is rendered as indented (name, amount) rows.
 */
module Sums {
  import opened Transactions
  import Text
  import Display

  /** A sumTree node; a missing child stands for nil. */
  datatype SumTree = SumTree(children: map<string, SumTree>, value: int)

  const EmptyTree := SumTree(map[], 0)

  /** level.children[part], a fresh &sumTree{} when there is none. */
  function Child(t: SumTree, k: string): SumTree
  {
    if k in t.children then t.children[k] else EmptyTree
  }

  /** The walk of FormatSums for one account: each node on the path of parts, created when missing, gains v. */
  function AddPath(t: SumTree, parts: seq<string>, v: int): (r: SumTree)
    ensures r.value == t.value
    decreases |parts|
  {
    if parts == [] then t
    else
      var c := Child(t, parts[0]);
      t.(children := t.children[parts[0] := AddPath(c.(value := c.value + v), parts[1..], v)])
  }

  /** The node reached by following path (an empty node once the path leaves the tree). */
  function At(t: SumTree, path: seq<string>): SumTree
    decreases |path|
  {
    if path == [] then t else At(Child(t, path[0]), path[1..])
  }

  /** Whether path leads to a node of the tree. */
  predicate Has(t: SumTree, path: seq<string>)
    decreases |path|
  {
    path == [] || (path[0] in t.children && Has(t.children[path[0]], path[1..]))
  }

  predicate IsPrefix(p: seq<string>, parts: seq<string>)
  {
    |p| <= |parts| && parts[..|p|] == p
  }

  lemma {:induction false} AtEmpty(p: seq<string>)
    ensures At(EmptyTree, p) == EmptyTree
    ensures Has(EmptyTree, p) <==> p == []
    decreases |p|
  {
    if p != [] {
      AtEmpty(p[1..]);
    }
  }

  /** Paths below the root do not look at the root's value. */
  lemma RootValueIrrelevant(t: SumTree, x: int, p: seq<string>)
    requires p != []
    ensures At(t.(value := x), p) == At(t, p)
    ensures Has(t.(value := x), p) == Has(t, p)
  {
    assert Child(t.(value := x), p[0]) == Child(t, p[0]);
  }

  lemma PrefixCons(p: seq<string>, parts: seq<string>)
    requires p != [] && parts != [] && p[0] == parts[0]
    ensures IsPrefix(p, parts) <==> IsPrefix(p[1..], parts[1..])
  {
    if IsPrefix(p[1..], parts[1..]) {
      assert parts[..|p|] == [parts[0]] + parts[1..][..|p| - 1];
      assert p == [p[0]] + p[1..];
    }
    if IsPrefix(p, parts) {
      assert parts[1..][..|p| - 1] == parts[..|p|][1..];
    }
  }

  /**
   * Adding v along parts adds v to exactly the nodes on the path (the root excepted) and creates
   * exactly the missing nodes on it; every other node is unchanged.
   */
  lemma {:induction false} AddPathAt(t: SumTree, parts: seq<string>, v: int, p: seq<string>)
    ensures At(AddPath(t, parts, v), p).value == At(t, p).value + (if p != [] && IsPrefix(p, parts) then v else 0)
    ensures Has(AddPath(t, parts, v), p) <==> Has(t, p) || IsPrefix(p, parts)
    decreases |p|
  {
    if p != [] && parts != [] {
      var k := parts[0];
      var c := Child(t, k);
      var c' := c.(value := c.value + v);
      var r := AddPath(t, parts, v);
      if p[0] != k {
        assert Child(r, p[0]) == Child(t, p[0]);
      } else {
        assert Child(r, k) == AddPath(c', parts[1..], v);
        PrefixCons(p, parts);
        AddPathAt(c', parts[1..], v, p[1..]);
        if p[1..] != [] {
          RootValueIrrelevant(c, c.value + v, p[1..]);
        }
        if k !in t.children {
          AtEmpty(p[1..]);
        }
      }
    }
  }

  lemma AddPathRoot(t: SumTree, x: int, parts: seq<string>, v: int)
    ensures AddPath(t.(value := x), parts, v) == AddPath(t, parts, v).(value := x)
  {
  }

  /** The walks of two accounts commute: the tree does not depend on the order of the map iteration. */
  lemma {:induction false} AddPathCommute(t: SumTree, p: seq<string>, v: int, q: seq<string>, w: int)
    ensures AddPath(AddPath(t, p, v), q, w) == AddPath(AddPath(t, q, w), p, v)
    decreases |p| + |q|, 1
  {
    if p != [] && q != [] {
      if p[0] != q[0] {
        CommuteApart(t, p, v, q, w);
      } else {
        CommuteShared(t, p, v, q, w);
      }
    }
  }

  /** Walks that leave the root by different children touch disjoint subtrees. */
  lemma CommuteApart(t: SumTree, p: seq<string>, v: int, q: seq<string>, w: int)
    requires p != [] && q != [] && p[0] != q[0]
    ensures AddPath(AddPath(t, p, v), q, w) == AddPath(AddPath(t, q, w), p, v)
  {
    var k1, k2 := p[0], q[0];
    var c1, c2 := Child(t, k1), Child(t, k2);
    var x1 := AddPath(c1.(value := c1.value + v), p[1..], v);
    var x2 := AddPath(c2.(value := c2.value + w), q[1..], w);
    var a, b := AddPath(t, p, v), AddPath(t, q, w);
    assert a == t.(children := t.children[k1 := x1]);
    assert b == t.(children := t.children[k2 := x2]);
    WalkAfter(t, k1, x1, q, w);
    WalkAfter(t, k2, x2, p, v);
    assert t.children[k1 := x1][k2 := x2] == t.children[k2 := x2][k1 := x1];
  }

  /** A walk after another child was replaced starts from the same child as before. */
  lemma WalkAfter(t: SumTree, k: string, x: SumTree, q: seq<string>, w: int)
    requires q != [] && q[0] != k
    ensures var c := Child(t, q[0]);
      AddPath(t.(children := t.children[k := x]), q, w)
        == t.(children := t.children[k := x][q[0] := AddPath(c.(value := c.value + w), q[1..], w)])
  {
    assert Child(t.(children := t.children[k := x]), q[0]) == Child(t, q[0]);
  }

  /** Walks through the same child commute because their rests commute below it. */
  lemma {:induction false} CommuteShared(t: SumTree, p: seq<string>, v: int, q: seq<string>, w: int)
    requires p != [] && q != [] && p[0] == q[0]
    ensures AddPath(AddPath(t, p, v), q, w) == AddPath(AddPath(t, q, w), p, v)
    decreases |p| + |q|, 0
  {
    var k := p[0];
    var c := Child(t, k);
    var x := c.value + v + w;
    WalkTwice(t, p, v, q, w, x);
    WalkTwice(t, q, w, p, v, x);
    AddPathCommute(c.(value := x), p[1..], v, q[1..], w);
  }

  /** Two walks through the same child: the child gains both amounts and takes both rests. */
  lemma WalkTwice(t: SumTree, p: seq<string>, v: int, q: seq<string>, w: int, x: int)
    requires p != [] && q != [] && p[0] == q[0] && x == Child(t, p[0]).value + v + w
    ensures var cx := Child(t, p[0]).(value := x);
      AddPath(AddPath(t, p, v), q, w) == t.(children := t.children[p[0] := AddPath(AddPath(cx, p[1..], v), q[1..], w)])
  {
    var k := p[0];
    var c := Child(t, k);
    var a1 := AddPath(c.(value := c.value + v), p[1..], v);
    var a := AddPath(t, p, v);
    assert a == t.(children := t.children[k := a1]);
    assert Child(a, k) == a1;
    assert a1.(value := x) == AddPath(c.(value := x), p[1..], v) by {
      AddPathRoot(c.(value := c.value + v), x, p[1..], v);
      assert c.(value := c.value + v).(value := x) == c.(value := x);
    }
    assert a.children[k := AddPath(a1.(value := x), q[1..], w)] == t.children[k := AddPath(a1.(value := x), q[1..], w)];
  }

  /** The tree FormatSums builds from the balance map, before rendering. */
  ghost function BuildTree(m: map<string, int>): SumTree
    decreases |m.Keys|
  {
    if m.Keys == {} then EmptyTree
    else
      var k :| k in m;
      RemoveKey(m, k);
      AddPath(BuildTree(m - {k}), Text.Split(k, ':'), m[k])
  }

  /** BuildTree may take the accounts in any order. */
  lemma {:induction false} BuildTreeRemove(m: map<string, int>, k: string)
    requires k in m
    ensures BuildTree(m) == AddPath(BuildTree(m - {k}), Text.Split(k, ':'), m[k])
    decreases |m.Keys|
  {
    var j :| j in m && BuildTree(m) == AddPath(BuildTree(m - {j}), Text.Split(j, ':'), m[j]);
    if j != k {
      RemoveKey(m, j);
      RemoveKey(m, k);
      BuildTreeRemove(m - {j}, k);
      BuildTreeRemove(m - {k}, j);
      RemoveTwo(m, j, k);
      AddPathCommute(BuildTree(m - {j} - {k}), Text.Split(k, ':'), m[k], Text.Split(j, ':'), m[j]);
    }
  }

  /** The balances of the accounts whose name starts with the parts p. */
  ghost function Under(m: map<string, int>, p: seq<string>): map<string, int>
  {
    map a | a in m && IsPrefix(p, Text.Split(a, ':')) :: m[a]
  }

  lemma UnderRemove(m: map<string, int>, k: string, p: seq<string>)
    requires k in m
    ensures IsPrefix(p, Text.Split(k, ':')) ==> k in Under(m, p) && Under(m, p) - {k} == Under(m - {k}, p)
    ensures !IsPrefix(p, Text.Split(k, ':')) ==> Under(m, p) == Under(m - {k}, p)
  {
  }

  /**
   * Every node of the tree holds the sum of the balances of the accounts having its path as a
   * ':'-prefix, and the nodes are exactly the prefixes of account names.
   */
  lemma {:induction false} TreeSums(m: map<string, int>, p: seq<string>)
    requires p != []
    ensures At(BuildTree(m), p).value == MapSum(Under(m, p))
    ensures Has(BuildTree(m), p) <==> exists a :: a in m && IsPrefix(p, Text.Split(a, ':'))
    decreases |m.Keys|
  {
    if m.Keys == {} {
      AtEmpty(p);
      assert Under(m, p).Keys == {};
    } else {
      var k :| k in m;
      var m' := m - {k};
      RemoveKey(m, k);
      TreeSums(m', p);
      BuildTreeRemove(m, k);
      AddPathAt(BuildTree(m'), Text.Split(k, ':'), m[k], p);
      UnderRemove(m, k, p);
      if IsPrefix(p, Text.Split(k, ':')) {
        MapSumRemove(Under(m, p), k);
      }
      if exists a :: a in m && IsPrefix(p, Text.Split(a, ':')) {
        var a :| a in m && IsPrefix(p, Text.Split(a, ':'));
        if a != k {
          assert a in m';
        }
      }
    }
  }

  /** A list of the keys of a map, in no particular order. */
  ghost function KeyList(keys: set<string>): (r: seq<string>)
    ensures Text.Distinct(r) && forall k :: k in r <==> k in keys
    decreases |keys|
  {
    if keys == {} then []
    else
      var k :| k in keys;
      [k] + KeyList(keys - {k})
  }

  /** sort.Strings of the child keys. */
  ghost function SortedKeys(children: map<string, SumTree>): (r: seq<string>)
    ensures Text.Sorted(r) && forall k :: k in r <==> k in children
  {
    var ks := KeyList(children.Keys);
    var r := Text.SortStrings(ks);
    assert forall k :: k in r <==> k in multiset(r);
    r
  }

  /**
   * The rows sumTree.render appends for the node t reached under name; fv formats an amount
   * (FormatValue, which FormatSums passes).
   */
  ghost function Render(t: SumTree, name: string, lvl: string, pad: string, fv: int -> string): seq<(string, string)>
    decreases t, 1
  {
    if |t.children| == 1 then
      var k :| k in t.children;
      Render(t.children[k], name + ":" + k, lvl, pad, fv)
    else
      var padding := if name != "" then pad else "";
      var head := if name != "" then [(lvl + name, fv(t.value))] else [];
      head + RenderAll(t, SortedKeys(t.children), lvl + padding, pad, fv)
  }

  /** The rows of the children named by keys, in that order. */
  ghost function RenderAll(t: SumTree, keys: seq<string>, lvl: string, pad: string, fv: int -> string): seq<(string, string)>
    requires forall i :: 0 <= i < |keys| ==> keys[i] in t.children
    decreases t, 0, |keys|
  {
    if keys == [] then []
    else RenderAll(t, keys[..|keys| - 1], lvl, pad, fv) + Render(t.children[keys[|keys| - 1]], keys[|keys| - 1], lvl, pad, fv)
  }

  /** The only key of a one-entry map. */
  lemma SingleKey(m: map<string, SumTree>, a: string, b: string)
    requires |m| == 1 && a in m && b in m
    ensures a == b
  {
    if a != b {
      assert {a, b} <= m.Keys;
      assert |{a, b}| == 2;
      SubsetCard({a, b}, m.Keys);
    }
  }

  lemma SubsetCard(a: set<string>, b: set<string>)
    requires a <= b
    ensures |a| <= |b|
  {
    assert b == a + (b - a);
  }

  /** Two strictly ascending lists with the same elements are the same list. */
  lemma {:induction false} SortedUnique(a: seq<string>, b: seq<string>)
    requires Text.Sorted(a) && Text.Sorted(b)
    requires forall k :: k in a <==> k in b
    ensures a == b
  {
    assert a != [] ==> a[0] in a;
    assert b != [] ==> b[0] in b;
    if a != [] && b != [] {
      NotBelowFirst(b, a[0]);
      NotBelowFirst(a, b[0]);
      Text.LessTrichotomy(a[0], b[0]);
      forall k ensures k in a[1..] <==> k in b[1..] {
        AfterFirst(a, k);
        AfterFirst(b, k);
      }
      SortedUnique(a[1..], b[1..]);
      assert a == [a[0]] + a[1..] && b == [b[0]] + b[1..];
    }
  }

  /** Nothing in an ascending list is below its first element. */
  lemma NotBelowFirst(a: seq<string>, k: string)
    requires Text.Sorted(a) && k in a
    ensures !Text.Less(k, a[0])
  {
    var j :| 0 <= j < |a| && a[j] == k;
    if j == 0 {
      Text.LessIrreflexive(k);
    } else {
      Text.LessAsymmetric(a[0], k);
    }
  }

  /** The rest of an ascending list holds the elements other than the first. */
  lemma AfterFirst(a: seq<string>, k: string)
    requires Text.Sorted(a) && a != []
    ensures k in a[1..] <==> k in a && k != a[0]
  {
    if k in a[1..] {
      var j :| 0 <= j < |a| - 1 && a[1..][j] == k;
      assert Text.Less(a[0], a[j + 1]);
      if k == a[0] {
        Text.LessIrreflexive(k);
      }
    }
    if k in a && k != a[0] {
      var j :| 0 <= j < |a| && a[j] == k;
      assert a[1..][j - 1] == k;
    }
  }

  /** The loop of render that collects the child keys of a map. */
  method CollectKeys(children: map<string, SumTree>) returns (keys: seq<string>)
    ensures Text.Distinct(keys) && forall k :: k in keys <==> k in children
  {
    keys := [];
    var todo := children.Keys;
    while todo != {}
      invariant todo <= children.Keys
      invariant Text.Distinct(keys)
      invariant forall k :: k in keys <==> k in children && k !in todo
      decreases |todo|
    {
      var k :| k in todo;
      keys := keys + [k];
      todo := todo - {k};
    }
  }

  /** The child keys of a node, collected by a range loop and put in order by sort.Strings. */
  method SortedChildKeys(children: map<string, SumTree>) returns (keys: seq<string>)
    ensures Text.Sorted(keys) && forall k :: k in keys <==> k in children
  {
    keys := CollectKeys(children);
    keys := Text.SortStrings(keys);
    InMultiset(keys);
  }

  /** sumTree.render: appends the rows of t to res. */
  method RenderRows(t: SumTree, name: string, lvl: string, pad: string, fv: int -> string, res: seq<(string, string)>)
    returns (out: seq<(string, string)>)
    ensures out == res + Render(t, name, lvl, pad, fv)
    decreases t, 1
  {
    if |t.children| == 1 {
      var key :| key in t.children;
      RenderSingle(t, key, name, lvl, pad, fv);
      out := RenderRows(t.children[key], name + ":" + key, lvl, pad, fv, res);
      return;
    }
    var padding := if name != "" then pad else "";
    var head := if name != "" then [(lvl + name, fv(t.value))] else [];
    out := res + head;
    var keys := SortedChildKeys(t.children);
    RenderNode(t, keys, name, lvl, pad, fv, head, padding);
    ghost var rest := RenderAll(t, keys, lvl + padding, pad, fv);
    out := RenderKeys(t, keys, lvl + padding, pad, fv, out);
    Append3(res, head, rest);
  }

  lemma InMultiset(keys: seq<string>)
    ensures forall k :: k in keys <==> k in multiset(keys)
  {
  }

  lemma Append3(a: seq<(string, string)>, b: seq<(string, string)>, c: seq<(string, string)>)
    ensures (a + b) + c == a + (b + c)
  {
  }

  /** A node with one child is rendered as that child under the joined name. */
  lemma RenderSingle(t: SumTree, key: string, name: string, lvl: string, pad: string, fv: int -> string)
    requires |t.children| == 1 && key in t.children
    ensures Render(t, name, lvl, pad, fv) == Render(t.children[key], name + ":" + key, lvl, pad, fv)
  {
    var k :| k in t.children && Render(t, name, lvl, pad, fv) == Render(t.children[k], name + ":" + k, lvl, pad, fv);
    SingleKey(t.children, key, k);
  }

  /** Any other node: its own row when it has a name, then its children in ascending key order. */
  lemma RenderNode(t: SumTree, keys: seq<string>, name: string, lvl: string, pad: string, fv: int -> string,
                    head: seq<(string, string)>, padding: string)
    requires |t.children| != 1
    requires Text.Sorted(keys) && forall k :: k in keys <==> k in t.children
    requires head == if name != "" then [(lvl + name, fv(t.value))] else []
    requires padding == if name != "" then pad else ""
    ensures Render(t, name, lvl, pad, fv) == head + RenderAll(t, keys, lvl + padding, pad, fv)
  {
    SortedUnique(keys, SortedKeys(t.children));
  }

  /** The loop of render over the sorted child keys. */
  method RenderKeys(t: SumTree, keys: seq<string>, lvl: string, pad: string, fv: int -> string, res: seq<(string, string)>)
    returns (out: seq<(string, string)>)
    requires forall i :: 0 <= i < |keys| ==> keys[i] in t.children
    ensures out == res + RenderAll(t, keys, lvl, pad, fv)
    decreases t, 0, |keys|
  {
    out := res;
    var i := 0;
    while i < |keys|
      invariant 0 <= i <= |keys|
      invariant out == res + RenderAll(t, keys[..i], lvl, pad, fv)
    {
      out := RenderRows(t.children[keys[i]], keys[i], lvl, pad, fv, out);
      RenderAllStep(t, keys, i, lvl, pad, fv);
      Append3(res, RenderAll(t, keys[..i], lvl, pad, fv), Render(t.children[keys[i]], keys[i], lvl, pad, fv));
      i := i + 1;
    }
    assert keys[..|keys|] == keys;
  }

  lemma RenderAllStep(t: SumTree, keys: seq<string>, i: nat, lvl: string, pad: string, fv: int -> string)
    requires i < |keys| && forall j :: 0 <= j < |keys| ==> keys[j] in t.children
    ensures RenderAll(t, keys[..i + 1], lvl, pad, fv)
         == RenderAll(t, keys[..i], lvl, pad, fv) + Render(t.children[keys[i]], keys[i], lvl, pad, fv)
  {
    assert keys[..i + 1][..i] == keys[..i];
  }

  /** One turn of the loop of FormatSums adds the walk of one more account to the tree. */
  lemma BuildStep(accounts: map<string, int>, todo: set<string>, account: string)
    requires account in todo && todo <= accounts.Keys
    ensures BuildTree(accounts - (todo - {account})) == AddPath(BuildTree(accounts - todo), Text.Split(account, ':'), accounts[account])
  {
    var done := accounts - (todo - {account});
    BuildTreeRemove(done, account);
    assert done - {account} == accounts - todo;
  }

  /** FormatSums: the tree of the balances, rendered from an unnamed root. */
  method FormatSums(accounts: map<string, int>, pad: string) returns (rows: seq<(string, string)>)
    ensures rows == Render(BuildTree(accounts), "", "", pad, Display.FormatValue)
  {
    var root := EmptyTree;
    var todo := accounts.Keys;
    while todo != {}
      invariant todo <= accounts.Keys
      invariant root == BuildTree(accounts - todo)
      decreases |todo|
    {
      var account :| account in todo;
      var parts := Text.Split(account, ':');
      BuildStep(accounts, todo, account);
      root := AddPath(root, parts, accounts[account]);
      todo := todo - {account};
    }
    assert accounts - todo == accounts;
    rows := RenderRows(root, "", "", pad, Display.FormatValue, []);
  }

  /** The tree of a single account without ':' in its name: one leaf below the root. */
  lemma BuildTreeSingle(account: string, v: int)
    requires ':' !in account
    ensures BuildTree(map[account := v]) == SumTree(map[account := SumTree(map[], v)], 0)
  {
    var m := map[account := v];
    BuildTreeRemove(m, account);
    assert m - {account} == map[];
    assert BuildTree(map[]) == EmptyTree;
    SplitNoSep(account);
  }

  /**
   * With a single top-level account the rendered name starts with ':', because the unnamed root
   * has one child and its empty name is joined to the child's.
   */
  lemma SingleAccountRow(account: string, v: int, pad: string, fv: int -> string)
    requires ':' !in account
    ensures Render(BuildTree(map[account := v]), "", "", pad, fv) == [(":" + account, fv(v))]
  {
    BuildTreeSingle(account, v);
    var leaf := SumTree(map[], v);
    var root := SumTree(map[account := leaf], 0);
    assert |root.children| == 1;
    RenderSingle(root, account, "", "", pad, fv);
    var name := "" + ":" + account;
    assert name == ":" + account;
    RenderNode(leaf, [], name, "", pad, fv, [("" + name, fv(v))], pad);
    assert "" + name == name;
  }

  // The renderer as intended: below the unnamed root a single child keeps its own name.

  /** The name of a merged single child: no ':' is put in front of a top-level part. */
  function JoinName(name: string, key: string): string
  {
    if name == "" then key else name + ":" + key
  }

  /** render with the corrected join of merged names. */
  ghost function RenderFixed(t: SumTree, name: string, lvl: string, pad: string, fv: int -> string): seq<(string, string)>
    decreases t, 1
  {
    if |t.children| == 1 then
      var k :| k in t.children;
      RenderFixed(t.children[k], JoinName(name, k), lvl, pad, fv)
    else
      var padding := if name != "" then pad else "";
      var head := if name != "" then [(lvl + name, fv(t.value))] else [];
      head + RenderAllFixed(t, SortedKeys(t.children), lvl + padding, pad, fv)
  }

  ghost function RenderAllFixed(t: SumTree, keys: seq<string>, lvl: string, pad: string, fv: int -> string): seq<(string, string)>
    requires forall i :: 0 <= i < |keys| ==> keys[i] in t.children
    decreases t, 0, |keys|
  {
    if keys == [] then []
    else RenderAllFixed(t, keys[..|keys| - 1], lvl, pad, fv) + RenderFixed(t.children[keys[|keys| - 1]], keys[|keys| - 1], lvl, pad, fv)
  }

  /** A leaf is its own row under a non-empty name, whichever join is used. */
  lemma RenderFixedLeaf(v: int, name: string, lvl: string, pad: string, fv: int -> string)
    requires name != ""
    ensures RenderFixed(SumTree(map[], v), name, lvl, pad, fv) == [(lvl + name, fv(v))]
  {
    var leaf := SumTree(map[], v);
    assert |leaf.children| == 0;
    assert SortedKeys(leaf.children) == [];
  }

  /** With the corrected join a single top-level account is rendered under its own name. */
  lemma SingleAccountRowFixed(account: string, v: int, pad: string, fv: int -> string)
    requires ':' !in account && account != ""
    ensures RenderFixed(BuildTree(map[account := v]), "", "", pad, fv) == [(account, fv(v))]
  {
    BuildTreeSingle(account, v);
    var leaf := SumTree(map[], v);
    var root := SumTree(map[account := leaf], 0);
    assert |root.children| == 1;
    var k :| k in root.children && RenderFixed(root, "", "", pad, fv) == RenderFixed(root.children[k], JoinName("", k), "", pad, fv);
    assert k == account;
    RenderFixedLeaf(v, account, "", pad, fv);
    assert "" + account == account;
  }

  lemma SplitNoSep(s: string)
    requires ':' !in s
    ensures Text.Split(s, ':') == [s]
  {
  }
}

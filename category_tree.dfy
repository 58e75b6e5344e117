/**
 * The category table's rows and CategoryController::buildCategoryTree
 * (src/Controllers/CategoryController.php): the rows whose `parent_id` is
 * loosely equal (PHP `==`) to the parent asked for, in row order, each
 * with its own children built by the same recursion.
 *
 * The PHP recursion has no guard: when the loose comparison lets a row be
 * its own descendant it never ends. The model gives the recursion a depth
 * budget and answers None when the budget runs out; `TreeDepthBound` and
 * `TreeSettles` show that a budget of one more than the number of rows
 * gives the PHP result whenever the PHP recursion ends at all, and that
 * None at that budget means it never ends.
 */
module CategoryTree {
  import opened Strings
  import opened Php

  /**
   * A row of `categories`. The id is the table's integer key; the other
   * columns hold the values the controller wrote; the two timestamps are
   * the clock readings they were written with.
   */
  datatype Category = Category(
    id: int, name: Value, slug: Value, description: Value, parentId: Value,
    sortOrder: Value, isActive: Value, metadata: Value, createdAt: int, updatedAt: int)

  // ---------------------------------------------------------------------------
  // PHP 8's loose comparison against `?int`

  /** `$v == null`: null, false, 0, "" and the empty array (but not "0"). */
  predicate LooseNull(v: Value) {
    match v
    case VNull => true
    case VBool(b) => !b
    case VInt(i) => i == 0
    case VStr(s) => s == ""
    case VArr(a) => a.keys == []
  }

  /** An optional sign followed by at least one decimal digit. */
  predicate IsIntegral(s: string) {
    if s != [] && (s[0] == '-' || s[0] == '+') then |s| > 1 && AllDigits(s[1..])
    else s != [] && AllDigits(s)
  }

  /** The number an integral string denotes. */
  function IntegralValue(s: string): int
    requires IsIntegral(s)
  {
    if s[0] == '-' then 0 - DigitsValue(s[1..])
    else if s[0] == '+' then DigitsValue(s[1..])
    else DigitsValue(s)
  }

  /** `$v == $n` for an int `$n`: booleans compare as booleans, numeric strings as numbers, arrays never. */
  predicate LooseInt(v: Value, n: int) {
    match v
    case VNull => n == 0
    case VBool(b) => b == (n != 0)
    case VInt(i) => i == n
    case VStr(s) => IsIntegral(s) && IntegralValue(s) == n
    case VArr(_) => false
  }

  /** `$category['parent_id'] == $parentId`. */
  predicate Matches(c: Category, p: Option<int>) {
    if p.None? then LooseNull(c.parentId) else LooseInt(c.parentId, p.value)
  }

  /** The rows a call for the parent selects, in row order. */
  function Matching(rows: seq<Category>, p: Option<int>): (r: seq<Category>)
    ensures forall x :: x in r <==> x in rows && Matches(x, p)
    ensures |r| <= |rows|
    decreases |rows|
  {
    if rows == [] then []
    else
      var front := rows[..|rows| - 1];
      assert forall x :: x in rows <==> x in front || x == rows[|rows| - 1];
      Matching(front, p) + (if Matches(rows[|rows| - 1], p) then [rows[|rows| - 1]] else [])
  }

  // ---------------------------------------------------------------------------
  // buildCategoryTree

  /** A row with the `children` the recursion built for it. */
  datatype Node = Node(row: Category, children: seq<Node>)

  /**
   * `buildCategoryTree($rows, $p)` within a depth budget: None when the
   * budget runs out before the recursion ends.
   */
  function Tree(rows: seq<Category>, p: Option<int>, fuel: nat): Option<seq<Node>>
    decreases fuel, 1, 0
  {
    if fuel == 0 then None else Level(rows, p, fuel - 1, |rows|)
  }

  /** The foreach over the first `n` rows: each matching row, with its subtree, appended in turn. */
  function Level(rows: seq<Category>, p: Option<int>, fuel: nat, n: nat): Option<seq<Node>>
    requires n <= |rows|
    decreases fuel + 1, 0, n
  {
    if n == 0 then Some([])
    else match Level(rows, p, fuel, n - 1)
      case None => None
      case Some(acc) =>
        if !Matches(rows[n - 1], p) then Some(acc)
        else match Tree(rows, Some(rows[n - 1].id), fuel)
          case None => None
          case Some(kids) => Some(acc + [Node(rows[n - 1], kids)])
  }

  /** buildCategoryTree: the foreach, recursing into each matching row. */
  method BuildCategoryTree(rows: seq<Category>, p: Option<int>, fuel: nat) returns (tree: Option<seq<Node>>)
    ensures tree == Tree(rows, p, fuel)
    decreases fuel
  {
    if fuel == 0 {
      return None;
    }
    var acc: seq<Node> := [];
    var i := 0;
    while i < |rows|
      invariant 0 <= i <= |rows|
      invariant Level(rows, p, fuel - 1, i) == Some(acc)
    {
      var category := rows[i];
      if Matches(category, p) {
        var kids := BuildCategoryTree(rows, Some(category.id), fuel - 1);
        if kids.None? {
          LevelStaysNone(rows, p, fuel - 1, i + 1, |rows|);
          return None;
        }
        acc := acc + [Node(category, kids.value)];
      }
      i := i + 1;
    }
    tree := Some(acc);
  }

  /** Once the foreach has failed on a prefix it fails on every longer one. */
  lemma {:induction false} LevelStaysNone(rows: seq<Category>, p: Option<int>, fuel: nat, n: nat, m: nat)
    requires n <= m <= |rows|
    requires Level(rows, p, fuel, n).None?
    ensures Level(rows, p, fuel, m).None?
    decreases m - n
  {
    if n < m {
      LevelStaysNone(rows, p, fuel, n, m - 1);
    }
  }

  // ---------------------------------------------------------------------------
  // The children of a call are exactly the matching rows

  /**
   * A call that ends gives one node per matching row, in row order, each
   * carrying the subtree of the call for that row's id.
   */
  lemma TreeChildren(rows: seq<Category>, p: Option<int>, fuel: nat)
    requires Tree(rows, p, fuel).Some?
    ensures fuel >= 1
    ensures var t := Tree(rows, p, fuel).value;
      && |t| == |Matching(rows, p)|
      && forall k :: 0 <= k < |t| ==>
           t[k].row == Matching(rows, p)[k] && Tree(rows, Some(t[k].row.id), fuel - 1) == Some(t[k].children)
  {
    LevelChildren(rows, p, fuel - 1, |rows|);
    assert rows[..|rows|] == rows;
  }

  lemma {:induction false} LevelChildren(rows: seq<Category>, p: Option<int>, fuel: nat, n: nat)
    requires n <= |rows|
    requires Level(rows, p, fuel, n).Some?
    ensures var t := Level(rows, p, fuel, n).value;
      && |t| == |Matching(rows[..n], p)|
      && forall k :: 0 <= k < |t| ==>
           t[k].row == Matching(rows[..n], p)[k] && Tree(rows, Some(t[k].row.id), fuel) == Some(t[k].children)
    decreases n
  {
    if n > 0 {
      LevelChildren(rows, p, fuel, n - 1);
      assert rows[..n][..n - 1] == rows[..n - 1];
      assert rows[..n][n - 1] == rows[n - 1];
    }
  }

  // ---------------------------------------------------------------------------
  // Chains of rows

  /**
   * A downward chain from a parent: the first row is one the call for `p`
   * selects, and each next row one the call for the previous row's id
   * selects.
   */
  predicate Chain(rows: seq<Category>, p: Option<int>, c: seq<Category>)
    decreases |c|
  {
    c == [] || (c[0] in rows && Matches(c[0], p) && Chain(rows, Some(c[0].id), c[1..]))
  }

  /** The parent a chain leads to: the id of its last row. */
  function End(p: Option<int>, c: seq<Category>): Option<int> {
    if c == [] then p else Some(c[|c| - 1].id)
  }

  /** A chain can be cut anywhere: the two parts are chains, the second from where the first ends. */
  lemma {:induction false} ChainAppend(rows: seq<Category>, p: Option<int>, a: seq<Category>, b: seq<Category>)
    ensures Chain(rows, p, a + b) <==> Chain(rows, p, a) && Chain(rows, End(p, a), b)
    decreases |a|
  {
    if a == [] {
      assert a + b == b;
    } else {
      ChainAppend(rows, Some(a[0].id), a[1..], b);
      assert (a + b)[0] == a[0] && (a + b)[1..] == a[1..] + b;
      assert End(Some(a[0].id), a[1..]) == End(p, a);
    }
  }

  /** Every prefix of a chain is a chain. */
  lemma ChainPrefix(rows: seq<Category>, p: Option<int>, c: seq<Category>, k: nat)
    requires Chain(rows, p, c) && k <= |c|
    ensures Chain(rows, p, c[..k])
  {
    ChainAppend(rows, p, c[..k], c[k..]);
    assert c[..k] + c[k..] == c;
  }

  /** The rows of a chain are rows of the table, each selected by the one before it. */
  lemma {:induction false} ChainSteps(rows: seq<Category>, p: Option<int>, c: seq<Category>)
    requires Chain(rows, p, c)
    ensures forall k :: 0 <= k < |c| ==> c[k] in rows
    ensures |c| > 0 ==> Matches(c[0], p)
    ensures forall k :: 0 < k < |c| ==> Matches(c[k], Some(c[k - 1].id))
    decreases |c|
  {
    if c != [] {
      ChainSteps(rows, Some(c[0].id), c[1..]);
      assert forall k :: 0 < k < |c| ==> c[k] == c[1..][k - 1];
    }
  }

  /** The recursion runs out of budget exactly when a chain as long as the budget hangs below the parent. */
  lemma {:induction false} TreeNoneIffChain(rows: seq<Category>, p: Option<int>, fuel: nat)
    ensures Tree(rows, p, fuel).None? <==> exists c :: |c| == fuel && Chain(rows, p, c)
    decreases fuel
  {
    if fuel == 0 {
      assert Chain(rows, p, []);
    } else {
      var g := fuel - 1;
      LevelNone(rows, p, g, |rows|);
      if Tree(rows, p, fuel).None? {
        var k :| 0 <= k < |rows| && Matches(rows[k], p) && Tree(rows, Some(rows[k].id), g).None?;
        TreeNoneIffChain(rows, Some(rows[k].id), g);
        var c': seq<Category> :| |c'| == g && Chain(rows, Some(rows[k].id), c');
        var c := [rows[k]] + c';
        assert c[0] == rows[k] && c[1..] == c';
        assert Chain(rows, p, c);
      }
      if exists c :: |c| == fuel && Chain(rows, p, c) {
        var c: seq<Category> :| |c| == fuel && Chain(rows, p, c);
        var k :| 0 <= k < |rows| && rows[k] == c[0];
        TreeNoneIffChain(rows, Some(rows[k].id), g);
        assert |c[1..]| == g && Chain(rows, Some(rows[k].id), c[1..]);
      }
    }
  }

  /** The foreach runs out of budget exactly when the call for one of its matching rows does. */
  lemma {:induction false} LevelNone(rows: seq<Category>, p: Option<int>, fuel: nat, n: nat)
    requires n <= |rows|
    ensures Level(rows, p, fuel, n).None? <==>
      exists k :: 0 <= k < n && Matches(rows[k], p) && Tree(rows, Some(rows[k].id), fuel).None?
    decreases n
  {
    if n > 0 {
      LevelNone(rows, p, fuel, n - 1);
    }
  }

  // ---------------------------------------------------------------------------
  // Budgets

  /** A call that ends within a budget gives the same result with any larger budget. */
  lemma {:induction false} TreeMono(rows: seq<Category>, p: Option<int>, fuel: nat, fuel': nat)
    requires Tree(rows, p, fuel).Some? && fuel <= fuel'
    ensures Tree(rows, p, fuel') == Tree(rows, p, fuel)
    decreases fuel, 1, 0
  {
    LevelMono(rows, p, fuel - 1, fuel' - 1, |rows|);
  }

  lemma {:induction false} LevelMono(rows: seq<Category>, p: Option<int>, fuel: nat, fuel': nat, n: nat)
    requires n <= |rows|
    requires Level(rows, p, fuel, n).Some? && fuel <= fuel'
    ensures Level(rows, p, fuel', n) == Level(rows, p, fuel, n)
    decreases fuel + 1, 0, n
  {
    if n > 0 {
      LevelMono(rows, p, fuel, fuel', n - 1);
      if Matches(rows[n - 1], p) {
        TreeMono(rows, Some(rows[n - 1].id), fuel, fuel');
      }
    }
  }

  /** A sequence with no repeated element is at most as long as the set of its elements. */
  lemma {:induction false} DistinctCard(c: seq<Category>)
    requires forall i, j :: 0 <= i < j < |c| ==> c[i] != c[j]
    ensures |set x | x in c| == |c|
    decreases |c|
  {
    if c != [] {
      var tail := c[1..];
      forall i, j | 0 <= i < j < |tail| ensures tail[i] != tail[j] {
        assert tail[i] == c[i + 1] && tail[j] == c[j + 1];
      }
      DistinctCard(tail);
      assert c[0] !in tail;
      assert (set x | x in c) == (set x | x in tail) + {c[0]};
    }
  }

  /** The set of a sequence's elements is no larger than the sequence. */
  lemma {:induction false} SetCard(rows: seq<Category>)
    ensures |set x | x in rows| <= |rows|
    decreases |rows|
  {
    if rows != [] {
      SetCard(rows[1..]);
      assert (set x | x in rows) == (set x | x in rows[1..]) + {rows[0]};
    }
  }

  /** A chain longer than the table repeats a row. */
  lemma Pigeonhole(rows: seq<Category>, c: seq<Category>)
    requires forall k :: 0 <= k < |c| ==> c[k] in rows
    requires |c| > |rows|
    ensures exists i, j :: 0 <= i < j < |c| && c[i] == c[j]
  {
    if forall i, j :: 0 <= i < j < |c| ==> c[i] != c[j] {
      DistinctCard(c);
      SetCard(rows);
      SubsetCard(set x | x in c, set x | x in rows);
    }
  }

  lemma SubsetCard(a: set<Category>, b: set<Category>)
    requires a <= b
    ensures |a| <= |b|
  {
    assert b == a + (b - a);
    assert a * (b - a) == {};
  }

  /** `k` copies of a sequence, one after another. */
  function Repeat(c: seq<Category>, k: nat): (r: seq<Category>)
    ensures |c| > 0 ==> |r| >= k
  {
    if k == 0 then [] else c + Repeat(c, k - 1)
  }

  /** A non-empty chain from a row's id back to that row can be walked round as often as wanted. */
  lemma {:induction false} CycleRepeats(rows: seq<Category>, x: Category, cyc: seq<Category>, k: nat)
    requires |cyc| > 0 && cyc[|cyc| - 1] == x && Chain(rows, Some(x.id), cyc)
    ensures Chain(rows, Some(x.id), Repeat(cyc, k))
    decreases k
  {
    if k > 0 {
      CycleRepeats(rows, x, cyc, k - 1);
      ChainAppend(rows, Some(x.id), cyc, Repeat(cyc, k - 1));
    }
  }

  /** Below a row on a cycle hang chains of every length. */
  lemma CycleChains(rows: seq<Category>, p: Option<int>, a: seq<Category>, x: Category, cyc: seq<Category>, n: nat)
    requires Chain(rows, p, a) && End(p, a) == Some(x.id)
    requires |cyc| > 0 && cyc[|cyc| - 1] == x && Chain(rows, Some(x.id), cyc)
    ensures exists c :: |c| == n && Chain(rows, p, c)
  {
    var loop := Repeat(cyc, n);
    CycleRepeats(rows, x, cyc, n);
    ChainAppend(rows, p, a, loop);
    ChainPrefix(rows, p, a + loop, n);
  }

  /** Below a row on a cycle the recursion never ends. */
  lemma CycleNeverEnds(rows: seq<Category>, p: Option<int>, a: seq<Category>, x: Category, cyc: seq<Category>, fuel: nat)
    requires Chain(rows, p, a) && End(p, a) == Some(x.id)
    requires |cyc| > 0 && cyc[|cyc| - 1] == x && Chain(rows, Some(x.id), cyc)
    ensures Tree(rows, p, fuel).None?
  {
    CycleChains(rows, p, a, x, cyc, fuel);
    TreeNoneIffChain(rows, p, fuel);
  }

  /** A chain longer than the table has chains of every length beside it. */
  lemma LongChains(rows: seq<Category>, p: Option<int>, c: seq<Category>, n: nat)
    requires Chain(rows, p, c) && |c| > |rows|
    ensures exists c' :: |c'| == n && Chain(rows, p, c')
  {
    ChainSteps(rows, p, c);
    Pigeonhole(rows, c);
    var i, j :| 0 <= i < j < |c| && c[i] == c[j];
    RepeatedRowChains(rows, p, c, i, j, n);
  }

  /** A chain that meets the same row twice has chains of every length beside it. */
  lemma RepeatedRowChains(rows: seq<Category>, p: Option<int>, c: seq<Category>, i: nat, j: nat, n: nat)
    requires Chain(rows, p, c) && i < j < |c| && c[i] == c[j]
    ensures exists c' :: |c'| == n && Chain(rows, p, c')
  {
    var a, rest := c[..i + 1], c[i + 1..];
    assert a + rest == c;
    ChainAppend(rows, p, a, rest);
    assert End(p, a) == Some(c[i].id);
    CycleFrom(rows, c[i], rest, j - i);
    CycleChains(rows, p, a, c[i], rest[..j - i], n);
  }

  /**
   * The recursion depth is at most the number of rows: a call that has not
   * ended within one more level than there are rows never ends.
   */
  lemma TreeDepthBound(rows: seq<Category>, p: Option<int>, fuel: nat)
    requires Tree(rows, p, |rows| + 1).None?
    ensures Tree(rows, p, fuel).None?
  {
    TreeNoneIffChain(rows, p, |rows| + 1);
    var c: seq<Category> :| |c| == |rows| + 1 && Chain(rows, p, c);
    LongChains(rows, p, c, fuel);
    TreeNoneIffChain(rows, p, fuel);
  }

  /** A chain from a row's id that comes back to the row within its first `k` steps holds a cycle. */
  lemma CycleFrom(rows: seq<Category>, x: Category, rest: seq<Category>, k: nat)
    requires Chain(rows, Some(x.id), rest) && 0 < k <= |rest| && rest[k - 1] == x
    ensures var cyc := rest[..k]; |cyc| > 0 && cyc[|cyc| - 1] == x && Chain(rows, Some(x.id), cyc)
  {
    ChainPrefix(rows, Some(x.id), rest, k);
  }

  /** Whenever the recursion ends at all, a budget of one more than the number of rows gives its result. */
  lemma TreeSettles(rows: seq<Category>, p: Option<int>, fuel: nat)
    requires Tree(rows, p, fuel).Some?
    ensures Tree(rows, p, |rows| + 1) == Tree(rows, p, fuel)
  {
    if fuel <= |rows| + 1 {
      TreeMono(rows, p, fuel, |rows| + 1);
    } else {
      if Tree(rows, p, |rows| + 1).None? {
        TreeDepthBound(rows, p, fuel);
      }
      TreeMono(rows, p, |rows| + 1, fuel);
    }
  }

  // ---------------------------------------------------------------------------
  // Which rows the tree holds

  /** The rows of a forest, each followed by its descendants. */
  function Flatten(t: seq<Node>): seq<Category>
    decreases t
  {
    if t == [] then [] else [t[0].row] + Flatten(t[0].children) + Flatten(t[1..])
  }

  lemma {:induction false} FlattenAppend(a: seq<Node>, b: seq<Node>)
    ensures Flatten(a + b) == Flatten(a) + Flatten(b)
    decreases |a|
  {
    if a == [] {
      assert a + b == b;
    } else {
      FlattenAppend(a[1..], b);
      assert (a + b)[0] == a[0] && (a + b)[1..] == a[1..] + b;
    }
  }

  /** A row at the end of a chain from the parent. */
  ghost predicate Reached(rows: seq<Category>, p: Option<int>, x: Category) {
    exists c :: Chain(rows, p, c) && |c| > 0 && c[|c| - 1] == x
  }

  /**
   * When the recursion ends, the tree holds a row exactly when a chain leads
   * to it from the parent; for the top call (`p` null) that is, when the
   * row's parent chain reaches a row whose parent is null.
   */
  lemma TreeMembers(rows: seq<Category>, p: Option<int>, fuel: nat)
    requires Tree(rows, p, fuel).Some?
    ensures forall x :: x in Flatten(Tree(rows, p, fuel).value) <==> Reached(rows, p, x)
  {
    var t := Tree(rows, p, fuel).value;
    forall x | x in Flatten(t) ensures Reached(rows, p, x) {
      TreeMemberChain(rows, p, fuel, x);
    }
    forall x | Reached(rows, p, x) ensures x in Flatten(t) {
      var c: seq<Category> :| Chain(rows, p, c) && |c| > 0 && c[|c| - 1] == x;
      ChainMember(rows, p, fuel, c);
    }
  }

  lemma {:induction false} TreeMemberChain(rows: seq<Category>, p: Option<int>, fuel: nat, x: Category)
    requires Tree(rows, p, fuel).Some? && x in Flatten(Tree(rows, p, fuel).value)
    ensures Reached(rows, p, x)
    decreases fuel, 1, 0
  {
    LevelMemberChain(rows, p, fuel - 1, |rows|, x);
  }

  lemma {:induction false} LevelMemberChain(rows: seq<Category>, p: Option<int>, fuel: nat, n: nat, x: Category)
    requires n <= |rows|
    requires Level(rows, p, fuel, n).Some? && x in Flatten(Level(rows, p, fuel, n).value)
    ensures Reached(rows, p, x)
    decreases fuel + 1, 0, n
  {
    var acc := Level(rows, p, fuel, n - 1).value;
    if !Matches(rows[n - 1], p) {
      LevelMemberChain(rows, p, fuel, n - 1, x);
    } else {
      var r := rows[n - 1];
      var kids := Tree(rows, Some(r.id), fuel).value;
      LevelFlatten(rows, p, fuel, n);
      if x in Flatten(acc) {
        LevelMemberChain(rows, p, fuel, n - 1, x);
      } else if x == r {
        assert Chain(rows, p, [r]);
      } else {
        TreeMemberChain(rows, Some(r.id), fuel, x);
        ReachedThrough(rows, p, r, x);
      }
    }
  }

  /** The rows of the foreach's forest after a matching row: those before, the row, its descendants. */
  lemma LevelFlatten(rows: seq<Category>, p: Option<int>, fuel: nat, n: nat)
    requires 0 < n <= |rows| && Matches(rows[n - 1], p)
    requires Level(rows, p, fuel, n).Some?
    ensures Level(rows, p, fuel, n - 1).Some? && Tree(rows, Some(rows[n - 1].id), fuel).Some?
    ensures Flatten(Level(rows, p, fuel, n).value) ==
      Flatten(Level(rows, p, fuel, n - 1).value) + [rows[n - 1]] + Flatten(Tree(rows, Some(rows[n - 1].id), fuel).value)
  {
    var acc := Level(rows, p, fuel, n - 1).value;
    var kids := Tree(rows, Some(rows[n - 1].id), fuel).value;
    FlattenAppend(acc, [Node(rows[n - 1], kids)]);
    assert Flatten([Node(rows[n - 1], kids)]) == [rows[n - 1]] + Flatten(kids);
  }

  /** A row reached from a matching row is reached from the parent. */
  lemma ReachedThrough(rows: seq<Category>, p: Option<int>, r: Category, x: Category)
    requires r in rows && Matches(r, p) && Reached(rows, Some(r.id), x)
    ensures Reached(rows, p, x)
  {
    var c': seq<Category> :| Chain(rows, Some(r.id), c') && |c'| > 0 && c'[|c'| - 1] == x;
    var c := [r] + c';
    assert c[0] == r && c[1..] == c';
    assert Chain(rows, p, c) && c[|c| - 1] == x;
  }

  lemma {:induction false} ChainMember(rows: seq<Category>, p: Option<int>, fuel: nat, c: seq<Category>)
    requires Tree(rows, p, fuel).Some? && Chain(rows, p, c) && |c| > 0
    ensures c[|c| - 1] in Flatten(Tree(rows, p, fuel).value)
    decreases |c|
  {
    var k :| 0 <= k < |rows| && rows[k] == c[0];
    LevelHas(rows, p, fuel - 1, |rows|, k);
    if |c| > 1 {
      ChainMember(rows, Some(c[0].id), fuel - 1, c[1..]);
    }
  }

  /** The foreach keeps each matching row and everything below it. */
  lemma {:induction false} LevelHas(rows: seq<Category>, p: Option<int>, fuel: nat, n: nat, k: nat)
    requires k < n <= |rows| && Matches(rows[k], p)
    requires Level(rows, p, fuel, n).Some?
    ensures Tree(rows, Some(rows[k].id), fuel).Some?
    ensures rows[k] in Flatten(Level(rows, p, fuel, n).value)
    ensures forall y :: y in Flatten(Tree(rows, Some(rows[k].id), fuel).value) ==> y in Flatten(Level(rows, p, fuel, n).value)
    decreases n
  {
    var acc := Level(rows, p, fuel, n - 1).value;
    if Matches(rows[n - 1], p) {
      var kids := Tree(rows, Some(rows[n - 1].id), fuel).value;
      FlattenAppend(acc, [Node(rows[n - 1], kids)]);
      assert Flatten([Node(rows[n - 1], kids)]) == [rows[n - 1]] + Flatten(kids);
    }
    if k < n - 1 {
      LevelHas(rows, p, fuel, n - 1, k);
    }
  }

  /**
   * Orphans are left out: a row whose parent is not null (loosely) and is
   * the id of no row is in no tree built from the top.
   */
  lemma OrphanOmitted(rows: seq<Category>, fuel: nat, x: Category)
    requires Tree(rows, None, fuel).Some?
    requires !Matches(x, None) && forall y :: y in rows ==> !Matches(x, Some(y.id))
    ensures x !in Flatten(Tree(rows, None, fuel).value)
  {
    TreeMembers(rows, None, fuel);
    forall c | Chain(rows, None, c) && |c| > 0 ensures c[|c| - 1] != x {
      ChainSteps(rows, None, c);
      if |c| > 1 {
        assert c[|c| - 2] in rows;
      }
    }
  }

  /**
   * Rows on a cycle are left out: when the recursion ends, a row from whose
   * id a chain leads back to the row itself is not in the tree.
   */
  lemma CycleOmitted(rows: seq<Category>, p: Option<int>, fuel: nat, x: Category, cyc: seq<Category>)
    requires Tree(rows, p, fuel).Some?
    requires |cyc| > 0 && cyc[|cyc| - 1] == x && Chain(rows, Some(x.id), cyc)
    ensures x !in Flatten(Tree(rows, p, fuel).value)
  {
    TreeMembers(rows, p, fuel);
    if x in Flatten(Tree(rows, p, fuel).value) {
      var a: seq<Category> :| Chain(rows, p, a) && |a| > 0 && a[|a| - 1] == x;
      CycleNeverEnds(rows, p, a, x, cyc, fuel);
    }
  }

  // ---------------------------------------------------------------------------
  // Examples

  /** A row with only an id and a parent. */
  function Sample(id: int, parent: Value): Category {
    Category(id, VNull, VNull, VNull, parent, VNull, VNull, VNull, 0, 0)
  }

  /** A call for a parent no row names gives no children. */
  lemma NoChildren(rows: seq<Category>, p: Option<int>, fuel: nat, n: nat)
    requires n <= |rows| && forall k :: 0 <= k < n ==> !Matches(rows[k], p)
    ensures Level(rows, p, fuel, n) == Some([])
  {
  }

  /** The example tree: 1 at the top with children 2 (holding 4) and 3. */
  lemma ExampleTree()
    ensures var r1, r2, r3, r4 := Sample(1, VNull), Sample(2, VInt(1)), Sample(3, VInt(1)), Sample(4, VInt(2));
      Tree([r1, r2, r3, r4], None, 4) == Some([Node(r1, [Node(r2, [Node(r4, [])]), Node(r3, [])])])
  {
    var r1, r2, r3, r4 := Sample(1, VNull), Sample(2, VInt(1)), Sample(3, VInt(1)), Sample(4, VInt(2));
    var rows := [r1, r2, r3, r4];
    NoChildren(rows, Some(4), 0, 4);
    NoChildren(rows, Some(3), 1, 4);
    assert Tree(rows, Some(4), 1) == Some([]);
    assert Tree(rows, Some(3), 2) == Some([]);
    NoChildren(rows, Some(2), 1, 3);
    assert [] + [Node(r4, [])] == [Node(r4, [])];
    assert Level(rows, Some(2), 1, 4) == Some([Node(r4, [])]);
    assert Tree(rows, Some(2), 2) == Some([Node(r4, [])]);
    assert Level(rows, Some(1), 2, 1) == Some([]);
    assert [] + [Node(r2, [Node(r4, [])])] == [Node(r2, [Node(r4, [])])];
    assert Level(rows, Some(1), 2, 2) == Some([Node(r2, [Node(r4, [])])]);
    assert [Node(r2, [Node(r4, [])])] + [Node(r3, [])] == [Node(r2, [Node(r4, [])]), Node(r3, [])];
    assert Level(rows, Some(1), 2, 3) == Some([Node(r2, [Node(r4, [])]), Node(r3, [])]);
    assert Level(rows, Some(1), 2, 4) == Some([Node(r2, [Node(r4, [])]), Node(r3, [])]);
    assert Tree(rows, Some(1), 3) == Some([Node(r2, [Node(r4, [])]), Node(r3, [])]);
    assert Level(rows, None, 3, 0) == Some([]);
    assert [] + [Node(r1, [Node(r2, [Node(r4, [])]), Node(r3, [])])] == [Node(r1, [Node(r2, [Node(r4, [])]), Node(r3, [])])];
    assert Level(rows, None, 3, 1) == Some([Node(r1, [Node(r2, [Node(r4, [])]), Node(r3, [])])]);
    NoChildrenAfter(rows, None, 3, 1, 4);
  }
  /** Rows after a prefix that none of them match leave the foreach as it was. */
  lemma NoChildrenAfter(rows: seq<Category>, p: Option<int>, fuel: nat, n: nat, m: nat)
    requires n <= m <= |rows| && forall k :: n <= k < m ==> !Matches(rows[k], p)
    requires Level(rows, p, fuel, n).Some?
    ensures Level(rows, p, fuel, m) == Level(rows, p, fuel, n)
    decreases m - n
  {
    if n < m { NoChildrenAfter(rows, p, fuel, n, m - 1); }
  }

  /**
   * Loose comparison at work: a row with parent 0 is a top-level row, and a
   * row with id 0 and parent null selects itself as its own child, so the
   * recursion never ends.
   */
  lemma ZeroIdNeverEnds(fuel: nat)
    ensures Matches(Sample(5, VInt(0)), None)
    ensures Tree([Sample(0, VNull)], None, fuel).None?
  {
    var r := Sample(0, VNull);
    assert Chain([r], Some(0), [r]) by {
      assert Chain([r], Some(0), []);
    }
    assert Chain([r], None, [r]);
    CycleNeverEnds([r], None, [r], r, [r], fuel);
  }
}

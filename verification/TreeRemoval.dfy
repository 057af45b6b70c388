/** Iterative traversal and removal of a directory tree over an abstract finite file system.  A path is its sequence of names;
    directory listings come in any order. */
module TreeRemoval {

  type Path = seq<nat>

  /** Every parent of an existing path exists, down to the empty path. */
  ghost predicate Rooted(s: set<Path>) {
    forall p | p in s && |p| > 0 :: p[..|p| - 1] in s
  }

  /** p and everything below it. */
  ghost function Under(s: set<Path>, p: Path): set<Path> { set q | q in s && p <= q }

  predicate IsChild(p: Path, c: Path) { |c| == |p| + 1 && p <= c }

  ghost predicate Distinct(v: seq<Path>) { forall i, j | 0 <= i < j < |v| :: v[i] != v[j] }

  /** No entry comes after one of its descendants. */
  ghost predicate ParentsFirst(v: seq<Path>) { forall i, j | 0 <= i < j < |v| :: !(v[j] <= v[i]) }

  ghost predicate Incomparable(v: seq<Path>) { forall i, j | 0 <= i < j < |v| :: !(v[i] <= v[j]) && !(v[j] <= v[i]) }

  /** An existing path below another goes through one of its children. */
  lemma {:induction false} ChildOnTheWay(s: set<Path>, p: Path, q: Path) returns (c: Path)
    requires Rooted(s) && q in s && p <= q && p != q
    ensures c in s && IsChild(p, c) && c <= q
    decreases |q|
  {
    if |q| == |p| + 1 {
      c := q;
    } else {
      c := ChildOnTheWay(s, p, q[..|q| - 1]);
    }
  }

  class FileSystem {
    var paths: set<Path>

    ghost predicate Valid()
      reads this
    {
      Rooted(paths)
    }

    /** The entries of a directory; none if it cannot be opened. */
    method GetEntries(p: Path) returns (es: seq<Path>)
      ensures Distinct(es) && forall c :: c in es <==> c in paths && IsChild(p, c)
    {
      es := [];
      var left := set c | c in paths && IsChild(p, c);
      while left != {}
        invariant Distinct(es) && forall c :: c in paths && IsChild(p, c) <==> c in es || c in left
        invariant forall c | c in es :: c !in left
        decreases |left|
      {
        var c :| c in left;
        es := es + [c];
        left := left - {c};
      }
    }

    /** remove(2): only an existing path without children can be removed. */
    method RemoveOne(p: Path) returns (r: int)
      requires Valid()
      modifies this
      ensures Valid()
      ensures r == 0 <==> p in old(paths) && Under(old(paths), p) == {p}
      ensures paths == if r == 0 then old(paths) - {p} else old(paths)
    {
      assert Under(paths, p) == {p} <==> p in paths && forall q | q in paths && p <= q :: q == p by { OnlyItself(paths, p); }
      if p in paths && forall q | q in paths :: p <= q ==> q == p {
        paths := paths - {p};
        r := 0;
      } else {
        r := -1;
      }
    }

    /** The iterative traversal: every path of the subtree once, no path before one it is below. */
    method PreOrderEntries(root: Path) returns (visitor: seq<Path>)
      requires Valid()
      ensures Traversal(paths, root, visitor)
    {
      hide Covers, Rooted;
      var stack := [root];
      visitor := [];
      ghost var whole, seen := Under(paths, root) + {root}, {};
      AtFirst(paths, root);
      while |stack| > 0
        invariant Covers(paths, root, stack, visitor)
        invariant seen <= whole && forall p :: p in seen <==> p in visitor
        decreases whole - seen
      {
        ghost var before := stack;
        var top := stack[|stack| - 1];
        stack := stack[..|stack| - 1];
        assert stack + [top] == before;
        TopIsNew(paths, root, stack, top, visitor);
        ghost var earlier := visitor;
        visitor := visitor + [top];
        var es := GetEntries(top);
        Visited(paths, root, stack, top, earlier, es);
        stack := stack + es;
        seen := seen + {top};
      }
      AtLast(paths, root, visitor);
    }

    /** Removes a subtree from the back of its traversal: every entry is met with nothing below it any more, so exactly the
        subtree goes and nothing fails.  A path that does not exist is the one failure. */
    method Remove(root: Path) returns (ok: bool)
      requires Valid()
      modifies this
      ensures Valid() && (ok <==> root in old(paths))
      ensures paths == old(paths) - Under(old(paths), root)
    {
      hide Under, Traversal, Rooted, Remaining;
      var success, failed := 0, 0;
      ghost var s0 := paths;
      var entries := PreOrderEntries(root);
      ghost var all := entries;
      Bounds(s0, root, all);
      while |entries| > 0
        invariant Valid() && |entries| <= |all| && entries == all[..|entries|]
        invariant root in s0 ==> failed == 0 && paths == Remaining(s0, all, |entries|)
        invariant root !in s0 ==> paths == s0 && failed == 1 - |entries|
      {
        var s := entries[|entries| - 1];
        entries := entries[..|entries| - 1];
        if root in s0 {
          NothingBelow(s0, root, all, |entries|);
        }
        var r := RemoveOne(s);
        if r == 0 {
          success := success + 1;
        } else {
          failed := failed + 1;
        }
      }
      ok := failed == 0;
    }
  }

  // ------------------------------------------------------------------ the traversal

  /** Where the traversal stands: the stack holds incomparable paths below the root, none of them above anything visited, and
      every path below the root is visited or below the stack. */
  ghost predicate Covers(s: set<Path>, root: Path, stack: seq<Path>, visitor: seq<Path>) {
    && Incomparable(stack) && ParentsFirst(visitor)
    && (forall p | p in stack || p in visitor :: root <= p && (p == root || p in s))
    && Fresh(stack, visitor)
    && (forall q | (q in s && root <= q) || q == root :: q in visitor || exists p :: p in stack && p <= q)
  }

  ghost predicate Fresh(stack: seq<Path>, visitor: seq<Path>) {
    forall p, v | p in stack && v in visitor :: !(p <= v)
  }

  lemma OnlyItself(s: set<Path>, p: Path)
    ensures Under(s, p) == {p} <==> p in s && forall q | q in s && p <= q :: q == p
  {
    if Under(s, p) == {p} {
      assert p in Under(s, p);
      forall q | q in s && p <= q ensures q == p {
        assert q in Under(s, p);
      }
    }
  }

  lemma {:induction false} PrefixExists(s: set<Path>, p: Path, q: Path)
    requires Rooted(s) && q in s && p <= q
    ensures p in s
    decreases |q|
  {
    if p != q {
      PrefixExists(s, p, q[..|q| - 1]);
    }
  }

  /** A complete traversal. */
  ghost predicate Traversal(s: set<Path>, root: Path, v: seq<Path>) {
    ParentsFirst(v) && forall p :: p in v <==> p == root || p in Under(s, root)
  }

  lemma Prefixes(p: Path, top: Path, c: Path)
    requires IsChild(top, c)
    ensures p <= c ==> p <= top || p == c
    ensures c <= p ==> top <= p
  {
  }

  lemma AtFirst(s: set<Path>, root: Path)
    ensures Covers(s, root, [root], [])
  {
    assert root in [root];
  }

  lemma AtLast(s: set<Path>, root: Path, visitor: seq<Path>)
    requires Covers(s, root, [], visitor)
    ensures Traversal(s, root, visitor)
  {
  }

  lemma TopIsNew(s: set<Path>, root: Path, stack: seq<Path>, top: Path, visitor: seq<Path>)
    requires Covers(s, root, stack + [top], visitor)
    ensures top !in visitor && (top == root || top in Under(s, root)) && forall v | v in visitor :: !(top <= v)
  {
    var before := stack + [top];
    assert top in before;
  }

  /** Visiting the top of the stack and pushing its entries, in any order, keeps the traversal covering. */
  lemma {:induction false} Visited(s: set<Path>, root: Path, stack: seq<Path>, top: Path, visitor: seq<Path>, es: seq<Path>)
    requires Rooted(s) && Covers(s, root, stack + [top], visitor)
    requires Distinct(es) && forall c :: c in es <==> c in s && IsChild(top, c)
    ensures Covers(s, root, stack + es, visitor + [top])
  {
    StillIncomparable(stack, top, es);
    StillFresh(stack, top, visitor, es);
    TopIsNew(s, root, stack, top, visitor);
    StillCovered(s, root, stack, top, visitor, es);
    StillOrdered(visitor, top);
    StillBelow(s, root, stack, top, visitor, es);
  }

  lemma StillBelow(s: set<Path>, root: Path, stack: seq<Path>, top: Path, visitor: seq<Path>, es: seq<Path>)
    requires root <= top && (top == root || top in s) && forall c | c in es :: c in s && IsChild(top, c)
    requires forall p | p in stack + [top] || p in visitor :: root <= p && (p == root || p in s)
    ensures forall p | p in stack + es || p in visitor + [top] :: root <= p && (p == root || p in s)
  {
    var before := stack + [top];
    forall p | p in stack + es || p in visitor + [top] ensures root <= p && (p == root || p in s) {
      if p in es {
        Prefixes(root, top, p);
      } else if p in stack {
        assert p in before;
      }
    }
  }

  lemma StillOrdered(visitor: seq<Path>, top: Path)
    requires ParentsFirst(visitor) && forall v | v in visitor :: !(top <= v)
    ensures ParentsFirst(visitor + [top])
  {
    var after := visitor + [top];
    forall i, j | 0 <= i < j < |after| ensures !(after[j] <= after[i]) {
      if j == |visitor| {
        assert after[i] in visitor;
      }
    }
  }

  lemma {:induction false} StillCovered(s: set<Path>, root: Path, stack: seq<Path>, top: Path, visitor: seq<Path>, es: seq<Path>)
    requires Rooted(s) && Covers(s, root, stack + [top], visitor)
    requires forall c :: c in es <==> c in s && IsChild(top, c)
    ensures forall q | (q in s && root <= q) || q == root :: q in visitor + [top] || exists p :: p in stack + es && p <= q
    ensures root <= top
  {
    hide Incomparable, Fresh, ParentsFirst;
    var before := stack + [top];
    assert top in before;
    forall q | (q in s && root <= q) || q == root ensures q in visitor + [top] || exists p :: p in stack + es && p <= q {
      if q !in visitor && q != top {
        var p :| p in before && p <= q;
        if p == top {
          assert q in s;
          var c := ChildOnTheWay(s, top, q);
          assert c in stack + es && c <= q;
        } else {
          assert p in stack + es;
        }
      }
    }
  }

  lemma StillIncomparable(stack: seq<Path>, top: Path, es: seq<Path>)
    requires Incomparable(stack + [top]) && Distinct(es) && forall c | c in es :: IsChild(top, c)
    ensures Incomparable(stack + es)
  {
    var before, after := stack + [top], stack + es;
    forall i, j | 0 <= i < j < |after| ensures !(after[i] <= after[j]) && !(after[j] <= after[i]) {
      if j < |stack| {
        assert before[i] == after[i] && before[j] == after[j];
      } else if i < |stack| {
        assert before[i] == after[i] && before[|stack|] == top;
        assert after[j] in es;
        Prefixes(after[i], top, after[j]);
      } else {
        assert after[i] in es && after[j] in es;
        assert after[i] != after[j];
      }
    }
  }

  lemma StillFresh(stack: seq<Path>, top: Path, visitor: seq<Path>, es: seq<Path>)
    requires Fresh(stack + [top], visitor) && Incomparable(stack + [top]) && forall c | c in es :: IsChild(top, c)
    ensures Fresh(stack + es, visitor + [top])
  {
    var before := stack + [top];
    assert before[|stack|] == top;
    forall p, v | p in stack + es && v in visitor + [top] ensures !(p <= v) {
      if p in stack {
        var i :| 0 <= i < |stack| && stack[i] == p;
        assert before[i] == p;
        assert p in before;
      } else {
        assert top in before;
        Prefixes(v, top, p);
      }
    }
  }

  // ------------------------------------------------------------------ removal

  lemma InFront(all: seq<Path>, k: nat, q: Path)
    requires k < |all| && q in all && q !in all[k + 1..]
    ensures exists j :: 0 <= j <= k && all[j] == q
  {
    assert all == all[..k + 1] + all[k + 1..];
    assert q in all[..k + 1];
  }

  /** What is left when the entries from the k-th on are gone. */
  ghost function Remaining(s0: set<Path>, all: seq<Path>, k: nat): set<Path>
    requires k <= |all|
  {
    set p | p in s0 && p !in all[k..]
  }

  /** When all entries after the k-th are gone, the k-th is still there and has nothing below it. */
  lemma NothingBelow(s0: set<Path>, root: Path, all: seq<Path>, k: nat)
    requires root in s0 && k < |all| && Traversal(s0, root, all)
    ensures var now := Remaining(s0, all, k + 1);
            all[k] in now && Under(now, all[k]) == {all[k]} && Remaining(s0, all, k) == now - {all[k]}
  {
    var s, now := all[k], Remaining(s0, all, k + 1);
    assert s in all;
    forall q | q in now && s <= q ensures q == s {
      assert q in all;
      InFront(all, k, q);
    }
    forall j | k < j < |all| ensures all[j] != s {
    }
    assert s !in all[k + 1..];
    OnlyItself(now, s);
    assert all[k..] == [s] + all[k + 1..];
  }

  /** What the removal starts and ends with. */
  lemma Bounds(s0: set<Path>, root: Path, all: seq<Path>)
    requires Rooted(s0) && Traversal(s0, root, all)
    ensures Remaining(s0, all, |all|) == s0
    ensures root in s0 ==> Remaining(s0, all, 0) == s0 - Under(s0, root)
    ensures root !in s0 ==> Under(s0, root) == {} && all == [root]
  {
    if root !in s0 {
      OnlyTheRoot(s0, root, all);
    }
    NothingLeft(s0, root, all);
    assert all[0..] == all;
  }

  lemma Different(all: seq<Path>)
    requires ParentsFirst(all) && |all| > 1
    ensures all[0] != all[1]
  {
    assert !(all[1] <= all[0]);
  }

  lemma OnlyTheRoot(s0: set<Path>, root: Path, all: seq<Path>)
    requires Rooted(s0) && root !in s0 && Traversal(s0, root, all)
    ensures all == [root]
  {
    forall q | q in s0 && root <= q ensures false {
      PrefixExists(s0, root, q);
    }
    forall i | 0 <= i < |all| ensures all[i] == root {
      assert all[i] in all;
    }
    assert root in all;
    if |all| > 1 {
      Different(all);
    }
  }

  lemma NothingLeft(s0: set<Path>, root: Path, all: seq<Path>)
    requires Rooted(s0) && Traversal(s0, root, all)
    ensures root in s0 ==> (set p | p in s0 && p !in all) == s0 - Under(s0, root)
    ensures root !in s0 ==> Under(s0, root) == {}
  {
    if root !in s0 {
      forall q | q in s0 && root <= q ensures false {
        PrefixExists(s0, root, q);
      }
    }
  }
}

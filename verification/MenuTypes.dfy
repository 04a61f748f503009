/** Plist objects, menu trees and the stable sort by title that the menu printer applies. */
module MenuTypes {
  import opened Options

  /** A property-list object; dictionaries occur in files but never in menus. */
  datatype Obj = Str(s: string) | Arr(items: seq<Obj>) | Dict

  /** A menu as the tool builds it: an entry is its list of words, title first. */
  datatype Tree = Entry(args: seq<string>) | Menu(title: string, items: seq<Tree>) {
    function Title(): string {
      match this
      case Entry(args) => if args == [] then "" else args[0]
      case Menu(title, _) => title
    }
  }

  // ---------- Order of titles ----------

  /** Strictly before, character by character. */
  predicate Before(a: string, b: string) {
    b != [] && (a == [] || a[0] < b[0] || (a[0] == b[0] && Before(a[1..], b[1..])))
  }

  /** One string comes before another exactly when they agree up to some place where it ends or
      has the smaller character. */
  lemma {:induction false} BeforeIff(a: string, b: string)
    ensures Before(a, b) <==> exists k: nat :: Parts(a, b, k)
  {
    if a != [] && b != [] && a[0] == b[0] {
      BeforeIff(a[1..], b[1..]);
      if k: nat :| Parts(a[1..], b[1..], k) {
        PartsTail(a, b, k + 1);
      }
      if k: nat :| Parts(a, b, k) {
        assert k > 0;
        PartsTail(a, b, k);
      }
    } else if Before(a, b) {
      assert Parts(a, b, 0);
    } else if k: nat :| Parts(a, b, k) {
      PartsHead(a, b, k);
    }
  }

  lemma PartsHead(a: string, b: string, k: nat)
    requires Parts(a, b, k)
    ensures k > 0 ==> a[0] == b[0]
  {
    if k > 0 {
      assert a[..k][0] == a[0] && b[..k][0] == b[0];
    }
  }

  predicate Parts(a: string, b: string, k: nat) {
    k <= |a| && k < |b| && a[..k] == b[..k] && (k == |a| || a[k] < b[k])
  }

  lemma PartsTail(a: string, b: string, k: nat)
    requires a != [] && b != [] && a[0] == b[0] && k > 0
    ensures Parts(a, b, k) <==> Parts(a[1..], b[1..], k - 1)
  {
    if k <= |a| && k <= |b| {
      assert a[1..][..k - 1] == a[1..k] && b[1..][..k - 1] == b[1..k];
      assert a[..k] == [a[0]] + a[1..k] && b[..k] == [b[0]] + b[1..k];
      assert a[1..k] == a[..k][1..] && b[1..k] == b[..k][1..];
    }
  }

  lemma {:induction false} BeforeTotal(a: string, b: string)
    ensures Before(a, b) || Before(b, a) || a == b
    ensures !(Before(a, b) && Before(b, a))
    ensures !Before(a, a)
  {
    if a != [] && b != [] {
      BeforeTotal(a[1..], b[1..]);
      assert a == [a[0]] + a[1..] && b == [b[0]] + b[1..];
    }
    BeforeIrreflexive(a);
  }

  lemma {:induction false} BeforeIrreflexive(a: string)
    ensures !Before(a, a)
  {
    if a != [] {
      BeforeIrreflexive(a[1..]);
    }
  }

  lemma {:induction false} BeforeTransitive(a: string, b: string, c: string)
    requires Before(a, b) && Before(b, c)
    ensures Before(a, c)
  {
    if a != [] && a[0] == b[0] == c[0] {
      BeforeTransitive(a[1..], b[1..], c[1..]);
    }
  }

  // ---------- Stable sort ----------

  /** Position `i` must precede position `j` in a stable sort of `titles`. */
  predicate Precedes(titles: seq<string>, i: nat, j: nat)
    requires i < |titles| && j < |titles|
  {
    Before(titles[i], titles[j]) || (titles[i] == titles[j] && i < j)
  }

  /** `perm` lists each of the first `n` positions exactly once, in stable title order. */
  ghost predicate StableOrder(titles: seq<string>, perm: seq<nat>, n: nat) {
    && |perm| == n <= |titles|
    && (forall i :: 0 <= i < n ==> perm[i] < n)
    && (forall i, j :: 0 <= i < j < n ==> Precedes(titles, perm[i], perm[j]))
    && (forall k :: 0 <= k < n ==> k in perm)
  }

  lemma PrecedesTransitive(titles: seq<string>, i: nat, j: nat, k: nat)
    requires i < |titles| && j < |titles| && k < |titles|
    requires Precedes(titles, i, j) && Precedes(titles, j, k)
    ensures Precedes(titles, i, k)
  {
    if Before(titles[i], titles[j]) && Before(titles[j], titles[k]) {
      BeforeTransitive(titles[i], titles[j], titles[k]);
    }
  }

  /** Where position `n` goes among the already ordered positions. */
  function Slot(titles: seq<string>, perm: seq<nat>, n: nat): (s: nat)
    requires n < |titles| && forall i :: 0 <= i < |perm| ==> perm[i] < |titles|
    ensures s <= |perm|
    ensures forall i :: s <= i < |perm| ==> Before(titles[n], titles[perm[i]])
    ensures s > 0 ==> !Before(titles[n], titles[perm[s - 1]])
  {
    if perm == [] || !Before(titles[n], titles[perm[|perm| - 1]]) then |perm|
    else Slot(titles, perm[..|perm| - 1], n)
  }

  /** Insertion sort of the first `n` positions. */
  function Order(titles: seq<string>, n: nat): (perm: seq<nat>)
    requires n <= |titles|
    ensures |perm| == n
    ensures forall i :: 0 <= i < n ==> perm[i] < n
  {
    if n == 0 then []
    else
      var rest := Order(titles, n - 1);
      var s := Slot(titles, rest, n - 1);
      Insert(rest, s, n - 1)
  }

  /** The sort is a permutation, ordered by title, and keeps equal titles in list order. */
  lemma {:induction false} OrderIsStable(titles: seq<string>, n: nat)
    requires n <= |titles|
    ensures StableOrder(titles, Order(titles, n), n)
  {
    if n > 0 {
      OrderIsStable(titles, n - 1);
      InsertStable(titles, Order(titles, n - 1), n - 1);
    }
  }

  function Insert(rest: seq<nat>, s: nat, n: nat): (perm: seq<nat>)
    requires s <= |rest|
  {
    rest[..s] + [n] + rest[s..]
  }

  lemma InsertStable(titles: seq<string>, rest: seq<nat>, n: nat)
    requires n < |titles| && StableOrder(titles, rest, n)
    ensures StableOrder(titles, Insert(rest, Slot(titles, rest, n), n), n + 1)
  {
    var s := Slot(titles, rest, n);
    InsertRange(rest, s, n);
    InsertCovers(rest, s, n);
    forall i, j | 0 <= i < j < n + 1
      ensures Precedes(titles, Insert(rest, s, n)[i], Insert(rest, s, n)[j])
    {
      InsertOrdered(titles, rest, n, i, j);
    }
  }

  lemma InsertRange(rest: seq<nat>, s: nat, n: nat)
    requires |rest| == n && s <= n && forall i :: 0 <= i < n ==> rest[i] < n
    ensures |Insert(rest, s, n)| == n + 1 && forall i :: 0 <= i < n + 1 ==> Insert(rest, s, n)[i] < n + 1
  {
  }

  lemma InsertCovers(rest: seq<nat>, s: nat, n: nat)
    requires |rest| == n && s <= n && forall k :: 0 <= k < n ==> k in rest
    ensures forall k :: 0 <= k < n + 1 ==> k in Insert(rest, s, n)
  {
    var perm := Insert(rest, s, n);
    forall k | 0 <= k < n + 1
      ensures k in perm
    {
      if k < n {
        assert k in rest;
        var i :| 0 <= i < n && rest[i] == k;
        assert perm[if i < s then i else i + 1] == k;
      } else {
        assert perm[s] == k;
      }
    }
  }

  lemma InsertOrdered(titles: seq<string>, rest: seq<nat>, n: nat, i: nat, j: nat)
    requires n < |titles| && StableOrder(titles, rest, n) && i < j < n + 1
    ensures var perm := Insert(rest, Slot(titles, rest, n), n);
            perm[i] < |titles| && perm[j] < |titles| && Precedes(titles, perm[i], perm[j])
  {
    var s := Slot(titles, rest, n);
    if j == s {
      BeforeTotal(titles[n], titles[rest[s - 1]]);
      if i < s - 1 {
        PrecedesTransitive(titles, rest[i], rest[s - 1], n);
      }
    }
  }

  /** No two stable orders differ, so `Order` is the stable sort. */
  lemma {:induction false} StableOrderUnique(titles: seq<string>, p: seq<nat>, q: seq<nat>, n: nat, k: nat)
    requires StableOrder(titles, p, n) && StableOrder(titles, q, n) && k <= n
    ensures p[..k] == q[..k]
    decreases k
  {
    if k > 0 {
      StableOrderUnique(titles, p, q, n, k - 1);
      assert p[k - 1] in q && q[k - 1] in p;
      var i :| 0 <= i < n && q[i] == p[k - 1];
      var j :| 0 <= j < n && p[j] == q[k - 1];
      BeforeTotal(titles[p[k - 1]], titles[q[k - 1]]);
      assert forall m :: 0 <= m < k - 1 ==> p[m] == p[..k - 1][m] == q[m];
      BeforeIrreflexive(titles[p[k - 1]]);
      BeforeIrreflexive(titles[q[k - 1]]);
    }
  }

  function Titles(items: seq<Tree>): (titles: seq<string>)
    ensures |titles| == |items|
  {
    seq(|items|, i requires 0 <= i < |items| => items[i].Title())
  }

  function Permute<T>(items: seq<T>, perm: seq<nat>): (r: seq<T>)
    requires forall i :: 0 <= i < |perm| ==> perm[i] < |items|
    ensures |r| == |perm|
    ensures forall i :: 0 <= i < |perm| ==> r[i] == items[perm[i]]
  {
    seq(|perm|, i requires 0 <= i < |perm| => items[perm[i]])
  }

  lemma PermuteConcat<T>(items: seq<T>, p: seq<nat>, q: seq<nat>)
    requires forall i :: 0 <= i < |p| ==> p[i] < |items|
    requires forall i :: 0 <= i < |q| ==> q[i] < |items|
    ensures Permute(items, p + q) == Permute(items, p) + Permute(items, q)
  {
  }

  lemma PermuteInserted<T>(items: seq<T>, p: seq<nat>, n: nat, q: seq<nat>)
    requires n < |items|
    requires forall i :: 0 <= i < |p| ==> p[i] < |items|
    requires forall i :: 0 <= i < |q| ==> q[i] < |items|
    ensures Permute(items, p + [n] + q) == Permute(items, p) + [items[n]] + Permute(items, q)
  {
  }

  lemma MultisetInsert<T>(a: seq<T>, x: T, b: seq<T>, c: multiset<T>)
    requires multiset(a + b) == c
    ensures multiset(a + [x] + b) == c + multiset{x}
  {
  }

  /** Inserting one more position takes one more item. */
  lemma {:induction false} PermuteInsert<T>(items: seq<T>, p: seq<nat>, n: nat, q: seq<nat>)
    requires n < |items|
    requires forall i :: 0 <= i < |p| ==> p[i] < |items|
    requires forall i :: 0 <= i < |q| ==> q[i] < |items|
    requires multiset(Permute(items, p + q)) == multiset(items[..n])
    ensures multiset(Permute(items, p + [n] + q)) == multiset(items[..n + 1])
  {
    PermuteConcat(items, p, q);
    PermuteInserted(items, p, n, q);
    MultisetInsert(Permute(items, p), items[n], Permute(items, q), multiset(items[..n]));
    assert items[..n + 1] == items[..n] + [items[n]];
  }

  lemma InsertKeepsAll<T>(items: seq<T>, rest: seq<nat>, s: nat, n: nat)
    requires s <= |rest| && n < |items| && forall i :: 0 <= i < |rest| ==> rest[i] < |items|
    requires multiset(Permute(items, rest)) == multiset(items[..n])
    ensures forall i :: 0 <= i < |Insert(rest, s, n)| ==> Insert(rest, s, n)[i] < |items|
    ensures multiset(Permute(items, Insert(rest, s, n))) == multiset(items[..n + 1])
  {
    assert rest[..s] + rest[s..] == rest;
    PermuteInsert(items, rest[..s], n, rest[s..]);
  }

  /** Sorting takes each item exactly as often as it is there. */
  lemma {:induction false} OrderKeepsAll<T>(titles: seq<string>, items: seq<T>, n: nat)
    requires n <= |titles| == |items|
    ensures multiset(Permute(items, Order(titles, n))) == multiset(items[..n])
  {
    if n == 0 {
      assert Permute(items, []) == [];
    } else {
      OrderKeepsAll(titles, items, n - 1);
      var rest := Order(titles, n - 1);
      InsertKeepsAll(items, rest, Slot(titles, rest, n - 1), n - 1);
    }
  }

  /** A menu's items in the order they are printed. */
  function Sorted(items: seq<Tree>): (r: seq<Tree>)
    ensures |r| == |items|
    ensures forall t :: t in r ==> t in items
  {
    Permute(items, Order(Titles(items), |items|))
  }
}

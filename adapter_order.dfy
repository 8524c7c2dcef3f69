/// The order of the registered adapters: ascending priority, with adapters of
/// equal priority kept in registration order (LINQ's `OrderBy` is a stable
/// sort). The order is computed by a stable insertion sort.
module AdapterOrder {
  import opened Storage

  /** Priorities never decrease along `s`. */
  predicate SortedByPriority(s: seq<Adapter>)
  {
    forall i, j :: 0 <= i < j < |s| ==> s[i].priority <= s[j].priority
  }

  /** The adapters of `s` whose priority is `p`, in the order of `s`. */
  function WithPriority(s: seq<Adapter>, p: int): seq<Adapter>
  {
    if s == [] then []
    else (if s[0].priority == p then [s[0]] else []) + WithPriority(s[1..], p)
  }

  /** Puts `x` in front of the first adapter of `s` whose priority is not
      smaller than that of `x`. */
  function Insert(x: Adapter, s: seq<Adapter>): (r: seq<Adapter>)
    ensures multiset(r) == multiset(s) + multiset{x}
  {
    if s == [] || x.priority <= s[0].priority then [x] + s
    else
      assert s == [s[0]] + s[1..];
      [s[0]] + Insert(x, s[1..])
  }

  lemma {:induction false} InsertSorted(x: Adapter, s: seq<Adapter>)
    requires SortedByPriority(s)
    ensures SortedByPriority(Insert(x, s))
  {
    if s == [] || x.priority <= s[0].priority {
    } else {
      var rest := Insert(x, s[1..]);
      InsertSorted(x, s[1..]);
      forall y | y in rest
        ensures s[0].priority <= y.priority
      {
        assert y in multiset(rest);
        assert y == x || y in multiset(s[1..]);
      }
      assert Insert(x, s) == [s[0]] + rest;
    }
  }

  /** Inserting `x` keeps, for every priority, the same subsequence as
      putting `x` at the front: no adapter of equal priority is overtaken. */
  lemma {:induction false} InsertStable(x: Adapter, s: seq<Adapter>, p: int)
    ensures WithPriority(Insert(x, s), p) == WithPriority([x] + s, p)
  {
    if s == [] || x.priority <= s[0].priority {
    } else {
      var rest := Insert(x, s[1..]);
      InsertStable(x, s[1..], p);
      assert ([s[0]] + rest)[1..] == rest;
      assert ([x] + s)[1..] == s;
      assert ([x] + s[1..])[1..] == s[1..];
    }
  }

  /** The registered adapters in priority order (`GetAdapters`): sorted by
      priority, a permutation of the registration sequence, and stable, i.e.
      for every priority the adapters of that priority keep their
      registration order. */
  function GetAdapters(registered: seq<Adapter>): (r: seq<Adapter>)
    ensures SortedByPriority(r)
    ensures multiset(r) == multiset(registered)
    ensures forall p :: WithPriority(r, p) == WithPriority(registered, p)
  {
    if registered == [] then []
    else
      var x, rest := registered[0], GetAdapters(registered[1..]);
      InsertSorted(x, rest);
      assert registered == [x] + registered[1..];
      assert forall p :: WithPriority(Insert(x, rest), p) == WithPriority(registered, p) by {
        forall p ensures WithPriority(Insert(x, rest), p) == WithPriority(registered, p) {
          InsertStable(x, rest, p);
          assert ([x] + rest)[1..] == rest;
        }
      }
      Insert(x, rest)
  }

  lemma {:induction false} WithPriorityMembers(s: seq<Adapter>, p: int)
    ensures forall x :: x in WithPriority(s, p) <==> x in s && x.priority == p
  {
    if s != [] {
      WithPriorityMembers(s[1..], p);
      assert s == [s[0]] + s[1..];
    }
  }

  /** A sorted sequence begins with its smallest priority. */
  lemma SortedHeadMinimal(s: seq<Adapter>, x: Adapter)
    requires SortedByPriority(s) && x in s
    ensures s[0].priority <= x.priority
  {
    var k :| 0 <= k < |s| && s[k] == x;
  }

  lemma HeadsAgree(a: seq<Adapter>, b: seq<Adapter>)
    requires SortedByPriority(a) && SortedByPriority(b) && a != [] && b != []
    requires forall p :: WithPriority(a, p) == WithPriority(b, p)
    ensures a[0] == b[0]
  {
    var pa, pb := a[0].priority, b[0].priority;
    WithPriorityMembers(a, pb);
    WithPriorityMembers(b, pa);
    assert WithPriority(b, pa) == WithPriority(a, pa);
    assert WithPriority(a, pb) == WithPriority(b, pb);
    assert a[0] in WithPriority(a, pa);
    assert b[0] in WithPriority(b, pb);
    var ya :| ya in WithPriority(b, pa);
    var yb :| yb in WithPriority(a, pb);
    SortedHeadMinimal(b, ya);
    SortedHeadMinimal(a, yb);
    assert WithPriority(a, pa)[0] == a[0];
    assert WithPriority(b, pa)[0] == b[0];
  }

  lemma TailsAgree(a: seq<Adapter>, b: seq<Adapter>)
    requires a != [] && b != [] && a[0] == b[0]
    requires forall p :: WithPriority(a, p) == WithPriority(b, p)
    ensures forall p :: WithPriority(a[1..], p) == WithPriority(b[1..], p)
  {
    forall p
      ensures WithPriority(a[1..], p) == WithPriority(b[1..], p)
    {
      var h := if a[0].priority == p then [a[0]] else [];
      assert WithPriority(a, p) == h + WithPriority(a[1..], p);
      assert WithPriority(b, p) == h + WithPriority(b[1..], p);
      assert (h + WithPriority(a[1..], p))[|h|..] == WithPriority(a[1..], p);
      assert (h + WithPriority(b[1..], p))[|h|..] == WithPriority(b[1..], p);
    }
  }

  lemma NoPriorityIsEmpty(s: seq<Adapter>)
    requires forall p :: WithPriority(s, p) == []
    ensures s == []
  {
    if s != [] {
      HeadHasOwnPriority(s);
    }
  }

  lemma HeadHasOwnPriority(s: seq<Adapter>)
    requires s != []
    ensures WithPriority(s, s[0].priority) != []
  {
  }

  /** A stable sort by priority has exactly one possible result: two sorted
      sequences that agree, priority by priority, on their subsequences are
      equal. So `GetAdapters` is the ordering `OrderBy` produces, not merely
      some sorted permutation. */
  lemma {:induction false} StableSortUnique(a: seq<Adapter>, b: seq<Adapter>)
    requires SortedByPriority(a) && SortedByPriority(b)
    requires forall p :: WithPriority(a, p) == WithPriority(b, p)
    ensures a == b
    decreases |a| + |b|
  {
    if a == [] {
      NoPriorityIsEmpty(b);
    } else if b == [] {
      NoPriorityIsEmpty(a);
    } else {
      HeadsAgree(a, b);
      TailsAgree(a, b);
      StableSortUnique(a[1..], b[1..]);
      assert a == [a[0]] + a[1..] && b == [b[0]] + b[1..];
    }
  }
  /** Any sorted sequence that keeps, priority by priority, the registration
      order is the result of `GetAdapters`. */
  lemma GetAdaptersIsStableSort(registered: seq<Adapter>, r: seq<Adapter>)
    requires SortedByPriority(r)
    requires forall p :: WithPriority(r, p) == WithPriority(registered, p)
    ensures r == GetAdapters(registered)
  {
    var g := GetAdapters(registered);
    assert forall p :: WithPriority(r, p) == WithPriority(g, p);
    StableSortUnique(r, g);
  }
}

/// The adapter queries every persistence system offers: the enabled view of
/// the ordered adapters, lookup by name, and the first enabled adapter. Each
/// is a query over `GetAdapters`; the throwing variants fail with a
/// `PersistenceException` carrying the source's message.
module AdapterQueries {
  import opened Errors
  import opened Storage
  import opened AdapterOrder

  /** The registered adapters and the ordered ones are the same adapters. */
  lemma OrderedMembers(registered: seq<Adapter>)
    ensures forall a :: a in GetAdapters(registered) ==> a in registered
    ensures forall a :: a in registered ==> a in GetAdapters(registered)
  {
    var ordered := GetAdapters(registered);
    assert forall a :: a in ordered ==> a in multiset(ordered);
    assert forall a :: a in registered ==> a in multiset(registered);
  }

  lemma SortedCons(x: Adapter, s: seq<Adapter>)
    requires SortedByPriority(s)
    requires forall y :: y in s ==> x.priority <= y.priority
    ensures SortedByPriority([x] + s)
  {
    forall i, j | 0 <= i < j < |[x] + s|
      ensures ([x] + s)[i].priority <= ([x] + s)[j].priority
    {
      if i == 0 {
        assert ([x] + s)[j] == s[j - 1];
        assert s[j - 1] in s;
      } else {
        assert ([x] + s)[i] == s[i - 1] && ([x] + s)[j] == s[j - 1];
      }
    }
  }

  /** The enabled adapters of `s`, in the order of `s` (`Where(adapterEnabled)`). */
  function Enabled(s: seq<Adapter>): (r: seq<Adapter>)
    ensures forall a :: a in r ==> a in s && a.enabled
    ensures forall a :: a in s && a.enabled ==> a in r
  {
    if s == [] then []
    else
      assert s == [s[0]] + s[1..];
      (if s[0].enabled then [s[0]] else []) + Enabled(s[1..])
  }

  /** How many adapters of `s` are enabled. */
  function CountEnabled(s: seq<Adapter>): nat
  {
    if s == [] then 0 else (if s[0].enabled then 1 else 0) + CountEnabled(s[1..])
  }

  lemma {:induction false} EnabledSorted(s: seq<Adapter>)
    requires SortedByPriority(s)
    ensures SortedByPriority(Enabled(s))
  {
    if s != [] {
      assert SortedByPriority(s[1..]) by {
        forall i, j | 0 <= i < j < |s[1..]| ensures s[1..][i].priority <= s[1..][j].priority {
          assert s[1..][i] == s[i + 1] && s[1..][j] == s[j + 1];
        }
      }
      EnabledSorted(s[1..]);
      var rest := Enabled(s[1..]);
      if s[0].enabled {
        forall y | y in rest ensures s[0].priority <= y.priority {
          assert y in s;
          SortedHeadMinimal(s, y);
        }
        SortedCons(s[0], rest);
      }
    }
  }

  lemma {:induction false} EnabledLength(s: seq<Adapter>)
    ensures |Enabled(s)| == CountEnabled(s)
  {
    if s != [] {
      EnabledLength(s[1..]);
    }
  }

  /** The enabled adapter at position `i` of `s` stands, in the enabled view,
      at the position given by the number of enabled adapters before it. */
  lemma {:induction false} EnabledAt(s: seq<Adapter>, i: nat)
    requires i < |s| && s[i].enabled
    ensures CountEnabled(s[..i]) < |Enabled(s)|
    ensures Enabled(s)[CountEnabled(s[..i])] == s[i]
  {
    var h := if s[0].enabled then [s[0]] else [];
    assert Enabled(s) == h + Enabled(s[1..]);
    if i == 0 {
      assert s[..i] == [];
    } else {
      EnabledAt(s[1..], i - 1);
      assert s[..i] == [s[0]] + s[1..][..i - 1];
      assert ([s[0]] + s[1..][..i - 1])[1..] == s[1..][..i - 1];
      assert CountEnabled(s[..i]) == |h| + CountEnabled(s[1..][..i - 1]);
      assert s[1..][i - 1] == s[i];
    }
  }

  /** `GetEnabledAdapters`: the enabled view of the ordered adapters. It
      holds exactly the enabled registered adapters, in priority order, and
      keeps their relative order: the enabled adapter at position i of
      `GetAdapters` is at position "number of enabled adapters before i". */
  function GetEnabledAdapters(registered: seq<Adapter>): (r: seq<Adapter>)
    ensures forall a :: a in r ==> a in registered && a.enabled
    ensures forall a :: a in registered && a.enabled ==> a in r
    ensures SortedByPriority(r)
    ensures |r| == CountEnabled(GetAdapters(registered))
    ensures forall i :: 0 <= i < |GetAdapters(registered)| && GetAdapters(registered)[i].enabled ==>
      CountEnabled(GetAdapters(registered)[..i]) < |r| &&
      r[CountEnabled(GetAdapters(registered)[..i])] == GetAdapters(registered)[i]
  {
    var ordered := GetAdapters(registered);
    OrderedMembers(registered);
    EnabledSorted(ordered);
    EnabledLength(ordered);
    assert forall i :: 0 <= i < |ordered| && ordered[i].enabled ==>
      CountEnabled(ordered[..i]) < |Enabled(ordered)| &&
      Enabled(ordered)[CountEnabled(ordered[..i])] == ordered[i] by {
      forall i | 0 <= i < |ordered| && ordered[i].enabled
        ensures CountEnabled(ordered[..i]) < |Enabled(ordered)| && Enabled(ordered)[CountEnabled(ordered[..i])] == ordered[i]
      {
        EnabledAt(ordered, i);
      }
    }
    Enabled(ordered)
  }

  /** `a` is the first adapter of `s` named `name`. */
  ghost predicate FirstWithName(s: seq<Adapter>, a: Adapter, name: string)
  {
    exists k :: 0 <= k < |s| && s[k] == a && forall j :: 0 <= j < k ==> s[j].name != name
  }

  /** The first adapter of `s` named `name` (`Where(adapterName == name).FirstOrDefault()`). */
  function FirstNamed(s: seq<Adapter>, name: string): (r: Option<Adapter>)
    ensures r.None? <==> forall a :: a in s ==> a.name != name
    ensures r.Some? ==> r.value.name == name && FirstWithName(s, r.value, name)
  {
    if s == [] then None
    else if s[0].name == name then
      assert FirstWithName(s, s[0], name);
      Some(s[0])
    else
      var r := FirstNamed(s[1..], name);
      assert s == [s[0]] + s[1..];
      assert r.Some? ==> FirstWithName(s, r.value, name) by {
        if r.Some? {
          var k :| 0 <= k < |s[1..]| && s[1..][k] == r.value && forall j :: 0 <= j < k ==> s[1..][j].name != name;
          assert s[k + 1] == r.value;
          forall j | 0 <= j < k + 1 ensures s[j].name != name {
            if j > 0 { assert s[j] == s[1..][j - 1]; }
          }
        }
      }
      r
  }

  /** In priority order, the first match by name has the lowest priority
      value among the adapters with that name. */
  lemma FirstNamedMinimal(s: seq<Adapter>, name: string, a: Adapter)
    requires SortedByPriority(s) && a in s && a.name == name
    ensures FirstNamed(s, name).Some? && FirstNamed(s, name).value.priority <= a.priority
  {
    var w := FirstNamed(s, name).value;
    var k :| 0 <= k < |s| && s[k] == w && forall j :: 0 <= j < k ==> s[j].name != name;
    var m :| 0 <= m < |s| && s[m] == a;
    assert k <= m;
  }

  /** `TryGetAdapter`: an adapter named `name` is found exactly when one is
      registered; it is the first such adapter in priority order, and so none
      with that name has a lower priority value. */
  function TryGetAdapter(registered: seq<Adapter>, name: string): (r: Option<Adapter>)
    ensures r.Some? <==> exists a :: a in registered && a.name == name
    ensures r.Some? ==> r.value in registered && r.value.name == name
    ensures r.Some? ==> FirstWithName(GetAdapters(registered), r.value, name)
    ensures r.Some? ==> forall a :: a in registered && a.name == name ==> r.value.priority <= a.priority
  {
    var ordered := GetAdapters(registered);
    OrderedMembers(registered);
    var r := FirstNamed(ordered, name);
    assert r.Some? ==> forall a :: a in registered && a.name == name ==> r.value.priority <= a.priority by {
      forall a | a in registered && a.name == name ensures FirstNamed(ordered, name).value.priority <= a.priority {
        FirstNamedMinimal(ordered, name, a);
      }
    }
    r
  }

  /** `GetAdapter`: the adapter `TryGetAdapter` finds, or a
      `PersistenceException` when no registered adapter has that name. */
  function GetAdapter(registered: seq<Adapter>, name: string): (r: Result<Adapter>)
    ensures r.Err? <==> forall a :: a in registered ==> a.name != name
    ensures r.Err? ==> r.error == PersistenceException("Could not find a registered adapter with name " + name)
    ensures r.Ok? ==> TryGetAdapter(registered, name) == Some(r.value)
  {
    match TryGetAdapter(registered, name)
    case Some(adapter) => Ok(adapter)
    case None => Err(PersistenceException("Could not find a registered adapter with name " + name))
  }

  /** The adapters of `s` are pairwise different objects (the components
      attached to one host are). */
  predicate Distinct(s: seq<Adapter>)
  {
    forall i, j :: 0 <= i < j < |s| ==> s[i] != s[j]
  }

  /** How the first match by name changes when one more adapter is sorted in. */
  lemma {:induction false} FirstNamedInsert(x: Adapter, t: seq<Adapter>, name: string)
    requires SortedByPriority(t)
    ensures x.name != name ==> FirstNamed(Insert(x, t), name) == FirstNamed(t, name)
    ensures x.name == name && (FirstNamed(t, name).None? || x.priority <= FirstNamed(t, name).value.priority) ==>
      FirstNamed(Insert(x, t), name) == Some(x)
    ensures x.name == name && FirstNamed(t, name).Some? && FirstNamed(t, name).value.priority < x.priority ==>
      FirstNamed(Insert(x, t), name) == FirstNamed(t, name)
  {
    if t == [] || x.priority <= t[0].priority {
      assert ([x] + t)[1..] == t;
      if x.name == name && FirstNamed(t, name).Some? {
        FirstNamedMinimal(t, name, FirstNamed(t, name).value);
        SortedHeadMinimal(t, FirstNamed(t, name).value);
      }
    } else {
      var rest := Insert(x, t[1..]);
      assert Insert(x, t) == [t[0]] + rest;
      assert ([t[0]] + rest)[1..] == rest;
      assert SortedByPriority(t[1..]) by {
        forall i, j | 0 <= i < j < |t[1..]| ensures t[1..][i].priority <= t[1..][j].priority {
          assert t[1..][i] == t[i + 1] && t[1..][j] == t[j + 1];
        }
      }
      FirstNamedInsert(x, t[1..], name);
    }
  }

  /** Duplicate names resolve deterministically: of two different adapters
      with the same name, the later-registered one is never chosen unless it
      has a strictly lower priority value. So the lower priority value wins,
      and on equal priority the earlier-registered adapter wins. */
  lemma GetAdapterDuplicateNames(registered: seq<Adapter>, i: nat, j: nat, name: string)
    requires Distinct(registered)
    requires i < j < |registered|
    requires registered[i].name == name && registered[j].name == name
    requires registered[i].priority <= registered[j].priority
    ensures GetAdapter(registered, name) != Ok(registered[j])
  {
    FirstNamedNot(registered, i, j, name);
  }

  lemma {:induction false} FirstNamedNot(registered: seq<Adapter>, i: nat, j: nat, name: string)
    requires Distinct(registered)
    requires i < j < |registered|
    requires registered[i].name == name && registered[j].name == name
    requires registered[i].priority <= registered[j].priority
    ensures FirstNamed(GetAdapters(registered), name) != Some(registered[j])
  {
    var x, tail, y := registered[0], registered[1..], registered[j];
    assert y == tail[j - 1];
    assert x != y by { assert registered[0] != registered[j]; }
    DistinctTail(registered);
    if i == 0 {
      FirstNamedNotHead(x, tail, y, name);
    } else {
      assert registered[i] == tail[i - 1];
      FirstNamedNot(tail, i - 1, j - 1, name);
      FirstNamedNotLater(x, tail, y, name);
    }
    assert registered == [x] + tail;
  }

  /** The registered head shadows a same-named later adapter of no lower
      priority value. */
  lemma FirstNamedNotHead(x: Adapter, tail: seq<Adapter>, y: Adapter, name: string)
    requires y in tail && x != y
    requires x.name == name && y.name == name && x.priority <= y.priority
    ensures FirstNamed(GetAdapters([x] + tail), name) != Some(y)
  {
    GetAdaptersCons([x] + tail);
    assert ([x] + tail)[1..] == tail;
    OrderedMembers(tail);
    InsertNamedFirst(x, GetAdapters(tail), y, name);
  }

  /** Registering one more adapter `x` ahead of the rest cannot make another
      adapter `y` the first match. */
  lemma FirstNamedNotLater(x: Adapter, tail: seq<Adapter>, y: Adapter, name: string)
    requires x != y
    requires FirstNamed(GetAdapters(tail), name) != Some(y)
    ensures FirstNamed(GetAdapters([x] + tail), name) != Some(y)
  {
    GetAdaptersCons([x] + tail);
    assert ([x] + tail)[1..] == tail;
    InsertOtherKeepsMiss(x, GetAdapters(tail), y, name);
  }

  lemma GetAdaptersCons(registered: seq<Adapter>)
    requires registered != []
    ensures GetAdapters(registered) == Insert(registered[0], GetAdapters(registered[1..]))
  {
  }

  lemma DistinctTail(s: seq<Adapter>)
    requires Distinct(s) && s != []
    ensures Distinct(s[1..]) && s[0] !in s[1..]
  {
    forall k, l | 0 <= k < l < |s[1..]| ensures s[1..][k] != s[1..][l] {
      assert s[1..][k] == s[k + 1] && s[1..][l] == s[l + 1];
    }
  }

  /** Sorting in a named adapter `x` before a same-named `y` of no lower
      priority value makes `y` lose. */
  lemma InsertNamedFirst(x: Adapter, t: seq<Adapter>, y: Adapter, name: string)
    requires SortedByPriority(t) && y in t && x != y
    requires x.name == name && y.name == name && x.priority <= y.priority
    ensures FirstNamed(Insert(x, t), name) != Some(y)
  {
    FirstNamedInsert(x, t, name);
    FirstNamedMinimal(t, name, y);
  }

  /** Sorting in an adapter `x` other than `y` cannot make `y` the first match. */
  lemma InsertOtherKeepsMiss(x: Adapter, t: seq<Adapter>, y: Adapter, name: string)
    requires SortedByPriority(t) && x != y
    requires FirstNamed(t, name) != Some(y)
    ensures FirstNamed(Insert(x, t), name) != Some(y)
  {
    FirstNamedInsert(x, t, name);
  }

  /** The head of the enabled view is the first enabled adapter of `s`. */
  lemma {:induction false} FirstEnabledPosition(s: seq<Adapter>)
    requires Enabled(s) != []
    ensures exists k :: 0 <= k < |s| && s[k] == Enabled(s)[0] && forall j :: 0 <= j < k ==> !s[j].enabled
  {
    if s[0].enabled {
      assert s[0] == Enabled(s)[0];
    } else {
      assert Enabled(s) == Enabled(s[1..]);
      FirstEnabledPosition(s[1..]);
      var k :| 0 <= k < |s[1..]| && s[1..][k] == Enabled(s)[0] && forall j :: 0 <= j < k ==> !s[1..][j].enabled;
      assert s[k + 1] == Enabled(s)[0];
      forall j | 0 <= j < k + 1 ensures !s[j].enabled {
        if j > 0 { assert s[j] == s[1..][j - 1]; }
      }
    }
  }

  /** `TryGetFirstEnabledAdapter`: found exactly when some registered adapter
      is enabled; it is the head of the enabled view, so no enabled adapter
      precedes it in priority order and none has a lower priority value. */
  function TryGetFirstEnabledAdapter(registered: seq<Adapter>): (r: Option<Adapter>)
    ensures r.Some? <==> exists a :: a in registered && a.enabled
    ensures r.Some? ==> r.value in registered && r.value.enabled
    ensures r.Some? ==> r.value == GetEnabledAdapters(registered)[0]
    ensures r.Some? ==> exists k :: 0 <= k < |GetAdapters(registered)| && GetAdapters(registered)[k] == r.value &&
                                   forall j :: 0 <= j < k ==> !GetAdapters(registered)[j].enabled
    ensures r.Some? ==> forall a :: a in registered && a.enabled ==> r.value.priority <= a.priority
  {
    var view := GetEnabledAdapters(registered);
    if view == [] then None
    else
      FirstEnabledPosition(GetAdapters(registered));
      assert forall a :: a in registered && a.enabled ==> view[0].priority <= a.priority by {
        forall a | a in registered && a.enabled ensures view[0].priority <= a.priority {
          SortedHeadMinimal(view, a);
        }
      }
      Some(view[0])
  }

  /** `GetFirstEnabledAdapter`: the adapter `TryGetFirstEnabledAdapter`
      finds, or a `PersistenceException` exactly when none is enabled. */
  function GetFirstEnabledAdapter(registered: seq<Adapter>): (r: Result<Adapter>)
    ensures r.Err? <==> forall a :: a in registered ==> !a.enabled
    ensures r.Err? ==> r.error == PersistenceException("Could not find an enabled registered adapter")
    ensures r.Ok? ==> TryGetFirstEnabledAdapter(registered) == Some(r.value)
  {
    match TryGetFirstEnabledAdapter(registered)
    case Some(adapter) => Ok(adapter)
    case None => Err(PersistenceException("Could not find an enabled registered adapter"))
  }
}

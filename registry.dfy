/** The values a factory works with: abstract class references, the instances it
    builds, and the ordered key -> class table behind its private registry object,
    together with the specification of clearing that table key by key. */
module Registry {

  datatype Option<T> = None | Some(value: T)

  /** What reading a static member of a class and calling it yields. */
  datatype HookOutcome =
    | NotCallable    // the member is missing, or is not a function
    | ReturnsFalse   // calling it returns exactly `false`
    | ReturnsOther   // calling it returns anything else (including nothing)

  /** A registered class, reduced to what the factory can observe of it: its identity,
      its intrinsic name (`Class.name`), the callable members its instances expose and
      the outcome of each of its static members. */
  datatype ClassRef = ClassRef(
    id: nat,
    name: string,
    instanceMethods: set<string>,
    statics: map<string, HookOutcome>)

  function StaticHook(c: ClassRef, member: string): HookOutcome
  {
    if member in c.statics then c.statics[member] else NotCallable
  }

  /** A configuration value handed to `create`; `Undefined` when the caller omits it. */
  datatype Value = Undefined | Data(payload: string)

  /** A built instance: its class, the argument its constructor received (None when it
      was called with no argument) and the argument its init method received (None when
      it was not called). */
  datatype Instance = Instance(cls: ClassRef, ctorArg: Option<Value>, initArg: Option<Value>)

  /** The first argument of `create`: a class itself, a key, or nothing usable. */
  datatype Target = ByClass(cls: ClassRef) | ByKey(key: string) | NoTarget

  /** One invocation of a static teardown member `member` of the class stored under `key`. */
  datatype HookCall = HookCall(key: string, cls: ClassRef, member: string)

  /** No key occurs twice. */
  ghost predicate Distinct(s: seq<string>)
  {
    forall i, j :: 0 <= i < j < |s| ==> s[i] != s[j]
  }

  /** An ordered dictionary: `order` lists the keys in insertion order. */
  datatype Table = Table(order: seq<string>, classes: map<string, ClassRef>)

  ghost predicate WellFormed(t: Table)
  {
    Distinct(t.order) && forall k :: k in t.order <==> k in t.classes
  }

  const Empty := Table([], map[])

  function Lookup(t: Table, k: string): (r: Option<ClassRef>)
    ensures r.Some? <==> k in t.classes
    ensures r.Some? ==> r.value == t.classes[k]
  {
    if k in t.classes then Some(t.classes[k]) else None
  }

  /** Assigning a property: a new key goes to the end, an existing key keeps its place
      and only its class changes. */
  function Put(t: Table, k: string, c: ClassRef): (r: Table)
    ensures WellFormed(t) ==> WellFormed(r)
    ensures Lookup(r, k) == Some(c)
    ensures forall k' :: k' != k ==> Lookup(r, k') == Lookup(t, k')
    ensures t.order <= r.order
    ensures |r.order| == if k in t.classes then |t.order| else |t.order| + 1
  {
    Table(if k in t.classes then t.order else t.order + [k], t.classes[k := c])
  }

  function Without(s: seq<string>, x: string): (r: seq<string>)
    ensures forall y :: y in r <==> y in s && y != x
    ensures x !in s ==> r == s
  {
    if s == [] then []
    else if s[0] == x then Without(s[1..], x)
    else [s[0]] + Without(s[1..], x)
  }

  lemma {:induction false} WithoutDistinct(s: seq<string>, x: string)
    ensures Distinct(s) ==> Distinct(Without(s, x))
    decreases |s|
  {
    if s != [] && Distinct(s) {
      WithoutDistinct(s[1..], x);
      if s[0] != x {
        assert s[0] !in s[1..];
        DistinctCons(s[0], Without(s[1..], x));
      }
    }
  }

  lemma DistinctCons(a: string, s: seq<string>)
    ensures a !in s && Distinct(s) ==> Distinct([a] + s)
  {
    if a !in s && Distinct(s) {
      forall i, j | 0 <= i < j < |[a] + s| ensures ([a] + s)[i] != ([a] + s)[j] {
        if i > 0 {
          assert ([a] + s)[i] == s[i - 1];
        }
      }
    }
  }

  /** Deleting a property; deleting a missing key changes nothing. */
  function Remove(t: Table, k: string): (r: Table)
    ensures WellFormed(t) ==> WellFormed(r)
    ensures Lookup(r, k) == None
    ensures forall k' :: k' != k ==> Lookup(r, k') == Lookup(t, k')
    ensures WellFormed(t) && k !in t.classes ==> r == t
  {
    WithoutDistinct(t.order, k);
    Table(Without(t.order, k), t.classes - {k})
  }

  /** Deleting the key at position `p` leaves the keys before and after it, in order. */
  lemma WithoutAt(s: seq<string>, p: nat)
    requires Distinct(s) && p < |s|
    ensures Without(s, s[p]) == s[..p] + s[p + 1..]
  {
    assert s == s[..p] + [s[p]] + s[p + 1..];
    DistinctSplit(s[..p], s[p], s[p + 1..]);
    WithoutMiddle(s[..p], s[p], s[p + 1..]);
  }

  lemma DistinctSplit(a: seq<string>, x: string, b: seq<string>)
    requires Distinct(a + [x] + b)
    ensures x !in a && x !in b
  {
    var s := a + [x] + b;
    assert s[|a|] == x;
    forall j | 0 <= j < |a| ensures a[j] != x {
      assert s[j] == a[j];
    }
    forall j | 0 <= j < |b| ensures b[j] != x {
      assert s[|a| + 1 + j] == b[j];
    }
  }

  /** Without distributes over a split around an absent element. */
  lemma {:induction false} WithoutMiddle(a: seq<string>, x: string, b: seq<string>)
    requires x !in a && x !in b
    ensures Without(a + [x] + b, x) == a + b
    decreases |a|
  {
    if a == [] {
      assert [x] + b == a + [x] + b;
      assert ([x] + b)[1..] == b;
    } else {
      WithoutMiddle(a[1..], x, b);
      assert (a + [x] + b)[1..] == a[1..] + [x] + b;
      assert [a[0]] + (a[1..] + b) == a + b;
    }
  }

  // ---------------------------------------------------------------------------
  // Removal with a teardown hook, and clearing a table key by key.
  // ---------------------------------------------------------------------------

  /** The table after removing `k` guarded by the static member `m` of its class: the
      key goes unless that member is callable and returns exactly `false`. */
  function Unregistered(t: Table, k: string, m: string): (r: Table)
    ensures WellFormed(t) ==> WellFormed(r)
    ensures k in r.classes <==> k in t.classes && StaticHook(t.classes[k], m) == ReturnsFalse
    ensures forall k' :: k' != k ==> Lookup(r, k') == Lookup(t, k')
    ensures k in r.classes ==> r == t
    ensures k !in t.classes ==> r == t
    ensures k in t.classes && k !in r.classes ==> r == Remove(t, k)
  {
    if k in t.classes && StaticHook(t.classes[k], m) != ReturnsFalse then Remove(t, k) else t
  }

  /** The hook invocations that removal makes: one when the key is present and its
      class has a callable static member `m`, none otherwise. */
  function UnregisterCalls(t: Table, k: string, m: string): (r: seq<HookCall>)
    ensures |r| <= 1
    ensures |r| == 1 <==> k in t.classes && StaticHook(t.classes[k], m) != NotCallable
    ensures |r| == 1 ==> r[0] == HookCall(k, t.classes[k], m)
  {
    if k in t.classes && StaticHook(t.classes[k], m) != NotCallable
    then [HookCall(k, t.classes[k], m)] else []
  }

  /** The table after removing each key of `ks`, in order, guarded by `m`. */
  function ClearFrom(t: Table, ks: seq<string>, m: string): (r: Table)
    ensures WellFormed(t) ==> WellFormed(r)
    decreases |ks|
  {
    if ks == [] then t
    else Unregistered(ClearFrom(t, ks[..|ks| - 1], m), ks[|ks| - 1], m)
  }

  /** The hook invocations made while removing each key of `ks`, in order: at most one
      per key, each of them the member `m` of a visited key's class. */
  function ClearCalls(t: Table, ks: seq<string>, m: string): (r: seq<HookCall>)
    decreases |ks|
  {
    if ks == [] then []
    else ClearCalls(t, ks[..|ks| - 1], m) + UnregisterCalls(ClearFrom(t, ks[..|ks| - 1], m), ks[|ks| - 1], m)
  }

  /** Clearing makes at most one call per key of the snapshot, and every call is to the
      member `m`, on behalf of a key of the snapshot. */
  lemma {:induction false} ClearCallsMember(t: Table, ks: seq<string>, m: string)
    ensures |ClearCalls(t, ks, m)| <= |ks|
    ensures forall i :: 0 <= i < |ClearCalls(t, ks, m)| ==>
              ClearCalls(t, ks, m)[i].member == m && ClearCalls(t, ks, m)[i].key in ks
    decreases |ks|
  {
    if ks != [] {
      var pre := ks[..|ks| - 1];
      ClearCallsMember(t, pre, m);
      assert forall k :: k in pre ==> k in ks;
    }
  }

  /** The keys of `s`, in order, whose class vetoes removal through `m`. */
  function Vetoed(s: seq<string>, classes: map<string, ClassRef>, m: string): seq<string>
    decreases |s|
  {
    if s == [] then []
    else
      var x := s[|s| - 1];
      Vetoed(s[..|s| - 1], classes, m) +
      (if x in classes && StaticHook(classes[x], m) == ReturnsFalse then [x] else [])
  }

  /** One invocation per key of `s`, in order, whose class has a callable member `m`. */
  function Invoked(s: seq<string>, classes: map<string, ClassRef>, m: string): seq<HookCall>
    decreases |s|
  {
    if s == [] then []
    else
      var x := s[|s| - 1];
      Invoked(s[..|s| - 1], classes, m) +
      (if x in classes && StaticHook(classes[x], m) != NotCallable then [HookCall(x, classes[x], m)] else [])
  }

  lemma {:induction false} VetoedSubset(s: seq<string>, classes: map<string, ClassRef>, m: string)
    ensures forall x :: x in Vetoed(s, classes, m) ==> x in s
    decreases |s|
  {
    if s != [] {
      VetoedSubset(s[..|s| - 1], classes, m);
    }
  }

  lemma {:induction false} VetoedNone(s: seq<string>, classes: map<string, ClassRef>, m: string)
    requires forall k :: k in classes ==> StaticHook(classes[k], m) != ReturnsFalse
    ensures Vetoed(s, classes, m) == []
    decreases |s|
  {
    if s != [] {
      VetoedNone(s[..|s| - 1], classes, m);
    }
  }

  /** After the first `i` keys of the snapshot have been cleared, every cleared key is
      gone unless its hook vetoed, and every key still present keeps its class. */
  lemma {:induction false} ClearPrefixClasses(t: Table, m: string, i: nat)
    requires WellFormed(t) && i <= |t.order|
    ensures forall k :: k in ClearFrom(t, t.order[..i], m).classes <==>
                        k in t.classes && (k !in t.order[..i] || StaticHook(t.classes[k], m) == ReturnsFalse)
    ensures forall k :: k in ClearFrom(t, t.order[..i], m).classes ==>
                        ClearFrom(t, t.order[..i], m).classes[k] == t.classes[k]
  {
    if i > 0 {
      var ks := t.order[..i];
      var pre := t.order[..i - 1];
      var x := t.order[i - 1];
      assert ks[..|ks| - 1] == pre && ks[|ks| - 1] == x;
      assert ks == pre + [x];
      ClearPrefixClasses(t, m, i - 1);
      assert ClearFrom(t, ks, m) == Unregistered(ClearFrom(t, pre, m), x, m);
    }
  }

  /** A key that is not among the cleared ones keeps its binding. */
  lemma {:induction false} ClearFromUntouched(t: Table, m: string, ks: seq<string>, x: string)
    requires WellFormed(t) && x !in ks
    ensures Lookup(ClearFrom(t, ks, m), x) == Lookup(t, x)
    decreases |ks|
  {
    if ks != [] {
      ClearFromUntouched(t, m, ks[..|ks| - 1], x);
    }
  }

  /** One more iteration of the clearing loop unregisters the next snapshot key. */
  lemma ClearStep(t: Table, m: string, i: nat)
    requires i < |t.order|
    ensures ClearFrom(t, t.order[..i + 1], m) == Unregistered(ClearFrom(t, t.order[..i], m), t.order[i], m)
    ensures ClearCalls(t, t.order[..i + 1], m) ==
            ClearCalls(t, t.order[..i], m) + UnregisterCalls(ClearFrom(t, t.order[..i], m), t.order[i], m)
  {
    var done := t.order[..i + 1];
    assert done[..i] == t.order[..i] && done[i] == t.order[i];
  }

  /** The key a clear visits next is still registered, under its original class. */
  lemma ClearNextPresent(t: Table, m: string, i: nat)
    requires WellFormed(t) && i < |t.order|
    ensures Lookup(ClearFrom(t, t.order[..i], m), t.order[i]) == Lookup(t, t.order[i])
  {
    assert t.order == t.order[..i] + [t.order[i]] + t.order[i + 1..];
    DistinctSplit(t.order[..i], t.order[i], t.order[i + 1..]);
    ClearFromUntouched(t, m, t.order[..i], t.order[i]);
  }

  /** Once the keys `done` in front of the snapshot have been cleared, the vetoed ones
      among them stay, in order, in front of the untouched `rest`. */
  lemma {:induction false} ClearPrefixOrder(t: Table, m: string, done: seq<string>, rest: seq<string>)
    requires WellFormed(t) && t.order == done + rest
    ensures ClearFrom(t, done, m).order == Vetoed(done, t.classes, m) + rest
    decreases |done|
  {
    if done == [] {
      assert t.order == rest;
    } else {
      var pre := done[..|done| - 1];
      var x := done[|done| - 1];
      assert done == pre + [x];
      assert t.order == pre + ([x] + rest);
      ClearPrefixOrder(t, m, pre, [x] + rest);
      var p := ClearFrom(t, pre, m);
      var v := Vetoed(pre, t.classes, m);
      assert p.order == v + [x] + rest;
      DistinctSplit(pre, x, rest);
      ClearFromUntouched(t, m, pre, x);
      if StaticHook(t.classes[x], m) != ReturnsFalse {
        VetoedSubset(pre, t.classes, m);
        WithoutMiddle(v, x, rest);
      }
    }
  }

  /** Clearing the whole snapshot leaves exactly the vetoed keys, with their classes and
      in their original relative order. */
  lemma ClearOutcome(t: Table, m: string)
    requires WellFormed(t)
    ensures ClearFrom(t, t.order, m).order == Vetoed(t.order, t.classes, m)
    ensures forall k :: k in ClearFrom(t, t.order, m).classes <==>
                        k in t.classes && StaticHook(t.classes[k], m) == ReturnsFalse
    ensures forall k :: k in ClearFrom(t, t.order, m).classes ==>
                        ClearFrom(t, t.order, m).classes[k] == t.classes[k]
  {
    ClearPrefixClasses(t, m, |t.order|);
    ClearPrefixOrder(t, m, t.order, []);
    assert t.order + [] == t.order;
    assert t.order[..|t.order|] == t.order;
    assert t.order[|t.order|..] == [];
  }

  /** When no class vetoes, clearing empties the table. */
  lemma ClearEmptiesWithoutVeto(t: Table, m: string)
    requires WellFormed(t)
    requires forall k :: k in t.classes ==> StaticHook(t.classes[k], m) != ReturnsFalse
    ensures ClearFrom(t, t.order, m) == Empty
  {
    ClearOutcome(t, m);
    var r := ClearFrom(t, t.order, m);
    assert r.classes.Keys == {};
    VetoedNone(t.order, t.classes, m);
  }

  /** The hooks are invoked in snapshot order, once per key whose class has the member. */
  lemma {:induction false} ClearCallsPrefix(t: Table, m: string, i: nat)
    requires WellFormed(t) && i <= |t.order|
    ensures ClearCalls(t, t.order[..i], m) == Invoked(t.order[..i], t.classes, m)
  {
    if i > 0 {
      var pre := t.order[..i - 1];
      var x := t.order[i - 1];
      assert t.order[..i][..i - 1] == pre;
      ClearCallsPrefix(t, m, i - 1);
      ClearPrefixClasses(t, m, i - 1);
      assert x !in pre;
      var p := ClearFrom(t, pre, m);
      assert x in p.classes && p.classes[x] == t.classes[x];
    }
  }

  /** How many recorded calls name key `k`. */
  function CallCount(calls: seq<HookCall>, k: string): nat
    decreases |calls|
  {
    if calls == [] then 0
    else CallCount(calls[..|calls| - 1], k) + (if calls[|calls| - 1].key == k then 1 else 0)
  }

  /** Counting the calls of a log split in two adds up the counts of the parts. */
  lemma {:induction false} CallCountAppend(a: seq<HookCall>, b: seq<HookCall>, k: string)
    ensures CallCount(a + b, k) == CallCount(a, k) + CallCount(b, k)
    decreases |b|
  {
    if b == [] {
      assert a + b == a;
    } else {
      var b' := b[..|b| - 1];
      assert (a + b)[..|a + b| - 1] == a + b';
      assert (a + b)[|a + b| - 1] == b[|b| - 1];
      CallCountAppend(a, b', k);
    }
  }

  lemma {:induction false} InvokedCount(s: seq<string>, classes: map<string, ClassRef>, m: string, k: string)
    requires Distinct(s)
    ensures CallCount(Invoked(s, classes, m), k) ==
            if k in s && k in classes && StaticHook(classes[k], m) != NotCallable then 1 else 0
    decreases |s|
  {
    if s != [] {
      var pre := s[..|s| - 1];
      var x := s[|s| - 1];
      assert s == pre + [x];
      InvokedCount(pre, classes, m, k);
      var tail := if x in classes && StaticHook(classes[x], m) != NotCallable then [HookCall(x, classes[x], m)] else [];
      assert Invoked(s, classes, m) == Invoked(pre, classes, m) + tail;
      CallCountAppend(Invoked(pre, classes, m), tail, k);
      if tail != [] {
        assert tail[..0] == [];
      }
      assert k in s <==> k in pre || k == x;
      assert x !in pre;
    }
  }

  lemma {:induction false} InvokedLength(s: seq<string>, classes: map<string, ClassRef>, m: string)
    requires forall k :: k in s ==> k in classes && StaticHook(classes[k], m) != NotCallable
    ensures |Invoked(s, classes, m)| == |s|
    decreases |s|
  {
    if s != [] {
      InvokedLength(s[..|s| - 1], classes, m);
    }
  }

  /** Clearing invokes the hook of each key of the snapshot exactly once when its class
      has one, never otherwise, and in snapshot order; when every class has it, the
      number of calls is the number of keys. */
  lemma ClearCallsOnce(t: Table, m: string)
    requires WellFormed(t)
    ensures ClearCalls(t, t.order, m) == Invoked(t.order, t.classes, m)
    ensures forall k :: CallCount(ClearCalls(t, t.order, m), k) ==
                        if k in t.classes && StaticHook(t.classes[k], m) != NotCallable then 1 else 0
    ensures (forall k :: k in t.classes ==> StaticHook(t.classes[k], m) != NotCallable) ==>
            |ClearCalls(t, t.order, m)| == |t.order|
  {
    ClearCallsPrefix(t, m, |t.order|);
    assert t.order[..|t.order|] == t.order;
    forall k ensures CallCount(ClearCalls(t, t.order, m), k) ==
                     if k in t.classes && StaticHook(t.classes[k], m) != NotCallable then 1 else 0
    {
      InvokedCount(t.order, t.classes, m, k);
    }
    if forall k :: k in t.classes ==> StaticHook(t.classes[k], m) != NotCallable {
      InvokedLength(t.order, t.classes, m);
    }
  }

  // ---------------------------------------------------------------------------
  // Resolving the first argument of create, and the two construction strategies.
  // ---------------------------------------------------------------------------

  /** A class given directly is used as is; a key is looked up; anything else resolves
      to nothing. */
  function Resolve(t: Table, target: Target): (r: Option<ClassRef>)
    ensures r.None? <==> target.NoTarget? || (target.ByKey? && target.key !in t.classes)
    ensures r.Some? ==> r.value == if target.ByClass? then target.cls else t.classes[target.key]
  {
    match target
    case ByClass(c) => Some(c)
    case ByKey(k) => Lookup(t, k)
    case NoTarget => None
  }

  /** With no init method the constructor receives `config`; with one, the constructor
      receives nothing and the init method, when instances have it, receives `config`. */
  function Construct(c: ClassRef, initMethod: string, config: Value): (r: Instance)
    ensures r.cls == c
    ensures initMethod == "" ==> r.ctorArg == Some(config) && r.initArg == None
    ensures initMethod != "" ==> r.ctorArg == None
    ensures initMethod != "" ==> (r.initArg.Some? <==> initMethod in c.instanceMethods)
    ensures r.initArg.Some? ==> r.initArg.value == config
  {
    if initMethod == "" then Instance(c, Some(config), None)
    else if initMethod in c.instanceMethods then Instance(c, None, Some(config))
    else Instance(c, None, None)
  }
}

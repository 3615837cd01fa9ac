/** The earlier factory of index.js: keys are taken as given, removal is unconditional,
    and clearing with a hook name probes, for each key, the static member named after
    the key itself. */
module LegacyFactory {
  import opened Registry

  // ---------------------------------------------------------------------------
  // Clearing as index.js:96-109 does it: the static member probed for key `k` is the
  // one named `k`, and the key goes only when that member exists and does not
  // return `false`.
  // ---------------------------------------------------------------------------

  /** The table after the loop body has run for key `k`. */
  function SelfProbed(t: Table, k: string): (r: Table)
    ensures WellFormed(t) ==> WellFormed(r)
    ensures k in r.classes <==> k in t.classes && StaticHook(t.classes[k], k) != ReturnsOther
    ensures forall k' :: k' != k ==> Lookup(r, k') == Lookup(t, k')
  {
    if k in t.classes && StaticHook(t.classes[k], k) == ReturnsOther then Remove(t, k) else t
  }

  /** The call the loop body makes for key `k`: the static member named `k`, if callable. */
  function SelfProbeCall(t: Table, k: string): (r: seq<HookCall>)
    ensures |r| == 1 <==> k in t.classes && StaticHook(t.classes[k], k) != NotCallable
    ensures |r| == 1 ==> r[0] == HookCall(k, t.classes[k], k)
    ensures |r| <= 1
  {
    if k in t.classes && StaticHook(t.classes[k], k) != NotCallable then [HookCall(k, t.classes[k], k)] else []
  }

  function SelfProbeFrom(t: Table, ks: seq<string>): (r: Table)
    ensures WellFormed(t) ==> WellFormed(r)
    decreases |ks|
  {
    if ks == [] then t else SelfProbed(SelfProbeFrom(t, ks[..|ks| - 1]), ks[|ks| - 1])
  }

  /** The calls the loop makes over `ks`: at most one per key, each of them the static
      member named after a visited key, whatever the hook name was. */
  function SelfProbeCalls(t: Table, ks: seq<string>): (r: seq<HookCall>)
    decreases |ks|
  {
    if ks == [] then []
    else SelfProbeCalls(t, ks[..|ks| - 1]) + SelfProbeCall(SelfProbeFrom(t, ks[..|ks| - 1]), ks[|ks| - 1])
  }

  /** The loop makes at most one call per key, and every call is to the static member
      named after a visited key, so the hook name never reaches a class. */
  lemma {:induction false} SelfProbeCallsMember(t: Table, ks: seq<string>)
    ensures |SelfProbeCalls(t, ks)| <= |ks|
    ensures forall i :: 0 <= i < |SelfProbeCalls(t, ks)| ==>
              SelfProbeCalls(t, ks)[i].member == SelfProbeCalls(t, ks)[i].key && SelfProbeCalls(t, ks)[i].key in ks
    decreases |ks|
  {
    if ks != [] {
      var pre := ks[..|ks| - 1];
      SelfProbeCallsMember(t, pre);
      assert forall k :: k in pre ==> k in ks;
    }
  }

  /** After the loop has run over `ks`, a key is gone exactly when it was visited and its
      class has a static member named after the key that returns something other than
      `false`; every remaining key keeps its class. */
  lemma {:induction false} SelfProbeOutcome(t: Table, ks: seq<string>)
    requires WellFormed(t)
    ensures forall k :: k in SelfProbeFrom(t, ks).classes <==>
                        k in t.classes && (k !in ks || StaticHook(t.classes[k], k) != ReturnsOther)
    ensures forall k :: k in SelfProbeFrom(t, ks).classes ==> SelfProbeFrom(t, ks).classes[k] == t.classes[k]
    decreases |ks|
  {
    if ks != [] {
      var pre := ks[..|ks| - 1];
      assert ks == pre + [ks[|ks| - 1]];
      SelfProbeOutcome(t, pre);
    }
  }

  /** The key the loop visits next is still registered: nothing visited so far removed it. */
  lemma SelfProbeNextPresent(t: Table, i: nat)
    requires WellFormed(t) && i < |t.order|
    ensures t.order[i] in SelfProbeFrom(t, t.order[..i]).classes
  {
    assert t.order == t.order[..i] + [t.order[i]] + t.order[i + 1..];
    DistinctSplit(t.order[..i], t.order[i], t.order[i + 1..]);
    SelfProbeOutcome(t, t.order[..i]);
  }

  /** The keys of `s`, in order, that the loop as written keeps: all but those whose
      class has a static member named after the key returning something other than
      `false`. */
  function Survivors(s: seq<string>, classes: map<string, ClassRef>): seq<string>
    decreases |s|
  {
    if s == [] then []
    else
      var x := s[|s| - 1];
      Survivors(s[..|s| - 1], classes) +
      (if x in classes && StaticHook(classes[x], x) == ReturnsOther then [] else [x])
  }

  lemma {:induction false} SurvivorsSubset(s: seq<string>, classes: map<string, ClassRef>)
    ensures forall x :: x in Survivors(s, classes) ==> x in s
    decreases |s|
  {
    if s != [] {
      SurvivorsSubset(s[..|s| - 1], classes);
    }
  }

  /** Once the loop has run over the keys `done` in front of the snapshot, the survivors
      among them stay, in order, in front of the untouched `rest`. */
  lemma {:induction false} SelfProbePrefixOrder(t: Table, done: seq<string>, rest: seq<string>)
    requires WellFormed(t) && t.order == done + rest
    ensures SelfProbeFrom(t, done).order == Survivors(done, t.classes) + rest
    decreases |done|
  {
    if done == [] {
      assert t.order == rest;
    } else {
      var pre := done[..|done| - 1];
      var x := done[|done| - 1];
      assert done == pre + [x];
      assert t.order == pre + ([x] + rest);
      SelfProbePrefixOrder(t, pre, [x] + rest);
      var p := SelfProbeFrom(t, pre);
      var v := Survivors(pre, t.classes);
      assert p.order == v + [x] + rest;
      DistinctSplit(pre, x, rest);
      SelfProbeOutcome(t, pre);
      if StaticHook(t.classes[x], x) == ReturnsOther {
        SurvivorsSubset(pre, t.classes);
        WithoutMiddle(v, x, rest);
      }
    }
  }

  /** The loop as written, run over the whole snapshot, keeps exactly the keys whose
      class has no callable static member named after the key, or one returning
      `false`, with their classes and in their original relative order. */
  lemma SelfProbeWhole(t: Table)
    requires WellFormed(t)
    ensures SelfProbeFrom(t, t.order).order == Survivors(t.order, t.classes)
    ensures forall k :: k in SelfProbeFrom(t, t.order).classes <==>
                        k in t.classes && StaticHook(t.classes[k], k) != ReturnsOther
    ensures forall k :: k in SelfProbeFrom(t, t.order).classes ==>
                        SelfProbeFrom(t, t.order).classes[k] == t.classes[k]
  {
    SelfProbeOutcome(t, t.order);
    SelfProbePrefixOrder(t, t.order, []);
    assert t.order + [] == t.order;
  }

  /** One more pass of the loop is one more `SelfProbed` on the table the loop has left,
      and adds that pass's call. */
  lemma SelfProbeStep(t: Table, i: nat)
    requires i < |t.order|
    ensures SelfProbeFrom(t, t.order[..i + 1]) == SelfProbed(SelfProbeFrom(t, t.order[..i]), t.order[i])
    ensures SelfProbeCalls(t, t.order[..i + 1]) ==
            SelfProbeCalls(t, t.order[..i]) + SelfProbeCall(SelfProbeFrom(t, t.order[..i]), t.order[i])
  {
    var done := t.order[..i + 1];
    assert done[..i] == t.order[..i] && done[i] == t.order[i];
  }

  // ---------------------------------------------------------------------------
  // The factory
  // ---------------------------------------------------------------------------

  class Factory {
    /** Name of the instance method `Create` hands the configuration to; empty means
        the configuration goes to the constructor. */
    var initMethod: string
    /** The keys of `$$registry`, in insertion order. */
    var order: seq<string>
    /** The `$$registry` object: key -> class. */
    var classes: map<string, ClassRef>
    /** Every static member invoked by `Clear`, oldest first. */
    ghost var hookLog: seq<HookCall>

    function Contents(): Table
      reads this
    {
      Table(order, classes)
    }

    ghost predicate Valid()
      reads this
    {
      WellFormed(Contents())
    }

    constructor()
      ensures Valid()
      ensures initMethod == "" && Contents() == Empty && hookLog == []
    {
      initMethod := "";
      order := [];
      classes := map[];
      hookLog := [];
    }

    /** Builds an instance of the class given directly or registered under a key; absent
        when nothing resolves. */
    method Create(target: Target, config: Value := Undefined) returns (r: Option<Instance>)
      ensures r.None? <==> target.NoTarget? || (target.ByKey? && target.key !in classes)
      ensures r.Some? ==> r.value.cls == if target.ByClass? then target.cls else classes[target.key]
      ensures r.Some? && initMethod == "" ==> r.value.ctorArg == Some(config) && r.value.initArg == None
      ensures r.Some? && initMethod != "" ==>
                r.value.ctorArg == None &&
                r.value.initArg == if initMethod in r.value.cls.instanceMethods then Some(config) else None
    {
      var c := Resolve(Contents(), target);
      if c.Some? {
        r := Some(Construct(c.value, initMethod, config));
      } else {
        r := None;
      }
    }

    /** With no hook name the registry is replaced by an empty one; with one, each key of
        a snapshot is visited in order and deleted when its class has a callable static
        member named after the KEY that does not return `false`. */
    method Clear(hook: string := "")
      requires Valid()
      modifies this
      ensures Valid() && initMethod == old(initMethod)
      ensures hook == "" ==> Contents() == Empty && hookLog == old(hookLog)
      ensures hook != "" ==> Contents() == SelfProbeFrom(old(Contents()), old(order))
      ensures hook != "" ==> hookLog == old(hookLog) + SelfProbeCalls(old(Contents()), old(order))
      ensures hook != "" ==>
                forall k :: k in classes <==> k in old(classes) && StaticHook(old(classes)[k], k) != ReturnsOther
      ensures hook != "" ==> order == Survivors(old(order), old(classes))
    {
      if hook != "" {
        var keys := order;
        ghost var t0 := Contents();
        var i := 0;
        while i < |keys|
          invariant 0 <= i <= |keys| && keys == t0.order
          invariant Valid() && initMethod == old(initMethod)
          invariant Contents() == SelfProbeFrom(t0, t0.order[..i])
          invariant hookLog == old(hookLog) + SelfProbeCalls(t0, t0.order[..i])
        {
          ghost var calls := SelfProbeCalls(t0, t0.order[..i]);
          SelfProbeStep(t0, i);
          SelfProbeNextPresent(t0, i);
          SelfProbeKey(keys[i]);
          assert hookLog == old(hookLog) + (calls + SelfProbeCall(SelfProbeFrom(t0, t0.order[..i]), keys[i]));
          i := i + 1;
        }
        assert t0.order[..|keys|] == keys;
        SelfProbeWhole(t0);
      } else {
        order := [];
        classes := map[];
      }
    }

    /** One pass of the clear loop as written, over a key that is still registered: call
        the class's static member named after the key when it is callable, and delete the
        key when that member returned something other than `false`. */
    method SelfProbeKey(k: string)
      requires Valid() && k in classes
      modifies this
      ensures Valid() && initMethod == old(initMethod)
      ensures Contents() == SelfProbed(old(Contents()), k)
      ensures hookLog == old(hookLog) + SelfProbeCall(old(Contents()), k)
    {
      var c := classes[k];
      var outcome := StaticHook(c, k);
      if outcome != NotCallable {
        hookLog := hookLog + [HookCall(k, c, k)];
      }
      if outcome == ReturnsOther {
        WithoutDistinct(order, k);
        classes := classes - {k};
        order := Without(order, k);
      }
    }

    /** One pass of the corrected clear loop over a key that is still registered: call
        the class's static `hook` when it is callable, and delete the key unless it
        returned exactly `false`. */
    method ClearKey(k: string, hook: string)
      requires Valid() && k in classes
      modifies this
      ensures Valid() && initMethod == old(initMethod)
      ensures Contents() == Unregistered(old(Contents()), k, hook)
      ensures hookLog == old(hookLog) + UnregisterCalls(old(Contents()), k, hook)
    {
      var c := classes[k];
      var outcome := StaticHook(c, hook);
      if outcome != NotCallable {
        hookLog := hookLog + [HookCall(k, c, hook)];
      }
      if outcome != ReturnsFalse {
        WithoutDistinct(order, k);
        classes := classes - {k};
        order := Without(order, k);
      }
    }

    /** Clearing as its documentation describes and as the later variant does it: the
        static member probed is the one named `hook`, and the key goes unless that
        member is callable and returns exactly `false`. */
    method ClearAsDocumented(hook: string := "")
      requires Valid()
      modifies this
      ensures Valid() && initMethod == old(initMethod)
      ensures hook == "" ==> Contents() == Empty && hookLog == old(hookLog)
      ensures hook != "" ==> Contents() == ClearFrom(old(Contents()), old(order), hook)
      ensures hook != "" ==> hookLog == old(hookLog) + ClearCalls(old(Contents()), old(order), hook)
      ensures hook != "" ==>
                forall k :: k in classes <==> k in old(classes) && StaticHook(old(classes)[k], hook) == ReturnsFalse
    {
      if hook != "" {
        var keys := order;
        ghost var t0 := Contents();
        var i := 0;
        while i < |keys|
          invariant 0 <= i <= |keys| && keys == t0.order
          invariant Valid() && initMethod == old(initMethod)
          invariant Contents() == ClearFrom(t0, t0.order[..i], hook)
          invariant hookLog == old(hookLog) + ClearCalls(t0, t0.order[..i], hook)
        {
          ghost var calls := ClearCalls(t0, t0.order[..i], hook);
          ClearStep(t0, hook, i);
          ClearNextPresent(t0, hook, i);
          ClearKey(keys[i], hook);
          assert hookLog == old(hookLog) + (calls + UnregisterCalls(ClearFrom(t0, t0.order[..i], hook), keys[i], hook));
          i := i + 1;
        }
        assert t0.order[..|keys|] == keys;
        ClearOutcome(t0, hook);
      } else {
        order := [];
        classes := map[];
      }
    }

    method Get(name: string) returns (r: Option<ClassRef>)
      ensures r.Some? <==> name in classes
      ensures r.Some? ==> r.value == classes[name]
    {
      if name in classes {
        r := Some(classes[name]);
      } else {
        r := None;
      }
    }

    /** Stores `c` under exactly `name`, overwriting any earlier binding. */
    method Register(name: string, c: ClassRef)
      requires Valid()
      modifies this
      ensures Valid()
      ensures Contents() == Put(old(Contents()), name, c)
      ensures initMethod == old(initMethod) && hookLog == old(hookLog)
    {
      if name !in classes {
        order := order + [name];
      }
      classes := classes[name := c];
    }

    /** Deletes `name` without consulting any hook; a missing key is left alone. */
    method Unregister(name: string)
      requires Valid()
      modifies this
      ensures Valid()
      ensures Contents() == Remove(old(Contents()), name)
      ensures initMethod == old(initMethod) && hookLog == old(hookLog)
    {
      WithoutDistinct(order, name);
      classes := classes - {name};
      order := Without(order, name);
    }
  }

  /** The module-level `instances` object behind the static accessor `i`. */
  class Instances {
    var factories: map<string, Factory>

    /** Different names never share a factory, and every cached factory is usable. */
    ghost predicate Valid()
      reads this, factories.Values
    {
      (forall a, b :: a in factories && b in factories && a != b ==> factories[a] != factories[b]) &&
      (forall n :: n in factories ==> factories[n].Valid())
    }

    constructor()
      ensures Valid() && factories == map[]
    {
      factories := map[];
    }

    /** The factory named `name` (the empty name when omitted), created on first use. */
    method I(name: string := "") returns (f: Factory)
      requires Valid()
      modifies this
      ensures Valid() && f.Valid()
      ensures name in factories && factories[name] == f
      ensures forall n :: n in factories && n != name ==> factories[n] != f
      ensures name in old(factories) ==> f == old(factories)[name] && factories == old(factories)
      ensures name !in old(factories) ==>
                fresh(f) && factories == old(factories)[name := f] &&
                f.Valid() && f.initMethod == "" && f.Contents() == Empty && f.hookLog == []
    {
      if name !in factories {
        var created := new Factory();
        factories := factories[name := created];
      }
      f := factories[name];
    }
  }

  // ---------------------------------------------------------------------------
  // The discrepancy between the two clears
  // ---------------------------------------------------------------------------

  /** A class whose static `destroy` returns nothing, registered under a key it has no
      static member for, as in the three-key clear('destroy') scenario: the clear as
      written keeps the key and never calls `destroy`, while the documented clear calls
      `destroy` once and empties the registry. */
  lemma ClearProbesKeyNotHook()
    ensures var c := ClassRef(0, "Destroyable", {}, map["destroy" := ReturnsOther]);
            var t := Table(["ClearWithMethod1"], map["ClearWithMethod1" := c]);
            && SelfProbeFrom(t, t.order) == t
            && SelfProbeCalls(t, t.order) == []
            && ClearFrom(t, t.order, "destroy") == Empty
            && ClearCalls(t, t.order, "destroy") == [HookCall("ClearWithMethod1", c, "destroy")]
  {
    var c := ClassRef(0, "Destroyable", {}, map["destroy" := ReturnsOther]);
    var t := Table(["ClearWithMethod1"], map["ClearWithMethod1" := c]);
    assert t.order[..0] == [];
    assert StaticHook(c, "ClearWithMethod1") == NotCallable;
    assert StaticHook(c, "destroy") == ReturnsOther;
    ClearEmptiesWithoutVeto(t, "destroy");
  }
}

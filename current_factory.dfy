/** The factory of src/Factory.js: classes registered under string keys (falling back
    to the class's own name), instances built by key or class with one of two
    strategies, removal guarded by an optional static teardown hook, and the
    module-level cache of named factories. */
module CurrentFactory {
  import opened Registry

  class Factory {
    /** Name of the instance method `Create` hands the configuration to; empty means
        the configuration goes to the constructor. A public property. */
    var initMethod: string
    /** The keys of the private registry object, in insertion order. */
    var order: seq<string>
    /** The private registry object: key -> class. */
    var classes: map<string, ClassRef>
    /** Every static teardown hook invoked so far, oldest first. */
    ghost var hookLog: seq<HookCall>

    function Contents(): Table
      reads this
    {
      Table(order, classes)
    }

    ghost predicate Valid()
      reads this
    {
      WellFormed(Contents())
    }

    constructor()
      ensures Valid()
      ensures initMethod == "" && Contents() == Empty && hookLog == []
    {
      initMethod := "";
      order := [];
      classes := map[];
      hookLog := [];
    }

    /** Stores `c` under `name`, or under the class's own name when `name` is empty;
        an existing binding is overwritten without running any hook. */
    method Register(name: string, c: ClassRef)
      requires Valid()
      modifies this
      ensures Valid()
      ensures Contents() == Put(old(Contents()), if name == "" then c.name else name, c)
      ensures initMethod == old(initMethod) && hookLog == old(hookLog)
    {
      var key := if name == "" then c.name else name;
      if key !in classes {
        order := order + [key];
      }
      classes := classes[key := c];
    }

    method Get(name: string) returns (r: Option<ClassRef>)
      ensures r.Some? <==> name in classes
      ensures r.Some? ==> r.value == classes[name]
    {
      if name in classes {
        r := Some(classes[name]);
      } else {
        r := None;
      }
    }

    /** A copy of the registry; being a value, later changes to it cannot reach the
        factory, nor later changes to the factory reach it. */
    method RegistryCopy() returns (copy: Table)
      ensures copy.order == order && copy.classes == classes
    {
      copy := Table(order, classes);
    }

    /** Builds an instance of the class given directly or registered under a key; absent
        when nothing resolves. */
    method Create(target: Target, config: Value := Undefined) returns (r: Option<Instance>)
      ensures r.None? <==> target.NoTarget? || (target.ByKey? && target.key !in classes)
      ensures r.Some? ==> r.value.cls == if target.ByClass? then target.cls else classes[target.key]
      ensures r.Some? && initMethod == "" ==> r.value.ctorArg == Some(config) && r.value.initArg == None
      ensures r.Some? && initMethod != "" ==>
                r.value.ctorArg == None &&
                r.value.initArg == if initMethod in r.value.cls.instanceMethods then Some(config) else None
    {
      var c := Resolve(Contents(), target);
      if c.Some? {
        r := Some(Construct(c.value, initMethod, config));
      } else {
        r := None;
      }
    }

    /** Removes `name` unless its class has a callable static member `hook` that
        returns exactly `false`; a missing key is left alone. */
    method Unregister(name: string, hook: string := "")
      requires Valid()
      modifies this
      ensures Valid()
      ensures Contents() == Unregistered(old(Contents()), name, hook)
      ensures hookLog == old(hookLog) + UnregisterCalls(old(Contents()), name, hook)
      ensures initMethod == old(initMethod)
    {
      if name in classes {
        var c := classes[name];
        var outcome := StaticHook(c, hook);
        if outcome != NotCallable {
          hookLog := hookLog + [HookCall(name, c, hook)];
        }
        if outcome != ReturnsFalse {
          WithoutDistinct(order, name);
          classes := classes - {name};
          order := Without(order, name);
        }
      }
    }

    /** Unregisters every key of a snapshot of the registry, in insertion order. */
    method Clear(hook: string := "")
      requires Valid()
      modifies this
      ensures Valid()
      ensures Contents() == ClearFrom(old(Contents()), old(order), hook)
      ensures hookLog == old(hookLog) + ClearCalls(old(Contents()), old(order), hook)
      ensures forall k :: k in classes <==> k in old(classes) && StaticHook(old(classes)[k], hook) == ReturnsFalse
      ensures order == Vetoed(old(order), old(classes), hook)
      ensures initMethod == old(initMethod)
    {
      var keys := order;
      ghost var t0 := Contents();
      var i := 0;
      while i < |keys|
        invariant 0 <= i <= |keys| && keys == t0.order
        invariant Valid() && initMethod == old(initMethod)
        invariant Contents() == ClearFrom(t0, t0.order[..i], hook)
        invariant hookLog == old(hookLog) + ClearCalls(t0, t0.order[..i], hook)
      {
        ghost var calls := ClearCalls(t0, t0.order[..i], hook);
        ClearStep(t0, hook, i);
        Unregister(keys[i], hook);
        assert hookLog == old(hookLog) + (calls + UnregisterCalls(ClearFrom(t0, t0.order[..i], hook), keys[i], hook));
        i := i + 1;
      }
      assert t0.order[..|keys|] == keys;
      ClearOutcome(t0, hook);
    }
  }

  /** The module-level `instances` object behind the static accessor `i`: at most one
      factory per name, created on first use and never dropped. */
  class Instances {
    var factories: map<string, Factory>

    /** Different names never share a factory, and every cached factory is usable. */
    ghost predicate Valid()
      reads this, factories.Values
    {
      (forall a, b :: a in factories && b in factories && a != b ==> factories[a] != factories[b]) &&
      (forall n :: n in factories ==> factories[n].Valid())
    }

    constructor()
      ensures Valid() && factories == map[]
    {
      factories := map[];
    }

    /** The factory named `name` (the empty name when omitted), created on first use. */
    method I(name: string := "") returns (f: Factory)
      requires Valid()
      modifies this
      ensures Valid() && f.Valid()
      ensures name in factories && factories[name] == f
      ensures forall n :: n in factories && n != name ==> factories[n] != f
      ensures name in old(factories) ==> f == old(factories)[name] && factories == old(factories)
      ensures name !in old(factories) ==>
                fresh(f) && factories == old(factories)[name := f] &&
                f.Valid() && f.initMethod == "" && f.Contents() == Empty && f.hookLog == []
    {
      if name !in factories {
        var created := new Factory();
        factories := factories[name := created];
      }
      f := factories[name];
    }
  }
}

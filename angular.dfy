/**
 * The application object of src/Angular.js (class `Angular`), the older
 * twin of `Angie`: four component tables (no factories), the reverse index
 * `_registry`, the config queue and `_dependencies`. Unlike `Angie`,
 * `service` checks nothing and there is no `$$loaded` guard.
 */
module AngularApp {
  import opened Js
  import opened Wrappers
  import Admission
  import Registry
  import ConfigQueue
  import DependencyList
  import Collections

  /** The component tables `_register` writes, named by `KindName`. */
  datatype Kind = Constants | Services | Controllers | Directives

  function KindName(k: Kind): string {
    match k
    case Constants => "constants"
    case Services => "services"
    case Controllers => "Controllers"
    case Directives => "directives"
  }

  /** The warnings the application logs instead of throwing. */
  datatype Warning =
    | InvalidRegistration(component: string, name: string)
    | InvalidConfigType

  /** The warning log after `_register(kind, name, obj)`. */
  function RegisterWarnings(log: seq<Warning>, kind: Kind, name: string, obj: Value): seq<Warning> {
    if Registry.Accepts(name, obj) then log else log + [InvalidRegistration(KindName(kind), name)]
  }

  /** Updating one entry of the four-table display. */
  lemma TablesUpdate<V>(c: V, s: V, ct: V, d: V, m: V)
    ensures map[Constants := m, Services := s, Controllers := ct, Directives := d]
            == map[Constants := c, Services := s, Controllers := ct, Directives := d][Constants := m]
    ensures map[Constants := c, Services := m, Controllers := ct, Directives := d]
            == map[Constants := c, Services := s, Controllers := ct, Directives := d][Services := m]
    ensures map[Constants := c, Services := s, Controllers := m, Directives := d]
            == map[Constants := c, Services := s, Controllers := ct, Directives := d][Controllers := m]
    ensures map[Constants := c, Services := s, Controllers := ct, Directives := m]
            == map[Constants := c, Services := s, Controllers := ct, Directives := d][Directives := m]
  {
  }

  class Angular {
    var constants: map<string, Value>
    var configs: seq<ConfigQueue.ConfigRec>
    var services: map<string, Value>
    var controllers: map<string, Value>
    var directives: map<string, Value>
    var dependencies: seq<string>        // `_dependencies`
    var registry: map<string, Kind>      // `_registry`
    var warnings: seq<Warning>
    /** The queue positions of the configs handed to the injector, in call order. */
    ghost var fireLog: seq<nat>

    /** The registry as a value: the four tables and the reverse index. */
    ghost function Store(): Registry.Store<Kind>
      reads this`constants, this`services, this`controllers, this`directives
      reads this`registry
    {
      Registry.Store(
        map[Constants := constants, Services := services,
            Controllers := controllers, Directives := directives],
        registry)
    }

    ghost predicate Valid()
      reads this
    {
      && Registry.Sound(Store())
      && ConfigQueue.Logged(configs, fireLog)
    }

    /** `this[component]`. */
    function TableOf(k: Kind): (t: map<string, Value>)
      reads this`constants, this`services, this`controllers, this`directives
      reads this`registry
      ensures t == Registry.Table(Store(), k)
    {
      match k
      case Constants => constants
      case Services => services
      case Controllers => controllers
      case Directives => directives
    }

    constructor()
      ensures Valid()
      ensures forall k :: TableOf(k) == map[]
      ensures registry == map[] && configs == [] && dependencies == []
      ensures warnings == [] && fireLog == []
    {
      constants, services, controllers, directives := map[], map[], map[], map[];
      configs, dependencies, registry := [], [], map[];
      warnings, fireLog := [], [];
    }

    /** Replaces the table of kind `k`. */
    method SetTable(k: Kind, m: map<string, Value>)
      modifies this`constants, this`services, this`controllers, this`directives
      ensures Store() == old(Store()).(tables := old(Store()).tables[k := m])
    {
      TablesUpdate(constants, services, controllers, directives, m);
      match k
      case Constants => constants := m;
      case Services => services := m;
      case Controllers => controllers := m;
      case Directives => directives := m;
    }

    /**
     * `_register(component, name, obj)`: with a truthy name and component,
     * record the kind in `_registry` and the component in its table (last
     * write wins); otherwise log a warning. Returns `this`.
     */
    method Register(kind: Kind, name: string, obj: Value) returns (self: Angular)
      requires Valid()
      modifies this`constants, this`services, this`controllers, this`directives
      modifies this`registry, this`warnings
      ensures Valid()
      ensures Store() == Registry.Register(old(Store()), kind, name, obj)
      ensures warnings == RegisterWarnings(old(warnings), kind, name, obj)
      ensures self == this
    {
      Registry.RegisterSound(Store(), kind, name, obj);
      if Registry.Accepts(name, obj) {
        registry := registry[name := kind];
        SetTable(kind, TableOf(kind)[name := obj]);
      } else {
        warnings := warnings + [InvalidRegistration(KindName(kind), name)];
      }
      self := this;
    }

    /**
     * `_tearDown(name)`: a registered name leaves `_registry` and the one
     * table `_registry[name]` names. An unregistered name inherited from
     * `Object.prototype` passes the guard, and `delete this[type][name]`
     * then throws a TypeError with nothing changed; any other name is a no-op.
     */
    method TearDown(name: string) returns (r: Result<Angular, Admission.Thrown>)
      requires Valid()
      modifies this`constants, this`services, this`controllers, this`directives
      modifies this`registry
      ensures Valid()
      ensures var w := Registry.TearDownAsWritten(old(Store()), name);
        && (r.Failure? <==> w.Failure?)
        && (r.Failure? ==> r.error == w.error && Store() == old(Store()))
        && (r.Success? ==> r.value == this && Store() == w.value)
    {
      Registry.TearDownSound(Store(), name);
      if name != "" && name !in registry && name in Registry.OBJECT_PROTOTYPE_NAMES {
        r := Failure(Admission.TypeError);
      } else {
        if name != "" && name in registry {
          var kind := registry[name];
          registry := registry - {name};
          SetTable(kind, TableOf(kind) - {name});
        }
        r := Success(this);
      }
    }

    method Constant(name: string, obj: Value) returns (self: Angular)
      requires Valid()
      modifies this`constants, this`services, this`controllers, this`directives
      modifies this`registry, this`warnings
      ensures Valid()
      ensures Store() == Registry.Register(old(Store()), Constants, name, obj)
      ensures warnings == RegisterWarnings(old(warnings), Constants, name, obj)
      ensures self == this
    {
      self := Register(Constants, name, obj);
    }

    method Controller(name: string, obj: Value) returns (self: Angular)
      requires Valid()
      modifies this`constants, this`services, this`controllers, this`directives
      modifies this`registry, this`warnings
      ensures Valid()
      ensures Store() == Registry.Register(old(Store()), Controllers, name, obj)
      ensures warnings == RegisterWarnings(old(warnings), Controllers, name, obj)
      ensures self == this
    {
      self := Register(Controllers, name, obj);
    }

    /** `service(name, obj)`: registered without a type check. */
    method Service(name: string, obj: Value) returns (self: Angular)
      requires Valid()
      modifies this`constants, this`services, this`controllers, this`directives
      modifies this`registry, this`warnings
      ensures Valid()
      ensures Store() == Registry.Register(old(Store()), Services, name, obj)
      ensures warnings == RegisterWarnings(old(warnings), Services, name, obj)
      ensures self == this
    {
      self := Register(Services, name, obj);
    }

    /**
     * `directive(name, obj)`. A function is handed to the injector, whose
     * result is the parameter `produced`; the definition then goes through
     * Admission.CheckDirective, and only one that passes is registered.
     */
    method Directive(name: string, obj: Value, produced: Value) returns (r: Result<Angular, Admission.Thrown>)
      requires Valid()
      modifies this`constants, this`services, this`controllers, this`directives
      modifies this`registry, this`warnings
      ensures Valid()
      ensures var checked := Admission.CheckDirective(name, if obj.Func? then produced else obj);
        && (r.Failure? <==> checked.Failure?)
        && (r.Failure? ==> r.error == checked.error && Store() == old(Store()) && warnings == old(warnings))
        && (r.Success? ==>
              && r.value == this
              && Store() == Registry.Register(old(Store()), Directives, name, checked.value)
              && warnings == RegisterWarnings(old(warnings), Directives, name, checked.value))
    {
      var dir := if TypeOf(obj) != "function" then obj else produced;
      match Admission.CheckDirective(name, dir)
      case Failure(e) =>
        r := Failure(e);
      case Success(d) =>
        var self := Register(Directives, name, d);
        r := Success(self);
    }

    /** `config(fn)`: enqueue a function as unfired, or log a warning. Returns `this`. */
    method Config(fn: Value) returns (self: Angular)
      requires Valid()
      modifies this`configs, this`warnings
      ensures Valid()
      ensures configs == ConfigQueue.Enqueue(old(configs), fn)
      ensures warnings == if TypeOf(fn) == "function" then old(warnings) else old(warnings) + [InvalidConfigType]
      ensures self == this
    {
      ConfigQueue.EnqueueLogged(configs, fireLog, fn);
      if TypeOf(fn) == "function" {
        configs := configs + [ConfigQueue.ConfigRec(fn, false)];
      } else {
        warnings := warnings + [InvalidConfigType];
      }
      self := this;
    }

    /**
     * The last step of `bootstrap`: every config not yet fired is handed to
     * the injector once, in queue order, and marked fired.
     */
    method FireConfigs()
      requires Valid()
      modifies this`configs, this`fireLog
      ensures Valid()
      ensures configs == ConfigQueue.AllFired(old(configs))
      ensures fireLog == old(fireLog) + ConfigQueue.Unfired(old(configs))
    {
      ghost var before, logBefore := configs, fireLog;
      var i := 0;
      while i < |configs|
        invariant 0 <= i <= |configs| == |before|
        invariant forall j :: 0 <= j < i ==> configs[j] == before[j].(fired := true)
        invariant forall j :: i <= j < |before| ==> configs[j] == before[j]
        invariant fireLog == logBefore + ConfigQueue.UnfiredBelow(before, i)
      {
        if !configs[i].fired {
          // `new $injectionBinder(v.fn)()` runs here
          assert ConfigQueue.UnfiredBelow(before, i + 1) == ConfigQueue.UnfiredBelow(before, i) + [i];
          assert logBefore + ConfigQueue.UnfiredBelow(before, i + 1) == fireLog + [i];
          fireLog := fireLog + [i];
          configs := configs[i := configs[i].(fired := true)];
        } else {
          assert ConfigQueue.UnfiredBelow(before, i + 1) == ConfigQueue.UnfiredBelow(before, i);
        }
        i := i + 1;
      }
      assert configs == ConfigQueue.AllFired(before);
      ConfigQueue.AllFiredLogged(before, logBefore);
    }

    /**
     * The dedup step of `loadDependencies(dependencies)` as written: each input
     * name is compared with `_dependencies` as it was before the call, and the names
     * not found there are appended in input order and returned (they are the
     * ones the source goes on to load). A name repeated in the input is thus
     * recorded twice; the list stays free of repeats only when the input is.
     */
    method LoadDependencies(deps: seq<string>) returns (added: seq<string>)
      requires Valid()
      modifies this`dependencies
      ensures Valid()
      ensures added == DependencyList.FilterUnseen(old(dependencies), deps)
      ensures dependencies == old(dependencies) + added
      ensures Collections.NoDuplicates(deps) ==> added == DependencyList.Fresh(old(dependencies), deps)
      ensures Collections.NoDuplicates(old(dependencies)) && Collections.NoDuplicates(deps) ==>
                Collections.NoDuplicates(dependencies)
    {
      added := [];
      var i := 0;
      assert deps[i..] == deps;
      while i < |deps|
        invariant 0 <= i <= |deps|
        invariant added + DependencyList.FilterUnseen(dependencies, deps[i..])
                  == DependencyList.FilterUnseen(dependencies, deps)
      {
        assert deps[i..][1..] == deps[i + 1..];
        if deps[i] !in dependencies {
          added := added + [deps[i]];
        }
        i := i + 1;
      }
      assert deps[i..] == [];
      if Collections.NoDuplicates(deps) {
        DependencyList.FreshMatchesFilter(dependencies, deps);
        if Collections.NoDuplicates(dependencies) {
          DependencyList.FreshKeepsNoDuplicates(dependencies, deps);
        }
      }
      dependencies := dependencies + added;
    }
  }
}

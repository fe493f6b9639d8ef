/**
 * The component registry shared by both application classes, as a value:
 * one table per component kind (`constants`, `services`, ...) from name to
 * component, and the reverse index (`$$registry` in src/Angie.js, `_registry`
 * in src/Angular.js) from name to the kind it was last registered under.
 * The classes in angie.dfy and angular.dfy keep these as fields and state
 * every update in terms of the functions here. `K` is the class's set of kinds.
 */
module Registry {
  import opened Js
  import opened Wrappers
  import Admission

  datatype Store<K> = Store(tables: map<K, map<string, Value>>, index: map<string, K>)

  /** The table of kind `k` (`this[component]`). */
  function Table<K>(s: Store<K>, k: K): map<string, Value> {
    if k in s.tables then s.tables[k] else map[]
  }

  /** The guard `if (name && obj)`: the empty string is the only falsy name. */
  predicate Accepts(name: string, obj: Value) {
    name != "" && Truthy(obj)
  }

  /**
   * `$$register(component, name, obj)` / `_register`: an accepted
   * registration records the kind under the name in the index and the
   * component under the name in that kind's table, overwriting any earlier
   * value, and changes no other table; a falsy name or component (the source
   * only logs a warning) leaves the store as it was.
   */
  function Register<K(!new)>(s: Store<K>, k: K, name: string, obj: Value): (r: Store<K>)
    ensures Accepts(name, obj) ==>
              && r.index == s.index[name := k]
              && Table(r, k) == Table(s, k)[name := obj]
              && (forall k' :: k' != k ==> Table(r, k') == Table(s, k'))
    ensures !Accepts(name, obj) ==> r == s
  {
    if Accepts(name, obj) then
      Store(s.tables[k := Table(s, k)[name := obj]], s.index[name := k])
    else
      s
  }

  /**
   * `$$tearDown(name)` / `_tearDown` with the guard `this.$$registry[name]`
   * read as "name is an own key of the index" (see TearDownAsWritten): a
   * registered name is removed from the index and from the table of the kind
   * the index recorded, and every other table is untouched; the empty name
   * and an unregistered name change nothing.
   */
  function TearDown<K(!new)>(s: Store<K>, name: string): (r: Store<K>)
    ensures name != "" && name in s.index ==>
              && r.index == s.index - {name}
              && Table(r, s.index[name]) == Table(s, s.index[name]) - {name}
              && (forall k :: k != s.index[name] ==> Table(r, k) == Table(s, k))
    ensures name == "" || name !in s.index ==> r == s
  {
    if name != "" && name in s.index then
      var k := s.index[name];
      Store(s.tables[k := Table(s, k) - {name}], s.index - {name})
    else
      s
  }

  /**
   * The store invariant both classes keep: every indexed name is present in
   * the table its kind names, and only truthy components are stored. The
   * converse of the first part does not hold: see StaleEntryAfterTearDown.
   */
  ghost predicate Sound<K>(s: Store<K>) {
    && (forall name :: name in s.index ==> name in Table(s, s.index[name]))
    && (forall k, name :: k in s.tables && name in s.tables[k] ==> Truthy(s.tables[k][name]))
  }

  lemma RegisterSound<K(!new)>(s: Store<K>, k: K, name: string, obj: Value)
    requires Sound(s)
    ensures Sound(Register(s, k, name, obj))
  {
  }

  lemma TearDownSound<K(!new)>(s: Store<K>, name: string)
    requires Sound(s)
    ensures Sound(TearDown(s, name))
  {
  }

  /** Registering the same name and kind twice keeps only the last component. */
  lemma LastWriteWins<K(!new)>(s: Store<K>, k: K, name: string, a: Value, b: Value)
    requires Accepts(name, b)
    ensures Register(Register(s, k, name, a), k, name, b) == Register(s, k, name, b)
  {
    var r1 := Register(s, k, name, a);
    assert Table(r1, k)[name := b] == Table(s, k)[name := b];
  }

  /**
   * Registration and tear-down are inverse: registering a name that is in
   * neither the index nor the target table, then tearing it down, restores
   * the store exactly.
   */
  lemma TearDownUndoesRegister<K(!new)>(s: Store<K>, k: K, name: string, obj: Value)
    requires Accepts(name, obj)
    requires k in s.tables
    requires name !in s.index && name !in Table(s, k)
    ensures TearDown(Register(s, k, name, obj), name) == s
  {
    var r := Register(s, k, name, obj);
    assert Table(r, k) - {name} == Table(s, k);
    assert r.index - {name} == s.index;
    assert s.tables[k := Table(s, k)] == s.tables;
  }

  /**
   * The index remembers only the last kind a name was registered under, so
   * after registering a name under `k1` and then `k2`, tear-down removes the
   * `k2` entry and leaves the older `k1` entry in place.
   */
  lemma StaleEntryAfterTearDown<K(!new)>(s: Store<K>, k1: K, k2: K, name: string, a: Value, b: Value)
    requires k1 != k2 && Accepts(name, a) && Accepts(name, b)
    ensures var t := TearDown(Register(Register(s, k1, name, a), k2, name, b), name);
      && name !in t.index
      && name !in Table(t, k2)
      && name in Table(t, k1) && Table(t, k1)[name] == a
  {
  }

  /** Own properties of every plain JavaScript object, inherited from `Object.prototype`. */
  const OBJECT_PROTOTYPE_NAMES: set<string> := {
    "constructor", "hasOwnProperty", "isPrototypeOf", "propertyIsEnumerable",
    "toLocaleString", "toString", "valueOf", "__proto__",
    "__defineGetter__", "__defineSetter__", "__lookupGetter__", "__lookupSetter__"
  }

  /**
   * `$$tearDown(name)` as the source writes it. `this.$$registry[name]` also
   * finds names inherited from `Object.prototype`, whose values are truthy;
   * for such a name, `this[type]` is undefined and `delete this[type][name]`
   * throws a TypeError after nothing has changed. When it throws, the own-key
   * reading would have changed nothing; otherwise the two agree.
   */
  function TearDownAsWritten<K(!new)>(s: Store<K>, name: string): (r: Result<Store<K>, Admission.Thrown>)
    ensures r.Failure? ==> r.error == Admission.TypeError && TearDown(s, name) == s
    ensures r.Success? ==> r.value == TearDown(s, name)
    ensures r.Success? <==> name == "" || name !in OBJECT_PROTOTYPE_NAMES || name in s.index
  {
    if name != "" && name !in s.index && name in OBJECT_PROTOTYPE_NAMES then
      Failure(Admission.TypeError)
    else
      Success(TearDown(s, name))
  }

  /**
   * Tearing down `toString` on a store where it was never registered throws
   * as written, where the intended behaviour is to do nothing.
   */
  lemma TearDownAsWrittenThrows<K(!new)>(s: Store<K>)
    requires "toString" !in s.index
    ensures TearDownAsWritten(s, "toString") == Failure(Admission.TypeError)
    ensures TearDown(s, "toString") == s
  {
  }
}

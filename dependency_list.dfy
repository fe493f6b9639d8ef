/**
 * The dedup step of `$$loadDependencies` (src/Angie.js) and
 * `loadDependencies` (src/Angular.js): names already in the list of loaded
 * dependencies are dropped and the rest are appended in input order.
 */
module DependencyList {
  import opened Collections

  /**
   * `dependencies.filter((v) => me.$dependencies.indexOf(v) === -1)` as
   * written: every input entry is compared with the list as it was before
   * the call, so an entry repeated in the input is kept twice.
   */
  function FilterUnseen(seen: seq<string>, deps: seq<string>): (r: seq<string>)
    ensures forall v :: v in r <==> v in deps && v !in seen
  {
    if deps == [] then []
    else if deps[0] in seen then FilterUnseen(seen, deps[1..])
    else [deps[0]] + FilterUnseen(seen, deps[1..])
  }

  /**
   * The dedup the documentation promises ("It will not load duplicate
   * modules"): an input entry is kept when it is neither loaded already nor
   * kept earlier in the same call.
   */
  function Fresh(seen: seq<string>, deps: seq<string>): (r: seq<string>)
    ensures forall v :: v in r <==> v in deps && v !in seen
    ensures NoDuplicates(r)
    decreases |deps|
  {
    if deps == [] then []
    else if deps[0] in seen then Fresh(seen, deps[1..])
    else
      var rest := Fresh(seen + [deps[0]], deps[1..]);
      assert forall j :: 0 <= j < |rest| ==> rest[j] in rest;
      [deps[0]] + rest
  }

  /**
   * The filter works entry by entry, in input order: one entry is kept
   * exactly when it is not loaded, and the result for an input split in two
   * is the result for the first part followed by the result for the second.
   * Together the two facts determine the result entry for entry, repeats included.
   */
  lemma {:induction false} FilterUnseenByEntry(seen: seq<string>, a: seq<string>, b: seq<string>, x: string)
    ensures FilterUnseen(seen, [x]) == if x in seen then [] else [x]
    ensures FilterUnseen(seen, a + b) == FilterUnseen(seen, a) + FilterUnseen(seen, b)
    decreases |a|
  {
    if a == [] {
      assert a + b == b;
    } else {
      assert (a + b)[1..] == a[1..] + b;
      FilterUnseenByEntry(seen, a[1..], b, x);
    }
  }

  /**
   * The intended dedup works through the input in order: the second part of
   * a split input is deduplicated against the loaded names plus those kept
   * from the first part, and its survivors follow the first part's.
   */
  lemma {:induction false} FreshByEntry(seen: seq<string>, a: seq<string>, b: seq<string>)
    ensures Fresh(seen, a + b) == Fresh(seen, a) + Fresh(seen + Fresh(seen, a), b)
    decreases |a|
  {
    if a == [] {
      assert a + b == b;
      assert seen + [] == seen;
    } else {
      var ab := a + b;
      assert ab[0] == a[0] && ab[1..] == a[1..] + b;
      if a[0] in seen {
        FreshByEntry(seen, a[1..], b);
      } else {
        var seen' := seen + [a[0]];
        var kept := Fresh(seen', a[1..]);
        FreshByEntry(seen', a[1..], b);
        assert Fresh(seen, ab) == [a[0]] + (kept + Fresh(seen' + kept, b));
        assert Fresh(seen, a) == [a[0]] + kept;
        assert seen + ([a[0]] + kept) == seen' + kept;
      }
    }
  }

  /** One entry on its own is kept exactly when it is not loaded yet. */
  lemma FreshSingle(seen: seq<string>, x: string)
    ensures Fresh(seen, [x]) == if x in seen then [] else [x]
  {
    assert [x][1..] == [];
  }

  /** Appending the fresh names keeps the loaded list free of duplicates. */
  lemma FreshKeepsNoDuplicates(seen: seq<string>, deps: seq<string>)
    requires NoDuplicates(seen)
    ensures NoDuplicates(seen + Fresh(seen, deps))
  {
    var r := Fresh(seen, deps);
    forall a, b | 0 <= a < b < |seen + r| ensures (seen + r)[a] != (seen + r)[b] {
      if a < |seen| && b >= |seen| {
        assert r[b - |seen|] in r;
      }
    }
  }

  /**
   * When the input itself has no repeated entry the two filters agree: the
   * result is the input entries not already loaded, in input order.
   */
  lemma {:induction false} FreshMatchesFilter(seen: seq<string>, deps: seq<string>)
    requires NoDuplicates(deps)
    ensures Fresh(seen, deps) == FilterUnseen(seen, deps)
    decreases |deps|
  {
    if deps != [] && deps[0] !in seen {
      var tail := deps[1..];
      assert deps[0] !in tail;
      FreshMatchesFilter(seen + [deps[0]], tail);
      FilterSkipsAbsent(seen, tail, deps[0]);
    } else if deps != [] {
      FreshMatchesFilter(seen, deps[1..]);
    }
  }

  /** Adding a name the input does not contain to `seen` does not change the filter. */
  lemma {:induction false} FilterSkipsAbsent(seen: seq<string>, deps: seq<string>, x: string)
    requires x !in deps
    ensures FilterUnseen(seen + [x], deps) == FilterUnseen(seen, deps)
    decreases |deps|
  {
    if deps != [] {
      FilterSkipsAbsent(seen, deps[1..], x);
    }
  }

  /** As written, a name repeated in one call is recorded twice. */
  lemma FilterKeepsRepeats()
    ensures FilterUnseen([], ["angie-orm", "angie-orm"]) == ["angie-orm", "angie-orm"]
    ensures Fresh([], ["angie-orm", "angie-orm"]) == ["angie-orm"]
    ensures !NoDuplicates(FilterUnseen([], ["angie-orm", "angie-orm"]))
  {
    var d: seq<string> := ["angie-orm", "angie-orm"];
    assert d[1..] == ["angie-orm"];
    assert FilterUnseen([], d[1..]) == ["angie-orm"];
    assert Fresh(["angie-orm"], d[1..]) == [];
    var r := FilterUnseen([], d);
    assert r[0] == r[1];
  }
}

/**
 * The config queue of both application classes: `config(fn)` enqueues
 * functions with `fired: false`, and the last step of the bootstrap pass
 * hands every unfired config to the injector once and marks it fired.
 * What a config function does when invoked is not part of this model.
 */
module ConfigQueue {
  import opened Js
  import opened Collections

  datatype ConfigRec = ConfigRec(fn: Value, fired: bool)

  /** `config(fn)`: only a value with `typeof` "function" is enqueued. */
  function Enqueue(configs: seq<ConfigRec>, fn: Value): (r: seq<ConfigRec>)
    ensures TypeOf(fn) == "function" <==> |r| == |configs| + 1
    ensures |r| >= |configs| && r[..|configs|] == configs
    ensures |r| > |configs| ==> r[|configs|] == ConfigRec(fn, false)
    ensures TypeOf(fn) != "function" ==> r == configs
  {
    if TypeOf(fn) == "function" then configs + [ConfigRec(fn, false)] else configs
  }

  /** The indices below `n` of the configs not yet fired, in increasing order. */
  function UnfiredBelow(configs: seq<ConfigRec>, n: nat): seq<nat>
    requires n <= |configs|
  {
    if n == 0 then []
    else if configs[n - 1].fired then UnfiredBelow(configs, n - 1)
    else UnfiredBelow(configs, n - 1) + [n - 1]
  }

  /** The indices UnfiredBelow lists are exactly the unfired ones below `n`, each once, in increasing order. */
  lemma {:induction false} UnfiredBelowExact(configs: seq<ConfigRec>, n: nat)
    requires n <= |configs|
    ensures var r := UnfiredBelow(configs, n);
      && (forall i :: i in r <==> 0 <= i < n && !configs[i].fired)
      && (forall a, b :: 0 <= a < b < |r| ==> r[a] < r[b])
  {
    if n > 0 {
      UnfiredBelowExact(configs, n - 1);
      var earlier := UnfiredBelow(configs, n - 1);
      assert forall a :: 0 <= a < |earlier| ==> earlier[a] in earlier;
    }
  }

  /** The configs one bootstrap pass invokes, in queue order. */
  function Unfired(configs: seq<ConfigRec>): (r: seq<nat>)
    ensures forall i :: i in r <==> 0 <= i < |configs| && !configs[i].fired
    ensures forall a, b :: 0 <= a < b < |r| ==> r[a] < r[b]
  {
    UnfiredBelowExact(configs, |configs|);
    UnfiredBelow(configs, |configs|)
  }

  /** The queue after a bootstrap pass: the same configs, all fired. */
  function AllFired(configs: seq<ConfigRec>): (r: seq<ConfigRec>)
    ensures |r| == |configs|
    ensures forall i :: 0 <= i < |r| ==> r[i] == configs[i].(fired := true)
  {
    seq(|configs|, i requires 0 <= i < |configs| => configs[i].(fired := true))
  }

  /**
   * `log` lists the queue positions handed to the injector so far: each at
   * most once, and exactly the fired ones.
   */
  ghost predicate Logged(configs: seq<ConfigRec>, log: seq<nat>) {
    && NoDuplicates(log)
    && (forall i :: i in log ==> i < |configs|)
    && (forall i :: 0 <= i < |configs| ==> (configs[i].fired <==> i in log))
  }

  lemma EnqueueLogged(configs: seq<ConfigRec>, log: seq<nat>, fn: Value)
    requires Logged(configs, log)
    ensures Logged(Enqueue(configs, fn), log)
  {
  }

  /** A bootstrap pass keeps the log exact: the newly fired configs are appended once each. */
  lemma AllFiredLogged(configs: seq<ConfigRec>, log: seq<nat>)
    requires Logged(configs, log)
    ensures Logged(AllFired(configs), log + Unfired(configs))
  {
    var u := Unfired(configs);
    forall a, b | 0 <= a < b < |log + u| ensures (log + u)[a] != (log + u)[b] {
      if a < |log| && b >= |log| {
        assert u[b - |log|] in u;
      }
    }
  }

  /** A second pass invokes nothing. */
  lemma SecondPassFiresNothing(configs: seq<ConfigRec>)
    ensures Unfired(AllFired(configs)) == []
  {
    var u := Unfired(AllFired(configs));
    FirstIsMember(u);
  }

  /** Under the log invariant each fired config was invoked exactly once. */
  lemma {:induction false} FiredExactlyOnce(configs: seq<ConfigRec>, log: seq<nat>, i: nat)
    requires Logged(configs, log)
    requires i < |configs| && configs[i].fired
    ensures multiset(log)[i] == 1
  {
    OccursOnce(log, i);
  }
}

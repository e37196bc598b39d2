/** Runs seen from their end: who had the last word on something that requests set. */
module Histories {
  import opened Basics
  import opened Schema
  import opened Ledger

  /** The tables that call `k` of a run finds. */
  function Before(t: Tables, calls: seq<Call>, k: nat): Tables
    requires k <= |calls|
  {
    Run(t, calls[..k])
  }

  lemma {:induction false} RunAppend(t: Tables, calls: seq<Call>, call: Call)
    ensures Run(t, calls + [call]) == Step(Run(t, calls), call)
    decreases |calls|
  {
    hide Step;
    if calls == [] {
      assert calls + [call] == [call];
      assert Run(Step(t, call), [call][1..]) == Step(t, call);
    } else {
      assert (calls + [call])[1..] == calls[1..] + [call];
      RunAppend(Step(t, calls[0]), calls[1..], call);
    }
  }

  lemma LastCall(t: Tables, calls: seq<Call>)
    requires calls != []
    ensures Run(t, calls) == Step(Run(t, calls[..|calls| - 1]), calls[|calls| - 1])
  {
    hide Step, Run;
    RunAppend(t, calls[..|calls| - 1], calls[|calls| - 1]);
    assert calls == calls[..|calls| - 1] + [calls[|calls| - 1]];
  }

  /** What a call of the run sets, or nothing. */
  function Said<V>(t: Tables, calls: seq<Call>, sets: (Tables, Call) -> Option<V>, k: nat): Option<V>
    requires k < |calls|
  {
    sets(Before(t, calls, k), calls[k])
  }

  /** After call `k` no call of the run sets anything. */
  predicate SilentFrom<V>(t: Tables, calls: seq<Call>, sets: (Tables, Call) -> Option<V>, k: nat) {
    forall j :: k <= j < |calls| ==> Said(t, calls, sets, j).None?
  }

  /** `value` is what the last call that sets anything has set, and `start` if there is no such call. */
  predicate LastWord<V(==)>(t: Tables, calls: seq<Call>, sets: (Tables, Call) -> Option<V>, start: Option<V>,
                            value: Option<V>) {
    || (exists k :: 0 <= k < |calls| && value.Some? && Said(t, calls, sets, k) == value
          && SilentFrom(t, calls, sets, k + 1))
    || (value == start && SilentFrom(t, calls, sets, 0))
  }

  /** The last word is one: no two values can be it. */
  lemma LastWordIsOne<V>(t: Tables, calls: seq<Call>, sets: (Tables, Call) -> Option<V>, start: Option<V>,
                         value: Option<V>, other: Option<V>)
    requires LastWord(t, calls, sets, start, value) && LastWord(t, calls, sets, start, other)
    ensures value == other
  {
  }

  lemma PrefixSays<V>(t: Tables, calls: seq<Call>, sets: (Tables, Call) -> Option<V>, k: nat)
    requires k < |calls| - 1
    ensures Said(t, calls[..|calls| - 1], sets, k) == Said(t, calls, sets, k)
  {
    assert calls[..|calls| - 1][..k] == calls[..k];
  }

  /** A column that every request sets or leaves alone holds the last word after every run. */
  lemma {:induction false} ColumnHoldsLastWord<V>(t: Tables, calls: seq<Call>, sound: Tables -> bool,
                                                  column: Tables -> Option<V>, sets: (Tables, Call) -> Option<V>)
    requires sound(t)
    requires forall s: Tables, c: Call :: sound(s) ==> sound(Step(s, c))
    requires forall s: Tables, c: Call :: sound(s) ==>
      column(Step(s, c)) == if sets(s, c).Some? then sets(s, c) else column(s)
    ensures LastWord(t, calls, sets, column(t), column(Run(t, calls))) && sound(Run(t, calls))
    decreases |calls|
  {
    hide Step;
    if calls == [] {
      assert SilentFrom(t, calls, sets, 0);
    } else {
      var n := |calls| - 1;
      var init := calls[..n];
      ColumnHoldsLastWord(t, init, sound, column, sets);
      LastCall(t, calls);
      assert Said(t, calls, sets, n) == sets(Run(t, init), calls[n]);
      forall k | 0 <= k < n
        ensures Said(t, init, sets, k) == Said(t, calls, sets, k)
      {
        PrefixSays(t, calls, sets, k);
      }
      if Said(t, calls, sets, n).Some? {
        assert SilentFrom(t, calls, sets, n + 1);
      } else {
        SilenceGrows(t, calls, sets, column(t), column(Run(t, init)));
      }
    }
  }

  lemma SilenceGrows<V>(t: Tables, calls: seq<Call>, sets: (Tables, Call) -> Option<V>, start: Option<V>,
                        value: Option<V>)
    requires calls != [] && Said(t, calls, sets, |calls| - 1).None?
    requires forall k :: 0 <= k < |calls| - 1 ==>
      Said(t, calls[..|calls| - 1], sets, k) == Said(t, calls, sets, k)
    requires LastWord(t, calls[..|calls| - 1], sets, start, value)
    ensures LastWord(t, calls, sets, start, value)
  {
    var init := calls[..|calls| - 1];
    if k :| 0 <= k < |init| && value.Some? && Said(t, init, sets, k) == value && SilentFrom(t, init, sets, k + 1) {
      assert Said(t, calls, sets, k) == value;
      assert forall j :: k + 1 <= j < |init| ==> Said(t, init, sets, j).None?;
      assert SilentFrom(t, calls, sets, k + 1);
    } else {
      assert forall j :: 0 <= j < |init| ==> Said(t, init, sets, j).None?;
      assert SilentFrom(t, calls, sets, 0);
    }
  }
}

/**
 * The handle table of mobile/canvaskit/canvaskit.js. The array `kc` holds each value at its handle and the value's
 * reference count right after it; `jc` is the free list. A client holds counted references to handles.
 */
module Handles {
  import opened Basics

  /** A JavaScript value: the four that have fixed handles, and any other. */
  datatype Value = Undefined | Null | True | False | Other(id: int)

  datatype Slot = Val(value: Value) | Count(count: int)

  datatype Table = Table(kc: seq<Slot>, jc: seq<nat>)

  /** `kc.push(0, 1, void 0, 1, null, 1, !0, 1, !1, 1)` */
  const INITIAL := Table(
    [Val(Other(0)), Count(1), Val(Undefined), Count(1), Val(Null), Count(1), Val(True), Count(1), Val(False), Count(1)],
    [])

  // ----- The operations on the table, as functions

  function FixedHandle(v: Value): Option<nat> {
    match v
    case Undefined => Some(2)
    case Null => Some(4)
    case True => Some(6)
    case False => Some(8)
    case Other(_) => None
  }

  /** `Ob`: the handle of a value, and the table after. */
  function Acquire(t: Table, v: Value): (nat, Table) {
    if FixedHandle(v).Some? then
      (FixedHandle(v).value, t)
    else if t.jc != [] then
      var b := t.jc[|t.jc| - 1];
      (b, Table(Put(t.kc, b, v), t.jc[..|t.jc| - 1]))
    else
      (|t.kc|, Table(t.kc + [Val(v), Count(1)], t.jc))
  }

  /** `kc[b] = v; kc[b + 1] = 1` */
  function Put(kc: seq<Slot>, b: nat, v: Value): seq<Slot> {
    if b + 1 < |kc| then kc[b := Val(v)][b + 1 := Count(1)] else kc
  }

  predicate Counted(t: Table, h: nat) {
    h + 1 < |t.kc| && t.kc[h + 1].Count?
  }

  /** `lc`: one reference less; the last one frees the handle. */
  function Release(t: Table, h: nat): Table
    requires 9 < h ==> Counted(t, h)
  {
    if h <= 9 then t
    else
      var kc := t.kc[h + 1 := Count(t.kc[h + 1].count - 1)];
      if kc[h + 1].count == 0 then Table(kc[h := Val(Undefined)], t.jc + [h]) else Table(kc, t.jc)
  }

  /** `H`: one reference more. */
  function Retain(t: Table, h: nat): Table
    requires 9 < h ==> Counted(t, h)
  {
    if h <= 9 then t else t.(kc := t.kc[h + 1 := Count(t.kc[h + 1].count + 1)])
  }

  // ----- The table itself

  class HandleTable {
    var kc: seq<Slot>
    var jc: seq<nat>

    constructor ()
      ensures Snapshot() == INITIAL
    {
      kc, jc := INITIAL.kc, INITIAL.jc;
    }

    function Snapshot(): Table
      reads this
    {
      Table(kc, jc)
    }

    method ToHandle(a: Value) returns (b: nat)
      requires WellFormed(Snapshot())
      modifies this
      ensures (b, Snapshot()) == Acquire(old(Snapshot()), a)
    {
      match a
      case Undefined => return 2;
      case Null => return 4;
      case True => return 6;
      case False => return 8;
      case Other(_) =>
        // `jc.pop() || kc.length`: a popped handle is above 9, so it is never taken for an empty list.
        var popped := 0;
        if jc != [] {
          popped, jc := jc[|jc| - 1], jc[..|jc| - 1];
        }
        b := if popped != 0 then popped else |kc|;
        if b == |kc| {
          kc := kc + [Val(a), Count(1)];
        } else {
          kc := kc[b := Val(a)];
          kc := kc[b + 1 := Count(1)];
        }
    }

    /** `mc` */
    method ToValue(a: nat) returns (r: Result<Value, string>)
      requires WellFormed(Snapshot())
      requires a as int in Live(Snapshot()) || a in {0, 2, 4, 6, 8}
      ensures r.Err? <==> a == 0
      ensures a as int in Live(Snapshot()) ==> r == Ok(Live(Snapshot())[a].value)
      ensures forall v: Value :: FixedHandle(v) == Some(a) ==> r == Ok(v)
    {
      if a == 0 {
        return Err("Cannot use deleted val. handle = 0");
      }
      assert a < 10 ==> kc[a] == INITIAL.kc[a];
      assert a >= 10 ==> PairAt(Snapshot(), a);
      r := Ok(kc[a].value);
    }

    /** `lc` */
    method Decref(a: nat)
      requires 9 < a ==> Counted(Snapshot(), a)
      modifies this
      ensures Snapshot() == Release(old(Snapshot()), a)
    {
      if 9 < a {
        kc := kc[a + 1 := Count(kc[a + 1].count - 1)];
        if 0 == kc[a + 1].count {
          kc := kc[a := Val(Undefined)];
          jc := jc + [a];
        }
      }
    }

    /** `H` */
    method Incref(a: nat)
      requires 9 < a ==> Counted(Snapshot(), a)
      modifies this
      ensures Snapshot() == Retain(old(Snapshot()), a)
    {
      if 9 < a {
        kc := kc[a + 1 := Count(kc[a + 1].count + 1)];
      }
    }

    /** `count_emval_handles` */
    method CountHandles() returns (n: int)
      requires WellFormed(Snapshot())
      ensures n == |Live(Snapshot())|
    {
      LiveCount(Snapshot());
      n := |kc| / 2 - 5 - |jc|;
    }
  }

  // ----- What the table means to its clients

  datatype Ref = Ref(value: Value, count: int)

  predicate IsHandle(t: Table, h: int) {
    10 <= h < |t.kc| && h % 2 == 0
  }

  ghost predicate PairAt(t: Table, h: int)
    requires IsHandle(t, h) && |t.kc| % 2 == 0
  {
    && t.kc[h].Val? && t.kc[h + 1].Count? && t.kc[h + 1].count >= 0
    && (t.kc[h + 1].count == 0 <==> h in t.jc)
    && (t.kc[h + 1].count == 0 ==> t.kc[h] == Val(Undefined))
  }

  /**
   * Values and counts alternate, the fixed handles are in place, and exactly the handles with count 0 are on the free
   * list; the table holds on to none of their values.
   */
  ghost predicate WellFormed(t: Table) {
    && |t.kc| % 2 == 0 && INITIAL.kc <= t.kc
    && (forall h :: IsHandle(t, h) ==> PairAt(t, h))
    && (forall i :: 0 <= i < |t.jc| ==> IsHandle(t, t.jc[i]))
    && (forall i, j :: 0 <= i < j < |t.jc| ==> t.jc[i] != t.jc[j])
  }

  /** The dynamic handles in use, with the value and the number of references of each. */
  ghost function Live(t: Table): map<int, Ref>
    requires WellFormed(t)
  {
    map h: int | 10 <= h < |t.kc| && IsHandle(t, h) && t.kc[h + 1].count > 0 :: Ref(t.kc[h].value, t.kc[h + 1].count)
  }

  lemma InitialIsWellFormed()
    ensures WellFormed(INITIAL) && Live(INITIAL) == map[]
  {
  }

  // ----- Each operation on what the clients see

  /** Only the two slots of `h` differ, or `h` is new at the end. */
  ghost predicate OnlyAt(t: Table, after: Table, h: int) {
    && |t.kc| % 2 == 0 && |after.kc| % 2 == 0 && IsHandle(after, h)
    && (forall k :: 0 <= k < |after.kc| && k != h && k != h + 1 ==> k < |t.kc| && after.kc[k] == t.kc[k])
    && |t.kc| <= |after.kc|
  }

  lemma OthersSame(t: Table, after: Table, h: int, k: int)
    requires OnlyAt(t, after, h) && IsHandle(after, k) && k != h
    ensures IsHandle(t, k) && after.kc[k] == t.kc[k] && after.kc[k + 1] == t.kc[k + 1]
  {
    assert k + 1 != h && k != h + 1;
    var value, count := after.kc[k], after.kc[k + 1];
    assert value == t.kc[k] && count == t.kc[k + 1];
  }

  lemma LiveAfter(t: Table, after: Table, h: int)
    requires WellFormed(t) && WellFormed(after) && OnlyAt(t, after, h)
    ensures PairAt(after, h)
    ensures Live(after) == if after.kc[h + 1].count > 0 then Live(t)[h := Ref(after.kc[h].value, after.kc[h + 1].count)]
                           else Live(t) - {h}
  {
    forall k: int
      ensures k != h ==> (k in Live(after) <==> k in Live(t))
      ensures k != h && k in Live(t) ==> Live(after)[k] == Live(t)[k]
    {
      if k != h && IsHandle(after, k) {
        OthersSame(t, after, h, k);
      } else if k != h && IsHandle(t, k) {
        assert IsHandle(after, k);
      }
    }
  }

  /** The pairs other than `h` stay right if the free list only gains or loses `h`. */
  lemma PairsAfter(t: Table, after: Table, h: int)
    requires WellFormed(t) && OnlyAt(t, after, h) && PairAt(after, h)
    requires forall k :: k != h ==> (k in t.jc <==> k in after.jc)
    ensures forall k :: IsHandle(after, k) ==> PairAt(after, k)
    ensures INITIAL.kc <= after.kc
  {
    forall k | IsHandle(after, k)
      ensures PairAt(after, k)
    {
      if k != h {
        OthersSame(t, after, h, k);
        assert PairAt(t, k);
      }
    }
  }

  /** A new value gets a handle that nobody holds, with one reference; nothing else changes. */
  lemma AcquireIsFresh(t: Table, v: Value)
    requires WellFormed(t)
    ensures var (h, after) := Acquire(t, v);
      && WellFormed(after)
      && (v.Other? ==> 9 < h && h !in Live(t) && Live(after) == Live(t)[h as int := Ref(v, 1)])
      && (!v.Other? ==> after == t && h <= 9 && t.kc[h] == Val(v))
  {
    if !v.Other? {
      assert t.kc[Acquire(t, v).0] == INITIAL.kc[Acquire(t, v).0];
    } else if t.jc != [] {
      ReuseIsFresh(t, v);
    } else {
      var (h, after) := Acquire(t, v);
      assert OnlyAt(t, after, h);
      PairsAfter(t, after, h);
      LiveAfter(t, after, h);
    }
  }

  lemma ReuseIsFresh(t: Table, v: Value)
    requires WellFormed(t) && v.Other? && t.jc != []
    ensures var (h, after) := Acquire(t, v);
      WellFormed(after) && 9 < h && h !in Live(t) && Live(after) == Live(t)[h as int := Ref(v, 1)]
  {
    var (h, after) := Acquire(t, v);
    assert h == t.jc[|t.jc| - 1] && IsHandle(t, h) && PairAt(t, h);
    assert t.jc == after.jc + [h];
    assert h !in after.jc;
    assert OnlyAt(t, after, h) && PairAt(after, h);
    PairsAfter(t, after, h);
    LiveAfter(t, after, h);
  }

  lemma RetainCounts(t: Table, h: nat)
    requires WellFormed(t) && (9 < h ==> h in Live(t))
    ensures WellFormed(Retain(t, h))
    ensures Live(Retain(t, h)) ==
      if h <= 9 then Live(t) else Live(t)[h as int := Live(t)[h].(count := Live(t)[h].count + 1)]
  {
    if 9 < h {
      var after := Retain(t, h);
      assert PairAt(t, h) && OnlyAt(t, after, h) && PairAt(after, h);
      PairsAfter(t, after, h);
      LiveAfter(t, after, h);
    }
  }

  lemma ReleaseKeepsWellFormed(t: Table, h: nat)
    requires WellFormed(t) && IsHandle(t, h) && Counted(t, h) && t.kc[h + 1].count > 0
    ensures PairAt(t, h) && OnlyAt(t, Release(t, h), h) && WellFormed(Release(t, h))
  {
    var after := Release(t, h);
    assert PairAt(t, h) && OnlyAt(t, after, h);
    assert after.jc == t.jc || after.jc == t.jc + [h];
    assert h in after.jc <==> after.kc[h + 1].count == 0;
    PairsAfter(t, after, h);
  }

  /** The last reference frees the handle, and only the last one. */
  lemma ReleaseCounts(t: Table, h: nat)
    requires WellFormed(t) && (9 < h ==> h in Live(t))
    ensures WellFormed(Release(t, h))
    ensures Live(Release(t, h)) ==
      if h <= 9 then Live(t)
      else if Live(t)[h].count == 1 then Live(t) - {h as int}
      else Live(t)[h as int := Live(t)[h].(count := Live(t)[h].count - 1)]
  {
    if 9 < h {
      assert PairAt(t, h);
      ReleaseKeepsWellFormed(t, h);
      LiveAfter(t, Release(t, h), h);
    }
  }

  /** The handle freed last is the one given out next. */
  lemma FreedIsGivenNext(t: Table, h: nat, v: Value)
    requires WellFormed(t) && 9 < h && h in Live(t) && Live(t)[h].count == 1 && v.Other?
    ensures PairAt(t, h) && Acquire(Release(t, h), v).0 == h
    ensures Acquire(Release(t, h), v).1 == t.(kc := t.kc[h := Val(v)])
  {
    assert PairAt(t, h);
    var after := Acquire(Release(t, h), v).1;
    assert after.jc == t.jc;
    assert after.kc == t.kc[h := Val(v)];
  }

  // ----- The count

  function EvenFrom10(n: nat): set<int> {
    set h: int | 10 <= h < n && h % 2 == 0
  }

  lemma {:induction false} EvenCount(n: nat)
    requires 10 <= n && n % 2 == 0
    ensures |EvenFrom10(n)| == n / 2 - 5
    decreases n
  {
    if n == 10 {
      assert EvenFrom10(10) == {};
    } else {
      EvenCount(n - 2);
      assert EvenFrom10(n) == EvenFrom10(n - 2) + {n - 2};
    }
  }

  function Elements(s: seq<nat>): set<int> {
    set i | 0 <= i < |s| :: s[i] as int
  }

  lemma {:induction false} ElementsCount(s: seq<nat>)
    requires forall i, j :: 0 <= i < j < |s| ==> s[i] != s[j]
    ensures |Elements(s)| == |s|
  {
    if s != [] {
      var init := s[..|s| - 1];
      ElementsCount(init);
      assert Elements(s) == Elements(init) + {s[|s| - 1] as int};
    }
  }

  lemma LiveCount(t: Table)
    requires WellFormed(t)
    ensures |Live(t)| == |t.kc| / 2 - 5 - |t.jc|
  {
    EvenCount(|t.kc|);
    ElementsCount(t.jc);
    forall h | h in EvenFrom10(|t.kc|)
      ensures h in Live(t) <==> h !in Elements(t.jc)
    {
      assert IsHandle(t, h) && PairAt(t, h);
    }
    assert Live(t).Keys == EvenFrom10(|t.kc|) - Elements(t.jc);
    assert Elements(t.jc) <= EvenFrom10(|t.kc|);
    assert |Live(t)| == |Live(t).Keys|;
  }

  // ----- Runs

  datatype Op = ToHandle(v: Value) | Incref(h: nat) | Decref(h: nat)

  /** A table and the references that its clients believe they hold, by their own bookkeeping alone. */
  datatype World = World(table: Table, held: map<int, Ref>)

  /** Clients pass only fixed handles and handles they hold a reference to. */
  predicate Allowed(w: World, op: Op) {
    match op
    case ToHandle(_) => true
    case Incref(h) => h <= 9 || h as int in w.held
    case Decref(h) => h <= 9 || h as int in w.held
  }

  ghost predicate InStep(w: World) {
    WellFormed(w.table) && Live(w.table) == w.held
  }

  lemma HeldIsCounted(w: World, h: nat)
    requires InStep(w) && h as int in w.held
    ensures Counted(w.table, h)
  {
  }

  ghost function Act(w: World, op: Op): World
    requires InStep(w) && Allowed(w, op)
  {
    match op
    case ToHandle(v) =>
      var (h, after) := Acquire(w.table, v);
      World(after, if h <= 9 then w.held else w.held[h as int := Ref(v, 1)])
    case Incref(h) =>
      if h <= 9 then w
      else
        HeldIsCounted(w, h);
        World(Retain(w.table, h), w.held[h as int := w.held[h].(count := w.held[h].count + 1)])
    case Decref(h) =>
      if h <= 9 then w
      else
        HeldIsCounted(w, h);
        World(Release(w.table, h),
              if w.held[h].count == 1 then w.held - {h as int}
              else w.held[h as int := w.held[h].(count := w.held[h].count - 1)])
  }

  /** The clients' books and the table agree after every allowed operation, and a new handle is one nobody holds. */
  lemma ActKeepsInStep(w: World, op: Op)
    requires InStep(w) && Allowed(w, op)
    ensures InStep(Act(w, op))
    ensures op.ToHandle? && op.v.Other? ==> Acquire(w.table, op.v).0 as int !in w.held
  {
    match op
    case ToHandle(v) =>
      AcquireIsFresh(w.table, v);
    case Incref(h) =>
      RetainCounts(w.table, h);
    case Decref(h) =>
      ReleaseCounts(w.table, h);
  }

  /** Every operation of the run is allowed when it is made. */
  ghost predicate Disciplined(w: World, ops: seq<Op>)
    requires InStep(w)
    decreases |ops|
  {
    ops == [] || (Allowed(w, ops[0]) && (ActKeepsInStep(w, ops[0]); Disciplined(Act(w, ops[0]), ops[1..])))
  }

  ghost function Perform(w: World, ops: seq<Op>): World
    requires InStep(w) && Disciplined(w, ops)
    decreases |ops|
  {
    if ops == [] then w
    else
      ActKeepsInStep(w, ops[0]);
      Perform(Act(w, ops[0]), ops[1..])
  }

  /**
   * After any disciplined run of a fresh table: the handles in use are exactly those the clients hold, each maps to
   * the value it was made for with the right count, and the count the module reports is their number.
   */
  lemma {:induction false} RunStaysInStep(w: World, ops: seq<Op>)
    requires InStep(w) && Disciplined(w, ops)
    ensures InStep(Perform(w, ops))
    ensures var last := Perform(w, ops);
      |last.held| == |last.table.kc| / 2 - 5 - |last.table.jc|
    decreases |ops|
  {
    if ops == [] {
      LiveCount(w.table);
    } else {
      ActKeepsInStep(w, ops[0]);
      RunStaysInStep(Act(w, ops[0]), ops[1..]);
    }
  }

  /** Somebody holds a reference to `h` in every state of the run. */
  ghost predicate HeldThroughout(w: World, ops: seq<Op>, h: int)
    requires InStep(w) && Disciplined(w, ops)
    decreases |ops|
  {
    && h in w.held
    && (ops == [] || (ActKeepsInStep(w, ops[0]); HeldThroughout(Act(w, ops[0]), ops[1..], h)))
  }

  lemma ValueStays(w: World, op: Op, h: int)
    requires InStep(w) && Allowed(w, op) && h in w.held && h in Act(w, op).held
    ensures Act(w, op).held[h].value == w.held[h].value
  {
    ActKeepsInStep(w, op);
  }

  /** As long as somebody holds a reference to it, a handle keeps its value, whatever else is called. */
  lemma {:induction false} HeldValueStays(w: World, ops: seq<Op>, h: int)
    requires InStep(w) && Disciplined(w, ops) && HeldThroughout(w, ops, h)
    ensures h in Perform(w, ops).held && Perform(w, ops).held[h].value == w.held[h].value
    ensures h < |Perform(w, ops).table.kc| && Perform(w, ops).table.kc[h] == Val(w.held[h].value)
    decreases |ops|
  {
    if ops == [] {
      assert PairAt(w.table, h);
    } else {
      ActKeepsInStep(w, ops[0]);
      ValueStays(w, ops[0], h);
      HeldValueStays(Act(w, ops[0]), ops[1..], h);
    }
  }

  /** Counting a handle up or down keeps the table well formed exactly when the handle is in use. */
  lemma OnlyLiveHandlesMayBeCounted(t: Table, h: nat)
    requires WellFormed(t) && IsHandle(t, h)
    ensures PairAt(t, h)
    ensures WellFormed(Retain(t, h)) <==> h in Live(t)
    ensures WellFormed(Release(t, h)) <==> h in Live(t)
  {
    assert PairAt(t, h);
    if h in Live(t) {
      RetainCounts(t, h);
      ReleaseCounts(t, h);
    } else {
      assert Retain(t, h).kc[h + 1] == Count(1) && h in Retain(t, h).jc;
      assert !PairAt(Retain(t, h), h);
      assert Release(t, h).kc[h + 1] == Count(-1);
      assert IsHandle(Release(t, h), h) && !PairAt(Release(t, h), h);
    }
  }

  /** Otherwise one handle can be given to two values: here a freed handle is counted up and down once more. */
  lemma FreedTwiceSharedTwice()
    ensures var (h, one) := Acquire(INITIAL, Other(1));
      var again := Release(Retain(Release(one, h), h), h);
      var (a, two) := Acquire(again, Other(2));
      var (b, three) := Acquire(two, Other(3));
      h == a == b == 10 && three.kc[a] == Val(Other(3))
  {
    var (h, one) := Acquire(INITIAL, Other(1));
    assert |one.kc| == 12 && h == 10 && one.kc[11] == Count(1) && one.jc == [];
    var freed := Release(one, h);
    assert |freed.kc| == 12 && freed.kc[11] == Count(0) && freed.jc == [10];
    var again := Release(Retain(freed, h), h);
    assert |again.kc| == 12 && again.jc == [10, 10];
    var (a, two) := Acquire(again, Other(2));
    assert a == 10 && |two.kc| == 12 && two.jc == [10];
  }
}

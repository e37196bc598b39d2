/** Codes that replace each character by a piece of text, and how many of them fit into some room. */
module Flattening {
  function Flat<A, B>(s: seq<A>, f: A -> seq<B>): seq<B> {
    if s == [] then [] else f(s[0]) + Flat(s[1..], f)
  }

  /** How many leading characters fit, whole, into `room` places. */
  function Fit<A, B>(s: seq<A>, f: A -> seq<B>, room: int): (m: nat)
    ensures m <= |s|
  {
    if s == [] || |f(s[0])| > room then 0 else 1 + Fit(s[1..], f, room - |f(s[0])|)
  }

  lemma {:induction false} FlatConcat<A, B>(s: seq<A>, t: seq<A>, f: A -> seq<B>)
    ensures Flat(s + t, f) == Flat(s, f) + Flat(t, f)
  {
    if s == [] {
      assert s + t == t;
    } else {
      FlatConcat(s[1..], t, f);
      assert (s + t)[1..] == s[1..] + t;
    }
  }

  /** A number of leading characters fits exactly when it is not more than `Fit`. */
  lemma {:induction false} FitIsLongest<A, B>(s: seq<A>, f: A -> seq<B>, room: int, m: nat)
    requires m <= |s| && 0 <= room
    ensures |Flat(s[..m], f)| <= room <==> m <= Fit(s, f, room)
  {
    if m > 0 {
      assert s[..m][1..] == s[1..][..m - 1];
      if |f(s[0])| <= room {
        FitIsLongest(s[1..], f, room - |f(s[0])|, m - 1);
      }
    }
  }

  lemma FlatOfNothing<A, B>(f: A -> seq<B>)
    ensures Flat([], f) == []
  {
  }

  lemma FlatAppend<A, B>(s: seq<A>, c: A, f: A -> seq<B>)
    ensures Flat(s + [c], f) == Flat(s, f) + f(c)
  {
    FlatConcat(s, [c], f);
    assert Flat([c], f) == f(c) + Flat([], f);
  }

  lemma OneMoreFits<A, B>(done: seq<A>, rest: seq<A>, f: A -> seq<B>, room: int)
    requires rest != [] && |f(rest[0])| <= room
    ensures done + rest == (done + [rest[0]]) + rest[1..]
    ensures Fit(rest, f, room) == 1 + Fit(rest[1..], f, room - |f(rest[0])|)
    ensures Flat(done + [rest[0]], f) == Flat(done, f) + f(rest[0])
  {
    FlatAppend(done, rest[0], f);
  }

  /**
   * Half way through writing `all` into the places `from` to `end` of a heap that was `start`: the codes of
   * `done` stand there, `rest` is still to come, and the places from `at` on are untouched.
   */
  ghost predicate Writing<A, B>(heap: seq<B>, start: seq<B>, from: nat, end: nat, all: seq<A>, f: A -> seq<B>,
                                done: seq<A>, rest: seq<A>, at: nat) {
    && from <= at <= end < |start|
    && all == done + rest
    && at == from + |Flat(done, f)|
    && Fit(all, f, end - from) == |done| + Fit(rest, f, end - at)
    && heap == start[..from] + Flat(done, f) + start[at..]
  }

  lemma WritingAdvances<A, B>(heap: seq<B>, heap': seq<B>, start: seq<B>, from: nat, end: nat, all: seq<A>,
                              f: A -> seq<B>, done: seq<A>, rest: seq<A>, at: nat)
    requires Writing(heap, start, from, end, all, f, done, rest, at)
    requires rest != [] && |f(rest[0])| <= end - at
    requires heap' == heap[..at] + f(rest[0]) + heap[at + |f(rest[0])|..]
    ensures Writing(heap', start, from, end, all, f, done + [rest[0]], rest[1..], at + |f(rest[0])|)
  {
    OneMoreFits(done, rest, f, end - at);
    var at' := at + |f(rest[0])|;
    assert heap[..at] == start[..from] + Flat(done, f);
    assert heap[at'..] == start[at'..];
  }

  lemma WritingStarts<A, B>(start: seq<B>, from: nat, end: nat, all: seq<A>, f: A -> seq<B>)
    requires from <= end < |start|
    ensures Writing(start, start, from, end, all, f, [], all, from)
  {
  }

  /** Nothing more fits: what stands in the window is the longest prefix that does. */
  lemma WritingEnds<A, B>(heap: seq<B>, start: seq<B>, from: nat, end: nat, all: seq<A>, f: A -> seq<B>,
                          done: seq<A>, rest: seq<A>, at: nat)
    requires Writing(heap, start, from, end, all, f, done, rest, at)
    requires rest == [] || |f(rest[0])| > end - at
    ensures var text := Flat(all[..Fit(all, f, end - from)], f);
      at == from + |text| && heap == start[..from] + text + start[at..]
  {
  }
}

/**
  Session bookkeeping over traces: the session openings that succeeded and
  the closings, taken in order, pair up, and the number of sessions open
  after each of them stays at most one.
 */
module Sessions {
  import opened Pkcs11
  import opened Token

  /** Session operations that pair each successful open with the close of the same slot. */
  predicate Balanced(ops: seq<Event>)
    decreases |ops|
  {
    |ops| == 0
    || (&& |ops| >= 2 && ops[0].OpenSession? && ops[0].rv == CKR_OK
        && ops[1] == CloseSession(ops[0].slot) && Balanced(ops[2..]))
  }

  /** The number of sessions open after the session operations `ops`. */
  function Live(ops: seq<Event>): int {
    if |ops| == 0 then 0
    else (if ops[0].OpenSession? then 1 else if ops[0].CloseSession? then -1 else 0) + Live(ops[1..])
  }

  /** At no point of `ops` are two sessions open. */
  predicate AtMostOneLive(ops: seq<Event>) {
    forall k :: 0 <= k <= |ops| ==> 0 <= Live(ops[..k]) <= 1
  }

  lemma {:induction false} BalancedAppend(a: seq<Event>, b: seq<Event>)
    requires Balanced(a) && Balanced(b)
    ensures Balanced(a + b)
    decreases |a|
  {
    if |a| > 0 {
      BalancedAppend(a[2..], b);
      assert (a + b)[2..] == a[2..] + b;
    } else {
      assert a + b == b;
    }
  }

  lemma {:induction false} LiveAppend(a: seq<Event>, b: seq<Event>)
    ensures Live(a + b) == Live(a) + Live(b)
  {
    if |a| == 0 {
      assert a + b == b;
    } else {
      assert (a + b)[1..] == a[1..] + b;
      LiveAppend(a[1..], b);
    }
  }

  lemma {:induction false} BalancedEven(ops: seq<Event>)
    requires Balanced(ops)
    ensures |ops| % 2 == 0
    decreases |ops|
  {
    if |ops| > 0 {
      BalancedEven(ops[2..]);
    }
  }

  /** After `k` of a balanced sequence of session operations, `k % 2` sessions are open. */
  lemma {:induction false} BalancedLive(ops: seq<Event>, k: nat)
    requires Balanced(ops) && k <= |ops|
    ensures Live(ops[..k]) == k % 2
    decreases k
  {
    if k >= 2 {
      BalancedLive(ops[2..], k - 2);
      assert ops[..k] == ops[..2] + ops[2..][..k - 2];
      LiveAppend(ops[..2], ops[2..][..k - 2]);
      assert ops[..2][1..] == [ops[1]];
      assert ops[..2][1..][1..] == [];
    } else if k == 1 {
      assert ops[..1][1..] == [];
    }
  }

  /**
    Balanced session operations, possibly followed by one more opening,
    never have two sessions open, and end with as many open as openings follow.
   */
  lemma OneSessionAtATime(b: seq<Event>, tail: seq<Event>)
    requires Balanced(b)
    requires tail == [] || (|tail| == 1 && tail[0].OpenSession?)
    ensures AtMostOneLive(b + tail)
    ensures Live(b + tail) == |tail|
  {
    var ops := b + tail;
    assert Live(tail) == |tail| by {
      if tail != [] {
        assert tail[1..] == [];
      }
    }
    BalancedLive(b, |b|);
    BalancedEven(b);
    assert b[..|b|] == b;
    LiveAppend(b, tail);
    forall k | 0 <= k <= |ops|
      ensures 0 <= Live(ops[..k]) <= 1
    {
      if k <= |b| {
        assert ops[..k] == b[..k];
        BalancedLive(b, k);
      } else {
        assert ops[..k] == ops;
      }
    }
  }

  lemma EventsWithoutSessionOps(trace: seq<Event>)
    requires forall i :: 0 <= i < |trace| ==> !trace[i].OpenSession? && !trace[i].CloseSession?
    ensures SessionOps(trace) == []
  {
    FilterNone(trace, IsSessionOp);
  }

  lemma SingleSessionOp(e: Event)
    ensures SessionOps([e]) == if IsSessionOp(e) then [e] else []
  {
    assert [e][1..] == [];
  }
}

/** Message ids of kernel/net/server.cpp: the clock above, a counter below. */
module Servers {
  const LOW: bv64 := 0xFFFF_FFFF

  /** `getMsgId`, for the clock reading `time` and the counter before its increment. */
  function MsgId(time: bv64, counter: bv64): bv64 {
    (time << 32) | counter
  }

  /** Exactly when two accepts get one id, whatever the clock and the counter are: the low
      halves agree, and so do the clock bits mixed with the part of the counter that has
      grown into them. */
  lemma IdsCollideIff(t1: bv64, c1: bv64, t2: bv64, c2: bv64)
    ensures MsgId(t1, c1) == MsgId(t2, c2)
       <==> Lower(c1) == Lower(c2) && (t1 | (c1 >> 32)) & LOW == (t2 | (c2 >> 32)) & LOW
  {
    hide MsgId;
    hide Lower;
    hide Upper;
    var x, y := MsgId(t1, c1), MsgId(t2, c2);
    Halves(t1, c1);
    Halves(t2, c2);
    Rejoin(x);
    Rejoin(y);
    if Lower(x) == Lower(y) && Upper(x) == Upper(y) {
      assert x == MsgId(Upper(x), Lower(x)) == y;
    }
  }

  function Lower(x: bv64): bv64 { x & LOW }
  function Upper(x: bv64): bv64 { (x >> 32) & LOW }

  lemma Halves(time: bv64, counter: bv64)
    ensures Lower(MsgId(time, counter)) == Lower(counter)
    ensures Upper(MsgId(time, counter)) == (time | (counter >> 32)) & LOW
  {
  }

  lemma Rejoin(x: bv64)
    ensures MsgId(Upper(x), Lower(x)) == x
  {
  }

  /** The ids given to consecutive accepts at the clock readings `times`. */
  function Ids(times: seq<bv64>, counter: bv64): (r: seq<bv64>)
    ensures |r| == |times|
  {
    if times == [] then [] else [MsgId(times[0], counter)] + Ids(times[1..], counter + 1)
  }

  /** The counter after `n` ids. */
  function Advance(counter: bv64, n: nat): bv64
    decreases n
  {
    if n == 0 then counter else Advance(counter + 1, n - 1)
  }

  /** Two calls of accept one after the other give the ids of one call, so that freshness goes
      across calls. */
  lemma {:induction false} IdsConcat(first: seq<bv64>, second: seq<bv64>, counter: bv64)
    ensures Ids(first + second, counter) == Ids(first, counter) + Ids(second, Advance(counter, |first|))
    decreases |first|
  {
    if first == [] {
      assert first + second == second;
    } else {
      assert (first + second)[1..] == first[1..] + second;
      IdsConcat(first[1..], second, counter + 1);
    }
  }

  /** The counter does not leave the low half while `n` ids are given out. */
  predicate StaysLow(counter: bv64, n: nat)
    decreases n
  {
    n == 0 || (counter <= LOW && StaysLow(counter + 1, n - 1))
  }

  /** Later ids keep a larger counter in their low half. */
  lemma {:induction false} LaterIds(times: seq<bv64>, counter: bv64, k: nat)
    requires StaysLow(counter, |times|) && k < |times|
    ensures counter <= Lower(Ids(times, counter)[k])
    decreases k
  {
    if k == 0 {
      LowHalf(times[0], counter);
    } else {
      LaterIds(times[1..], counter + 1, k - 1);
    }
  }

  lemma LowHalf(time: bv64, counter: bv64)
    requires counter <= LOW
    ensures Lower(MsgId(time, counter)) == counter
  {
  }

  /** The broker's premise: however the clock moves, also backwards, no id is given twice
      while the counter stays in the low half. */
  lemma {:induction false} IdsAreFresh(times: seq<bv64>, counter: bv64, i: nat, j: nat)
    requires StaysLow(counter, |times|) && i < j < |times|
    ensures Ids(times, counter)[i] != Ids(times, counter)[j]
    decreases i
  {
    if i == 0 {
      LowHalf(times[0], counter);
      LaterIds(times[1..], counter + 1, j - 1);
    } else {
      IdsAreFresh(times[1..], counter + 1, i - 1, j - 1);
    }
  }

  lemma Regroup(ids: seq<bv64>, id: bv64, rest: seq<bv64>)
    ensures ids + ([id] + rest) == (ids + [id]) + rest
  {
  }

  /** One accept, with `n` before it. */
  lemma IdsStep(times: seq<bv64>, n: nat, counter: bv64)
    requires n <= |times|
    ensures n < |times| ==>
              && Ids(times[n..], counter) == [MsgId(times[n], counter)] + Ids(times[n + 1..], counter + 1)
              && Advance(counter, |times| - n) == Advance(counter + 1, |times| - (n + 1))
    ensures n == |times| ==> Ids(times[n..], counter) == [] && Advance(counter, |times| - n) == counter
    ensures n == 0 ==> times[n..] == times
  {
    if n < |times| {
      assert times[n..][0] == times[n] && times[n..][1..] == times[n + 1..];
    }
  }

  lemma AllFresh(times: seq<bv64>, counter: bv64)
    requires StaysLow(counter, |times|)
    ensures forall i, j :: 0 <= i < j < |times| ==> Ids(times, counter)[i] != Ids(times, counter)[j]
  {
    forall i, j | 0 <= i < j < |times| ensures Ids(times, counter)[i] != Ids(times, counter)[j] {
      IdsAreFresh(times, counter, i, j);
    }
  }

  /** Past the low half the clock no longer separates ids: a concrete collision. */
  lemma GrownCounterCollides()
    ensures MsgId(6, 0x1_0000_0000) == MsgId(7, 0)
  {
  }

  class Server {
    var msgIndex: bv64

    constructor ()
      ensures msgIndex == 0
    {
      msgIndex := 0;
    }

    /** `getMsgId`, with the counter of the server. */
    method NextId(time: bv64) returns (id: bv64)
      modifies this
      ensures id == MsgId(time, old(msgIndex)) && msgIndex == old(msgIndex) + 1
    {
      id := MsgId(time, msgIndex);
      msgIndex := msgIndex + 1;
    }

    /** The ids handed to the connections one `Listen` accepts, at the given clock readings. */
    method Accept(times: seq<bv64>) returns (ids: seq<bv64>)
      modifies this
      ensures ids == Ids(times, old(msgIndex)) && msgIndex == Advance(old(msgIndex), |times|)
      ensures StaysLow(old(msgIndex), |times|) ==> forall i, j :: 0 <= i < j < |ids| ==> ids[i] != ids[j]
    {
      hide *;
      ids := [];
      var n := 0;
      IdsStep(times, 0, msgIndex);
      while n < |times|
        invariant n <= |times|
        invariant ids + Ids(times[n..], msgIndex) == Ids(times, old(msgIndex))
        invariant Advance(msgIndex, |times| - n) == Advance(old(msgIndex), |times|)
      {
        IdsStep(times, n, msgIndex);
        ghost var rest := Ids(times[n + 1..], msgIndex + 1);
        var id := NextId(times[n]);
        Regroup(ids, id, rest);
        ids := ids + [id];
        n := n + 1;
      }
      IdsStep(times, |times|, msgIndex);
      assert ids + [] == ids;
      if StaysLow(old(msgIndex), |times|) {
        AllFresh(times, old(msgIndex));
      }
    }
  }
}

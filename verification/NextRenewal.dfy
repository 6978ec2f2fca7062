/**
 When the next renewal is due. The scan over the stored certificates keeps the earliest renewal
 instant in a variable whose zero value also means "none yet".
 */
module NextRenewal {
  import opened GoTime

  /** `ShouldRenew`: the threshold before expiry has been reached. */
  predicate ShouldRenew(notAfter: int, renewBefore: int, now: int) {
    now + renewBefore > notAfter
  }

  function RenewTimes(notAfters: seq<int>, renewBefore: int): seq<int> {
    seq(|notAfters|, i requires 0 <= i < |notAfters| => notAfters[i] - renewBefore)
  }

  /** What the scan holds after the instants seen so far. */
  function Earliest(times: seq<int>): int {
    if times == [] then ZERO_TIME
    else
      var before, t := Earliest(times[..|times| - 1]), times[|times| - 1];
      if before == ZERO_TIME || t < before then t else before
  }

  method GetNextRenewalTime(notAfters: seq<int>, renewBefore: int) returns (earliest: int)
    ensures earliest == Earliest(RenewTimes(notAfters, renewBefore))
  {
    ghost var times := RenewTimes(notAfters, renewBefore);
    if |notAfters| == 0 {
      return ZERO_TIME;
    }
    earliest := ZERO_TIME;
    for i := 0 to |notAfters|
      invariant earliest == Earliest(times[..i])
    {
      var renewTime := notAfters[i] - renewBefore;
      assert times[..i + 1][..i] == times[..i];
      if earliest == ZERO_TIME || renewTime < earliest {
        earliest := renewTime;
      }
    }
    assert times[..|times|] == times;
  }

  method NeedingRenewal(notAfters: seq<int>, renewBefore: int, now: int) returns (picked: seq<int>)
    ensures forall i :: i in picked <==> 0 <= i < |notAfters| && ShouldRenew(notAfters[i], renewBefore, now)
    ensures forall a, b :: 0 <= a < b < |picked| ==> picked[a] < picked[b]
  {
    picked := [];
    for i := 0 to |notAfters|
      invariant forall k :: k in picked <==> 0 <= k < i && ShouldRenew(notAfters[k], renewBefore, now)
      invariant forall a, b :: 0 <= a < b < |picked| ==> picked[a] < picked[b]
      invariant forall a :: 0 <= a < |picked| ==> picked[a] in picked
    {
      if ShouldRenew(notAfters[i], renewBefore, now) {
        picked := picked + [i];
      }
    }
  }

  // ---------------------------------------------------------------- the minimum

  function Min(times: seq<int>): (m: int)
    requires times != []
    ensures m in times && forall i :: 0 <= i < |times| ==> m <= times[i]
  {
    if |times| == 1 then times[0]
    else
      var n := |times| - 1;
      var m := Min(times[..n]);
      assert forall i :: 0 <= i < n ==> times[..n][i] == times[i];
      if times[n] < m then times[n] else m
  }

  /** The instants after the last one that equals the zero value. */
  function AfterZero(times: seq<int>): (tail: seq<int>)
    ensures ZERO_TIME !in tail
    ensures forall t :: t in tail ==> t in times
    ensures tail == [] <==> times == [] || times[|times| - 1] == ZERO_TIME
  {
    if times == [] || times[|times| - 1] == ZERO_TIME then []
    else AfterZero(times[..|times| - 1]) + [times[|times| - 1]]
  }

  /** While no instant lies before zero, the scan starts over behind every zero. */
  lemma {:induction false} EarliestAtLeastZero(times: seq<int>)
    requires forall i :: 0 <= i < |times| ==> times[i] >= ZERO_TIME
    ensures Earliest(times) == if AfterZero(times) == [] then ZERO_TIME else Min(AfterZero(times))
  {
    if times != [] {
      var n := |times| - 1;
      EarliestAtLeastZero(times[..n]);
      if times[n] != ZERO_TIME {
        assert AfterZero(times)[..|AfterZero(times)| - 1] == AfterZero(times[..n]);
      }
    }
  }

  /** As soon as one instant lies before zero, the scan is the minimum. */
  lemma {:induction false} EarliestBelowZero(times: seq<int>)
    requires times != [] && Min(times) < ZERO_TIME
    ensures Earliest(times) == Min(times)
  {
    var n := |times| - 1;
    if n > 0 {
      if Min(times[..n]) < ZERO_TIME {
        EarliestBelowZero(times[..n]);
      } else {
        EarliestAtLeastZero(times[..n]);
      }
    }
  }

  lemma MinTail(times: seq<int>)
    requires times != [] && Min(times) > ZERO_TIME
    ensures AfterZero(times) == times
  {
    if |times| > 1 {
      MinTail(times[..|times| - 1]);
      assert times == times[..|times| - 1] + [times[|times| - 1]];
    }
  }

  /** The reported instant is the minimum unless that minimum is zero and is not the last one seen. */
  lemma EarliestIsMinIff(times: seq<int>)
    requires times != []
    ensures Earliest(times) == Min(times) <==> Min(times) != ZERO_TIME || times[|times| - 1] == ZERO_TIME
  {
    if Min(times) < ZERO_TIME {
      EarliestBelowZero(times);
    } else {
      EarliestAtLeastZero(times);
      if Min(times) > ZERO_TIME {
        MinTail(times);
      }
    }
  }

  /** A due instant that the scan forgot: zero was seen and everything after it lies ahead. */
  predicate Forgotten(times: seq<int>, now: int)
    requires times != []
  {
    && Min(times) == ZERO_TIME && ZERO_TIME < now
    && AfterZero(times) != [] && Min(AfterZero(times)) >= now
  }

  /**
   With the constructor's threshold, the reported time lies before now exactly when some
   certificate needs renewal now, unless a due instant was forgotten.
   */
  lemma NextRenewalAgreesIff(notAfters: seq<int>, renewBefore: int, now: int)
    requires notAfters != []
    ensures var times := RenewTimes(notAfters, renewBefore);
      (Earliest(times) < now <==> exists i :: 0 <= i < |notAfters| && ShouldRenew(notAfters[i], renewBefore, now))
      <==> !Forgotten(times, now)
  {
    var times := RenewTimes(notAfters, renewBefore);
    assert forall i :: 0 <= i < |times| ==> (times[i] < now <==> ShouldRenew(notAfters[i], renewBefore, now));
    var k :| 0 <= k < |times| && times[k] == Min(times);
    assert (exists i :: 0 <= i < |notAfters| && ShouldRenew(notAfters[i], renewBefore, now)) <==> Min(times) < now;
    EarliestIsMinIff(times);
    if Min(times) == ZERO_TIME {
      EarliestAtLeastZero(times);
    }
  }

  /** A certificate that is due, forgotten because its instant is the zero time. */
  lemma DueButForgotten()
    ensures var notAfters, now := [ZERO_TIME, ZERO_TIME + 2], ZERO_TIME + 1;
      ShouldRenew(notAfters[0], 0, now) && Earliest(RenewTimes(notAfters, 0)) >= now
  {
    var notAfters, now := [ZERO_TIME, ZERO_TIME + 2], ZERO_TIME + 1;
    var times := RenewTimes(notAfters, 0);
    assert times[..1] == [ZERO_TIME] && times[..1][..0] == [];
    assert AfterZero(times[..1]) == [] && AfterZero(times) == [ZERO_TIME + 2];
    assert Min([ZERO_TIME + 2]) == ZERO_TIME + 2;
    assert Min(times) == ZERO_TIME;
    assert ShouldRenew(notAfters[0], 0, now);
    NextRenewalAgreesIff(notAfters, 0, now);
  }
}

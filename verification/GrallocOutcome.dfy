/** What a batch returns: the exact effect of stride reconciliation, and the agreement of
    the two HALs whenever the device offers them the same buffers. */
module GrallocOutcome {
  import opened Options
  import opened GrallocTypes
  import opened GrallocBatch

  /** One more attempt is acceptable iff it succeeded and either no stride is fixed yet or
      it repeats the last one. */
  lemma StrideStep(made: seq<Attempt>, a: Attempt)
    ensures Acceptable(made + [a])
            <==> Acceptable(made) && !a.Failed? && (LastStride(made) == 0 || StrideOf(a) == LastStride(made))
  {
    var longer := made + [a];
    assert longer[|made|] == a;
    if Acceptable(longer) {
      assert forall i | 0 <= i < |made| :: made[i] == longer[i];
      assert made == [] || StrideOf(longer[|made| - 1]) == LastStride(made);
    }
    if Acceptable(made) && !a.Failed? && (LastStride(made) == 0 || StrideOf(a) == LastStride(made)) {
      forall i, j | 0 <= i < j < |longer| && StrideOf(longer[i]) != 0
        ensures StrideOf(longer[j]) == StrideOf(longer[i])
      {
        assert longer[i] == made[i];
        assert i == |made| - 1 || StrideOf(made[|made| - 1]) == StrideOf(made[i]);
      }
    }
  }

  /** One round of the loop, in terms of its variables: the stride seen last, the handles
      pushed, and whether the batch goes on. */
  lemma LoopStep(o: Oracle, b: Backend, t: Log, made: seq<Attempt>, count: nat)
    requires |made| < count && PrefixesAcceptable(made) && Acceptable(made)
    ensures var r := AttemptOne(o, b, t);
            var longer := made + [r.attempt];
            && PrefixesAcceptable(longer)
            && Attempts(o, b, t, made, count) == Attempts(o, b, r.log, longer, count)
            && (Acceptable(longer)
                <==> !r.attempt.Failed? && (LastStride(made) == 0 || StrideOf(r.attempt) == LastStride(made)))
            && (!Acceptable(longer) ==>
                  && Attempts(o, b, t, made, count) == Progress(longer, r.log)
                  && Verdict(longer) == if r.attempt.Failed? then r.attempt.error else UNSUPPORTED)
            && Handles(longer) == Handles(made) + (if r.attempt.Failed? then [] else [r.attempt.buffer])
            && LastStride(longer) == StrideOf(r.attempt)
  {
    var r := AttemptOne(o, b, t);
    ExtendPrefixes(made, r.attempt);
    StrideStep(made, r.attempt);
    assert (made + [r.attempt])[..|made|] == made;
  }

  /** The first `k` strides are zero and all others equal the last one, which is not. */
  predicate ZerosThenConstant(made: seq<Attempt>, k: nat)
    requires k <= |made|
  {
    && (forall i | 0 <= i < k :: StrideOf(made[i]) == 0)
    && (forall i | k <= i < |made| :: StrideOf(made[i]) == LastStride(made) != 0)
  }

  /** Acceptable means: no failure, zeros first, then one repeated nonzero value. */
  lemma AcceptableShape(made: seq<Attempt>)
    ensures Acceptable(made)
            <==> && (forall i | 0 <= i < |made| :: !made[i].Failed?)
                 && exists k | 0 <= k <= |made| :: ZerosThenConstant(made, k)
  {
    if Acceptable(made) {
      var k := 0;
      while k < |made| && StrideOf(made[k]) == 0
        invariant 0 <= k <= |made|
        invariant forall i | 0 <= i < k :: StrideOf(made[i]) == 0
      {
        k := k + 1;
      }
      if k < |made| {
        assert StrideOf(made[|made| - 1]) == StrideOf(made[k]);
      }
      assert ZerosThenConstant(made, k);
    }
  }

  /** The outcomes a device has in store for `count` attempts. */
  function Offered(outs: nat -> Attempt, count: nat): (s: seq<Attempt>)
    ensures |s| == count
    ensures forall i | 0 <= i < count :: s[i] == outs(i)
  {
    seq(count, i requires 0 <= i => outs(i))
  }

  predicate Follows(made: seq<Attempt>, outs: nat -> Attempt) {
    forall i | 0 <= i < |made| :: made[i] == outs(i)
  }

  /** The loop stops right after the first attempt that makes the offered outcomes
      unacceptable, and otherwise consumes all of them. */
  lemma AttemptsExactly(o: Oracle, b: Backend, t: Log, count: nat, outs: nat -> Attempt)
    requires Follows(Attempts(o, b, t, [], count).made, outs)
    ensures var made, offered := Attempts(o, b, t, [], count).made, Offered(outs, count);
            if Acceptable(offered) then made == offered
            else 0 < |made| <= count && made == offered[..|made|]
                 && !Acceptable(made) && Acceptable(offered[..|made| - 1])
  {
    var made, offered := Attempts(o, b, t, [], count).made, Offered(outs, count);
    assert made == offered[..|made|];
    if |made| == count {
      assert offered[..count] == offered;
    }
    if !Acceptable(made) {
      assert made[..|made| - 1] == offered[..|made| - 1];
      UnacceptablePrefix(offered, |made|);
    }
  }

  lemma UnacceptablePrefix(s: seq<Attempt>, k: nat)
    requires k <= |s| && !Acceptable(s[..k])
    ensures !Acceptable(s)
  {
    if Acceptable(s) {
      assert forall i | 0 <= i < k :: s[..k][i] == s[i];
    }
  }

  /** Exact outcome of a batch whose preparation succeeded: NONE iff everything the device
      offers is acceptable, and then the stride is the last one and the handles are all of
      them; otherwise the error is that of the first attempt that spoils the batch. */
  lemma ExactOutcome(o: Oracle, hal: Hal, t: Log, info: Info, count: nat, outs: nat -> Attempt)
    requires Prepare(o, hal, t, info).error.NONE?
    requires Follows(BatchProgress(o, hal, t, info, count).made, outs)
    ensures var r, offered := AllocateBuffers(o, hal, t, Some(info), count), Offered(outs, count);
            && (r.error.NONE? <==> Acceptable(offered))
            && (r.error.NONE? ==> r.out == Some(Batch(LastStride(offered), Handles(offered))))
            && (!r.error.NONE? ==>
                  exists k | 0 <= k < count ::
                    && Acceptable(offered[..k]) && !Acceptable(offered[..k + 1])
                    && r.error == (if offered[k].Failed? then offered[k].error else UNSUPPORTED)
                    && r.out == None)
  {
    var p := Prepare(o, hal, t, info);
    AttemptsExactly(o, p.backend, p.log, count, outs);
    var made := Attempts(o, p.backend, p.log, [], count).made;
    var r, offered := AllocateBuffers(o, hal, t, Some(info), count), Offered(outs, count);
    if !Acceptable(offered) {
      var k := |made| - 1;
      assert made == offered[..k + 1] && made[k] == offered[k];
      assert ErrorsNamed(made);
      assert Acceptable(offered[..k]) && !Acceptable(offered[..k + 1]);
    }
  }

  lemma SameLength(a: seq<Attempt>, b: seq<Attempt>, count: nat)
    requires |a| <= |b| <= count && PrefixesAcceptable(b)
    requires |a| == count || !Acceptable(a)
    requires forall i | 0 <= i < |a| :: a[i] == b[i]
    ensures |a| == |b|
  {
    assert a == b[..|a|];
  }

  /** The two HALs agree: after successful preparations, if the devices give the same
      outcomes to the attempts both make, error and out-parameters are the same. */
  lemma HalsAgree(o0: Oracle, hal0: Hal, t0: Log, info0: Info,
                  o1: Oracle, hal1: Hal, t1: Log, info1: Info, count: nat)
    requires Prepare(o0, hal0, t0, info0).error.NONE? && Prepare(o1, hal1, t1, info1).error.NONE?
    requires var made0, made1 := BatchProgress(o0, hal0, t0, info0, count).made,
                                 BatchProgress(o1, hal1, t1, info1, count).made;
             forall i | 0 <= i < |made0| && i < |made1| :: made0[i] == made1[i]
    ensures var r0, r1 := AllocateBuffers(o0, hal0, t0, Some(info0), count),
                          AllocateBuffers(o1, hal1, t1, Some(info1), count);
            r0.error == r1.error && r0.out == r1.out
    ensures BatchProgress(o0, hal0, t0, info0, count).made == BatchProgress(o1, hal1, t1, info1, count).made
  {
    var made0 := BatchProgress(o0, hal0, t0, info0, count).made;
    var made1 := BatchProgress(o1, hal1, t1, info1, count).made;
    if |made0| <= |made1| {
      SameLength(made0, made1, count);
    } else {
      SameLength(made1, made0, count);
    }
    assert made0 == made1;
  }

  lemma DemandingAttempts(o: Oracle, v: DeviceId, t: Log, info: Info, count: nat)
    requires TooDemanding(info) && count > 0
    ensures Attempts(o, Direct(v, info), t, [], count) == Progress([Failed(BAD_VALUE)], t)
  {
    var made: seq<Attempt> := [] + [AttemptOne(o, Direct(v, info), t).attempt];
    assert made == [Failed(BAD_VALUE)] && made[0].Failed?;
    assert !Acceptable(made);
    ExtendPrefixes([], Failed(BAD_VALUE));
    assert Attempts(o, Direct(v, info), t, made, count) == Progress(made, t);
  }

  /** Where the HALs differ, gralloc0 side: preparation never fails, and a layered or
      high-usage request is refused without touching the device, so that only a nonempty
      batch notices. */
  lemma Gralloc0Demanding(o: Oracle, v: DeviceId, t: Log, info: Info, count: nat)
    requires TooDemanding(info)
    ensures AllocateBuffers(o, Gralloc0(v), t, Some(info), count)
            == if count == 0 then BatchResult(NONE, Some(Batch(0, [])), t) else BatchResult(BAD_VALUE, None, t)
  {
    if count > 0 {
      DemandingAttempts(o, v, t, info, count);
      var made := [Failed(BAD_VALUE)];
      assert made[0].Failed? && !Acceptable(made);
      assert Handles(made) == [] by {
        assert made[..|made| - 1] == [];
      }
    }
  }

  /** Read off the definition: where the HALs differ, gralloc1 side, the outcome of descriptor
      setup is reported even for an empty batch, which otherwise succeeds with stride 0. */
  lemma Gralloc1Empty(o: Oracle, hal: Hal, t: Log, info: Info)
    requires hal.Gralloc1?
    ensures var r, setup := AllocateBuffers(o, hal, t, Some(info), 0), CreateDescriptor(o, hal, t, info);
            && r.error == setup.error
            && r.out == if setup.error.NONE? then Some(Batch(0, [])) else None
  {}
}

/** start_epoch and generate_epoch of cross_plugin.cpp on the fields they share. */
module EpochWindow {
  import opened EpochProtocol

  class EpochCaches<C(!new)> {
    var lowerEpoch: nat
    var cacheVec: seq<C>
    var isGenerating: bool
    ghost var live: seq<Generator>

    ghost function View(): State<C>
      reads this
    {
      State(lowerEpoch, cacheVec, isGenerating, live)
    }

    constructor ()
      ensures Initial(View())
    {
      lowerEpoch, cacheVec, isGenerating, live := 0, [], false, [];
    }

    /** start_epoch, from its lock on. */
    method StartEpoch(ghost cacheOf: nat -> C, epoch: nat) returns (spawned: bool)
      requires epoch < WORD
      modifies this
      ensures View() == Apply(cacheOf, old(View()), Step.StartEpoch(epoch))
      ensures spawned <==> !old(isGenerating) && Upper(View()) <= epoch
      ensures lowerEpoch == if old(lowerEpoch) == 0 then (epoch - 4) % WORD else old(lowerEpoch)
      ensures cacheVec == old(cacheVec)
    {
      spawned := false;
      if lowerEpoch == 0 { lowerEpoch := Word(epoch - EPOCH_VEC_SIZE + 1); }
      if !isGenerating && Word(lowerEpoch + |cacheVec|) <= epoch {
        isGenerating := true;
        spawned := true;
        live := live + [Entering(epoch)];
      }
    }

    /** The loop condition of generate_epoch, and what follows if it fails. */
    method ContinueOrEnd(ghost i: nat, target: nat) returns (more: bool, current: nat)
      requires i < |live|
      modifies `isGenerating, `live
      ensures View() == Continue(old(View()), i, target)
      ensures more <==> Upper(View()) <= target
      ensures current == Upper(View())
    {
      current := Word(lowerEpoch + |cacheVec|);
      more := current <= target;
      if more {
        live := live[i := Computing(target, current)];
      } else {
        isGenerating := false;
        live := live[..i] + live[i + 1..];
      }
    }

    /** generate_epoch up to its first unlock. */
    method EnterGenerator(ghost cacheOf: nat -> C, ghost i: nat, target: nat) returns (more: bool, current: nat)
      requires Enabled(View(), Enter(i)) && live[i].target == target
      modifies this
      ensures View() == Apply(cacheOf, old(View()), Enter(i))
      ensures current == Upper(View()) && (more <==> current <= target)
    {
      if lowerEpoch == 0 { lowerEpoch := Word(target - EPOCH_VEC_SIZE + 1); }
      more, current := ContinueOrEnd(i, target);
    }

    /** generate_epoch from one lock.lock() to the next unlock. */
    method AppendCache(ghost cacheOf: nat -> C, ghost i: nat, target: nat, result: C) returns (more: bool, current: nat)
      requires Enabled(View(), Append(i)) && live[i].target == target && result == cacheOf(live[i].current)
      modifies this
      ensures View() == Apply(cacheOf, old(View()), Append(i))
      ensures current == Upper(View()) && (more <==> current <= target)
      ensures old(|cacheVec|) <= 5 ==> |cacheVec| == if old(|cacheVec|) < 5 then old(|cacheVec|) + 1 else 5
      ensures cacheVec != [] && cacheVec[|cacheVec| - 1] == result
    {
      cacheVec := cacheVec + [result];
      if |cacheVec| > EPOCH_VEC_SIZE {
        cacheVec := cacheVec[1..];
        lowerEpoch := Word(lowerEpoch + 1);
      }
      more, current := ContinueOrEnd(i, target);
    }

    /** generate_epoch as a whole, when nothing interferes: it ends, and the window is then right, reaches past
        the target, and answers each of the last five epochs up to the target that it ever covered: all five if
        it was not set before. */
    method GenerateEpoch(cacheOf: nat -> C, target: nat)
      requires Inv(View()) && Window(cacheOf, View()) && live == [Entering(target)]
      modifies this
      ensures Inv(View()) && Window(cacheOf, View()) && live == [] && !isGenerating && Upper(View()) > target
      ensures var from := if old(lowerEpoch) == 0 then target - 4 else old(lowerEpoch);
        forall e: nat :: from <= e && target - 4 <= e <= target ==> Lookup(View(), e) == Some(cacheOf(e))
    {
      ghost var from := if lowerEpoch == 0 then target - 4 else lowerEpoch;
      Advances(cacheOf, View(), Enter(0));
      var more, current := EnterGenerator(cacheOf, 0, target);
      while more
        invariant Generating(cacheOf, View(), target, from)
        invariant current == Upper(View()) && (more <==> current <= target)
        decreases target + 1 - current
      {
        var result := cacheOf(current);
        KeepsGenerating(cacheOf, View(), target, from);
        more, current := AppendCache(cacheOf, 0, target, result);
      }
      Covered(cacheOf, View(), from, target);
    }
  }

  /** The window while a sole generator for the target runs, and when it has ended. */
  ghost predicate Generating<C(!new)>(cacheOf: nat -> C, s: State<C>, target: nat, from: int) {
    && Inv(s) && Window(cacheOf, s) && (s.lowerEpoch <= from || s.lowerEpoch <= target - 4)
    && if Upper(s) <= target then s.live == [Computing(target, Upper(s))] else s.live == [] && !s.isGenerating
  }

  lemma KeepsGenerating<C(!new)>(cacheOf: nat -> C, s: State<C>, target: nat, from: int)
    requires Generating(cacheOf, s, target, from) && Upper(s) <= target
    ensures Enabled(s, Append(0))
    ensures var t := Apply(cacheOf, s, Append(0)); Generating(cacheOf, t, target, from) && Upper(t) == Upper(s) + 1
  {
    Advances(cacheOf, s, Append(0));
    KeepsFive(cacheOf, s);
  }

  /** The oldest cache goes only when the window holds the last five epochs up to the new one. */
  lemma KeepsFive<C>(cacheOf: nat -> C, s: State<C>)
    requires Inv(s) && Enabled(s, Append(0))
    ensures var t := Apply(cacheOf, s, Append(0));
      t.lowerEpoch == s.lowerEpoch || t.lowerEpoch + 4 == Upper(s) <= s.live[0].target
  {
    AppendSize(cacheOf, s, 0);
  }

  lemma Covered<C(!new)>(cacheOf: nat -> C, s: State<C>, from: int, target: nat)
    requires Inv(s) && Window(cacheOf, s) && Upper(s) > target && (s.lowerEpoch <= from || s.lowerEpoch <= target - 4)
    ensures forall e: nat :: from <= e && target - 4 <= e <= target ==> Lookup(s, e) == Some(cacheOf(e))
  {
    LookupIsRight(cacheOf, s);
    forall e: nat | from <= e && target - 4 <= e <= target
      ensures Lookup(s, e) == Some(cacheOf(e))
    {
      assert Lookup(s, e).Some?;
    }
  }

  /** A step of the sole generator keeps the window right and brings the generator closer to its end. */
  lemma Advances<C(!new)>(cacheOf: nat -> C, s: State<C>, step: Step)
    requires Inv(s) && Window(cacheOf, s) && s.live != [] && Enabled(s, step) && (step.Enter? || step.Append?)
    ensures var t := Apply(cacheOf, s, step);
      Inv(t) && Window(cacheOf, t) && (step.Append? ==> Upper(t) == Upper(s) + 1) &&
      (t.live != [] ==> t.live == [Computing(s.live[0].target, Upper(t))]) &&
      (t.live == [] ==> !t.isGenerating && Upper(t) > s.live[0].target)
  {
    GeneratorEnds(cacheOf, s, step);
    StepKeepsInv(cacheOf, s, step);
    InPlaceFits(cacheOf, s, step);
    StepFitsExactly(cacheOf, s, step);
  }
}

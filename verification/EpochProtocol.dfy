/** The window of ethash caches in cross_plugin.cpp: start_epoch and generate_epoch as steps, each a
    stretch of code that holds epoch_mutex. The caches are an arbitrary function of the epoch; epochs are
    64-bit words, and what is computed from them wraps as they do. */
module EpochProtocol {

  const EPOCH_VEC_SIZE: nat := 5

  /** The range of uint64_t. */
  const WORD: nat := 0x1_0000_0000_0000_0000

  /** A live call of generate_epoch: before its first lock, or computing the cache of an epoch unlocked. */
  datatype Generator = Entering(target: nat) | Computing(target: nat, current: nat)

  datatype State<C> = State(lowerEpoch: nat, cacheVec: seq<C>, isGenerating: bool, live: seq<Generator>)

  datatype Option<C> = None | Some(value: C)

  /** start_epoch; a direct call of generate_epoch; the first locked stretch of generator i; its stretch
      from lock.lock() to the next unlock. */
  datatype Step = StartEpoch(epoch: nat) | DirectCall(epoch: nat) | Enter(i: nat) | Append(i: nat)

  /** A sum or difference of two words, as the machine leaves it. */
  function Word(x: int): (w: nat)
    requires -(WORD as int) <= x
  {
    if x < 0 then x + WORD else if x < WORD then x else x - WORD
  }

  lemma WordIsModulo(x: int)
    requires -(WORD as int) <= x < 2 * WORD
    ensures Word(x) == x % WORD
  {}

  /** The first epoch past the window, as the code computes it. */
  function Upper<C>(s: State<C>): nat { Word(s.lowerEpoch + |s.cacheVec|) }

  /** The epoch a window starts at when it is set up for a target: 0, which the code takes for "not set",
      if the target is 4, and close to the end of the words if it is smaller. */
  function NewLower(target: nat): (l: nat)
    ensures target < WORD ==> l < WORD && (l == 0 <==> target == 4)
  {
    Word(target - EPOCH_VEC_SIZE + 1)
  }

  predicate Enabled<C>(s: State<C>, step: Step) {
    match step
    case StartEpoch(epoch) => epoch < WORD
    case DirectCall(epoch) => epoch < WORD
    case Enter(i) => i < |s.live| && s.live[i].Entering?
    case Append(i) => i < |s.live| && s.live[i].Computing?
  }

  /** The loop condition of generate_epoch, evaluated under the lock. */
  function Continue<C>(s: State<C>, i: nat, target: nat): (t: State<C>)
    requires i < |s.live|
    ensures t.lowerEpoch == s.lowerEpoch && t.cacheVec == s.cacheVec
  {
    if Upper(s) <= target then s.(live := s.live[i := Computing(target, Upper(s))])
    else s.(live := s.live[..i] + s.live[i + 1..], isGenerating := false)
  }

  /** emplace_back, and erase of the oldest when there are too many. */
  function Push<C>(s: State<C>, c: C): (t: State<C>)
    ensures t.live == s.live && t.isGenerating == s.isGenerating
  {
    if |s.cacheVec| + 1 > EPOCH_VEC_SIZE then
      s.(cacheVec := (s.cacheVec + [c])[1..], lowerEpoch := Word(s.lowerEpoch + 1))
    else s.(cacheVec := s.cacheVec + [c])
  }

  function SetLower<C>(s: State<C>, target: nat): State<C> {
    if s.lowerEpoch == 0 then s.(lowerEpoch := NewLower(target)) else s
  }

  function Apply<C>(cacheOf: nat -> C, s: State<C>, step: Step): State<C>
    requires Enabled(s, step)
  {
    match step
    case StartEpoch(epoch) =>
      var t := SetLower(s, epoch);
      if !t.isGenerating && Upper(t) <= epoch then t.(isGenerating := true, live := t.live + [Entering(epoch)]) else t
    case DirectCall(epoch) => s.(live := s.live + [Entering(epoch)])
    case Enter(i) => Continue(SetLower(s, s.live[i].target), i, s.live[i].target)
    case Append(i) => Continue(Push(s, cacheOf(s.live[i].current)), i, s.live[i].target)
  }

  predicate Initial<C>(s: State<C>) { s.lowerEpoch == 0 && s.cacheVec == [] && !s.isGenerating && s.live == [] }

  ghost predicate Run<C(!new)>(cacheOf: nat -> C, states: seq<State<C>>, steps: seq<Step>) {
    |states| == |steps| + 1 && Initial(states[0]) &&
    forall i :: 0 <= i < |steps| ==> Leads(cacheOf, states[i], steps[i], states[i + 1])
  }

  ghost predicate Leads<C(!new)>(cacheOf: nat -> C, s: State<C>, step: Step, t: State<C>) {
    Enabled(s, step) && t == Apply(cacheOf, s, step)
  }

  /** The lookup of verifyBlockHeader. */
  function Lookup<C>(s: State<C>, epoch: nat): Option<C> {
    if s.lowerEpoch <= epoch && Upper(s) > epoch then Some(s.cacheVec[epoch - s.lowerEpoch]) else None
  }

  // ---------------------------------------------------------------- every run

  /** At most five caches; everything is a word. */
  predicate Bounded<C>(s: State<C>) {
    s.lowerEpoch < WORD && |s.cacheVec| <= EPOCH_VEC_SIZE && forall i :: 0 <= i < |s.live| ==> IsWord(s.live[i])
  }

  predicate IsWord(g: Generator) { g.target < WORD && (g.Computing? ==> g.current < WORD) }

  lemma StepKeepsBounds<C>(cacheOf: nat -> C, s: State<C>, step: Step)
    requires Bounded(s) && Enabled(s, step)
    ensures Bounded(Apply(cacheOf, s, step))
  {}

  lemma {:induction false} RunKeepsBounds<C(!new)>(cacheOf: nat -> C, states: seq<State<C>>, steps: seq<Step>, i: nat)
    requires Run(cacheOf, states, steps) && i < |states|
    ensures Bounded(states[i])
  {
    if i > 0 {
      RunKeepsBounds(cacheOf, states, steps, i - 1);
      assert Leads(cacheOf, states[i - 1], steps[i - 1], states[i]);
      StepKeepsBounds(cacheOf, states[i - 1], steps[i - 1]);
    }
  }

  /** How many of the steps i .. j-1 append a cache. */
  function Appends(steps: seq<Step>, i: nat, j: nat): nat
    requires i <= j <= |steps|
  {
    if i == j then 0 else Appends(steps, i, j - 1) + AppendCount(steps[j - 1])
  }

  function AppendCount(step: Step): nat { if step.Append? then 1 else 0 }

  /** An append adds the new cache at the end; up to five caches all stay, and then only the oldest goes. */
  lemma AppendSize<C>(cacheOf: nat -> C, s: State<C>, i: nat)
    requires Bounded(s) && Enabled(s, Append(i))
    ensures var t := Apply(cacheOf, s, Append(i)); var out := if |s.cacheVec| == 5 then 1 else 0;
      && t.cacheVec == s.cacheVec[out..] + [cacheOf(s.live[i].current)] && t.lowerEpoch == Word(s.lowerEpoch + out)
      && |t.cacheVec| == if |s.cacheVec| < 5 then |s.cacheVec| + 1 else 5
  {
    var c := cacheOf(s.live[i].current);
    if |s.cacheVec| == 5 { assert (s.cacheVec + [c])[1..] == s.cacheVec[1..] + [c]; }
  }

  /** In every run, with any number of generators, there are as many caches as were appended, up to five. */
  lemma {:induction false} SizeIsAppends<C(!new)>(cacheOf: nat -> C, states: seq<State<C>>, steps: seq<Step>, i: nat)
    requires Run(cacheOf, states, steps) && i < |states|
    ensures |states[i].cacheVec| == if Appends(steps, 0, i) < 5 then Appends(steps, 0, i) else 5
  {
    if i > 0 {
      SizeIsAppends(cacheOf, states, steps, i - 1);
      RunKeepsBounds(cacheOf, states, steps, i - 1);
      assert Leads(cacheOf, states[i - 1], steps[i - 1], states[i]);
      StepSize(cacheOf, states[i - 1], steps[i - 1]);
    }
  }

  lemma StepSize<C>(cacheOf: nat -> C, s: State<C>, step: Step)
    requires Bounded(s) && Enabled(s, step)
    ensures |Apply(cacheOf, s, step).cacheVec| ==
      if |s.cacheVec| + AppendCount(step) < 5 then |s.cacheVec| + AppendCount(step) else 5
  {
    if step.Append? { AppendSize(cacheOf, s, step.i); }
  }

  /** The step takes the end of the window past the last word: an append at the last word, or a request for
      an epoch below 4 that sets the start of a window with too many entries for it. */
  predicate Wraps<C>(s: State<C>, step: Step)
    requires Enabled(s, step)
  {
    match step
    case StartEpoch(epoch) => s.lowerEpoch == 0 && NewLower(epoch) + |s.cacheVec| >= WORD
    case DirectCall(_) => false
    case Enter(i) => s.lowerEpoch == 0 && NewLower(s.live[i].target) + |s.cacheVec| >= WORD
    case Append(_) => Upper(s) == WORD - 1
  }

  /** Whatever the generators do, the end of the window moves on by what is appended, unless it wraps. */
  lemma StepMovesUpper<C>(cacheOf: nat -> C, s: State<C>, step: Step)
    requires Bounded(s) && Enabled(s, step)
    ensures Upper(s) + AppendCount(step) <= Upper(Apply(cacheOf, s, step)) <==> !Wraps(s, step)
  {
    match step
    case Append(i) => PushMovesUpper(s, cacheOf(s.live[i].current));
    case StartEpoch(epoch) => SetLowerMovesUpper(s, epoch);
    case Enter(i) => SetLowerMovesUpper(s, s.live[i].target);
    case DirectCall(_) =>
  }

  lemma PushMovesUpper<C>(s: State<C>, c: C)
    requires Bounded(s)
    ensures Upper(Push(s, c)) == Word(Upper(s) + 1)
  {}

  lemma SetLowerMovesUpper<C>(s: State<C>, target: nat)
    requires Bounded(s) && target < WORD
    ensures Upper(s) <= Upper(SetLower(s, target)) <==> !(s.lowerEpoch == 0 && NewLower(target) + |s.cacheVec| >= WORD)
  {}

  /** In every run, with any number of generators, the end of the window never moves back while nothing
      wraps, and every append moves it on. */
  lemma {:induction false} UpperGrows<C(!new)>(cacheOf: nat -> C, states: seq<State<C>>, steps: seq<Step>, i: nat, j: nat)
    requires Run(cacheOf, states, steps) && i <= j < |states|
    requires forall k :: i <= k < j ==> Enabled(states[k], steps[k]) && !Wraps(states[k], steps[k])
    ensures Upper(states[i]) + Appends(steps, i, j) <= Upper(states[j])
    decreases j
  {
    if i < j {
      UpperGrows(cacheOf, states, steps, i, j - 1);
      RunKeepsBounds(cacheOf, states, steps, j - 1);
      assert Leads(cacheOf, states[j - 1], steps[j - 1], states[j]);
      StepMovesUpper(cacheOf, states[j - 1], steps[j - 1]);
    }
  }

  // ---------------------------------------------------------------- when the window is right

  /** Entry k is the cache of epoch lower + k. */
  ghost predicate Window<C(!new)>(cacheOf: nat -> C, s: State<C>) {
    forall k :: 0 <= k < |s.cacheVec| ==> s.cacheVec[k] == cacheOf(Word(s.lowerEpoch + k))
  }

  /** The step puts nothing in the wrong place: an append adds the cache of the epoch that is next now, not
      of the one that was next before the lock was given up; and a window that starts at 0 is not moved. */
  ghost predicate StepFits<C(!new)>(cacheOf: nat -> C, s: State<C>, step: Step)
    requires Enabled(s, step)
  {
    match step
    case StartEpoch(epoch) => MoveFits(cacheOf, s, epoch)
    case DirectCall(_) => true
    case Enter(i) => MoveFits(cacheOf, s, s.live[i].target)
    case Append(i) => cacheOf(s.live[i].current) == cacheOf(Upper(s))
  }

  /** Moving the window from 0 to where a target wants it. */
  ghost predicate MoveFits<C(!new)>(cacheOf: nat -> C, s: State<C>, target: nat) {
    s.lowerEpoch == 0 ==>
      forall k: nat :: k < |s.cacheVec| ==> cacheOf(k) == cacheOf(Word(NewLower(target) + k))
  }

  /** A right window stays right in a step if and only if the step fits. */
  lemma StepFitsExactly<C(!new)>(cacheOf: nat -> C, s: State<C>, step: Step)
    requires Bounded(s) && Window(cacheOf, s) && Enabled(s, step)
    ensures Window(cacheOf, Apply(cacheOf, s, step)) <==> StepFits(cacheOf, s, step)
  {
    match step
    case Append(i) =>
      PushFits(cacheOf, s, cacheOf(s.live[i].current));
      SameWindow(cacheOf, Push(s, cacheOf(s.live[i].current)), Apply(cacheOf, s, step));
    case StartEpoch(epoch) =>
      MoveKeepsWindow(cacheOf, s, epoch);
      SameWindow(cacheOf, SetLower(s, epoch), Apply(cacheOf, s, step));
    case Enter(i) =>
      MoveKeepsWindow(cacheOf, s, s.live[i].target);
      SameWindow(cacheOf, SetLower(s, s.live[i].target), Apply(cacheOf, s, step));
    case DirectCall(_) =>
  }

  lemma SameWindow<C(!new)>(cacheOf: nat -> C, s: State<C>, t: State<C>)
    requires s.lowerEpoch == t.lowerEpoch && s.cacheVec == t.cacheVec
    ensures Window(cacheOf, s) <==> Window(cacheOf, t)
  {}

  lemma PushFits<C(!new)>(cacheOf: nat -> C, s: State<C>, c: C)
    requires Bounded(s) && Window(cacheOf, s)
    ensures Window(cacheOf, Push(s, c)) <==> c == cacheOf(Upper(s))
  {
    var t := Push(s, c);
    var last := |t.cacheVec| - 1;
    assert Word(t.lowerEpoch + last) == Upper(s) && t.cacheVec[last] == c;
    forall k | 0 <= k < last
      ensures t.cacheVec[k] == cacheOf(Word(t.lowerEpoch + k))
    {
      var from := if |s.cacheVec| + 1 > EPOCH_VEC_SIZE then k + 1 else k;
      assert t.cacheVec[k] == s.cacheVec[from] && Word(t.lowerEpoch + k) == Word(s.lowerEpoch + from);
    }
  }

  lemma MoveKeepsWindow<C(!new)>(cacheOf: nat -> C, s: State<C>, target: nat)
    requires Bounded(s) && Window(cacheOf, s)
    ensures Window(cacheOf, SetLower(s, target)) <==> MoveFits(cacheOf, s, target)
  {
    if s.lowerEpoch == 0 {
      forall k | 0 <= k < |s.cacheVec|
        ensures s.cacheVec[k] == cacheOf(k)
      {
        assert s.cacheVec[k] == cacheOf(Word(s.lowerEpoch + k));
      }
    }
  }

  lemma {:induction false} FittingStepsKeepWindow<C(!new)>(
    cacheOf: nat -> C, states: seq<State<C>>, steps: seq<Step>, i: nat)
    requires Run(cacheOf, states, steps) && i < |states|
    requires forall j :: 0 <= j < i ==> Enabled(states[j], steps[j]) && StepFits(cacheOf, states[j], steps[j])
    ensures Window(cacheOf, states[i])
  {
    if i > 0 {
      FittingStepsKeepWindow(cacheOf, states, steps, i - 1);
      RunKeepsBounds(cacheOf, states, steps, i - 1);
      assert Leads(cacheOf, states[i - 1], steps[i - 1], states[i]);
      StepFitsExactly(cacheOf, states[i - 1], steps[i - 1]);
    }
  }

  ghost predicate AlwaysRight<C(!new)>(cacheOf: nat -> C, states: seq<State<C>>) {
    forall i :: 0 <= i < |states| ==> Window(cacheOf, states[i])
  }

  ghost predicate AllFit<C(!new)>(cacheOf: nat -> C, states: seq<State<C>>, steps: seq<Step>) {
    |states| == |steps| + 1 &&
    forall j :: 0 <= j < |steps| ==> Enabled(states[j], steps[j]) && StepFits(cacheOf, states[j], steps[j])
  }

  /** A run, with any number of generators and any requests, has the right window throughout if and only if
      each of its steps fits. */
  lemma WindowRightExactly<C(!new)>(cacheOf: nat -> C, states: seq<State<C>>, steps: seq<Step>)
    requires Run(cacheOf, states, steps)
    ensures AlwaysRight(cacheOf, states) <==> AllFit(cacheOf, states, steps)
  {
    if AllFit(cacheOf, states, steps) {
      forall i | 0 <= i < |states|
        ensures Window(cacheOf, states[i])
      {
        FittingStepsKeepWindow(cacheOf, states, steps, i);
      }
    }
    if AlwaysRight(cacheOf, states) {
      forall j | 0 <= j < |steps|
        ensures Enabled(states[j], steps[j]) && StepFits(cacheOf, states[j], steps[j])
      {
        RunKeepsBounds(cacheOf, states, steps, j);
        assert Leads(cacheOf, states[j], steps[j], states[j + 1]);
        StepFitsExactly(cacheOf, states[j], steps[j]);
      }
    }
  }

  /** Different epochs have different caches. */
  ghost predicate Distinguishes<C(!new)>(cacheOf: nat -> C) {
    forall a: nat, b: nat :: a < WORD && b < WORD && cacheOf(a) == cacheOf(b) ==> a == b
  }

  /** What the code would have to test: after locking again, that the epoch it computed is still the next
      one; and before setting lower_epoch, that the window is empty or the target is 4. */
  predicate StepInPlace<C>(s: State<C>, step: Step)
    requires Enabled(s, step)
  {
    match step
    case StartEpoch(epoch) => s.lowerEpoch == 0 && s.cacheVec != [] ==> epoch == 4
    case DirectCall(_) => true
    case Enter(i) => s.lowerEpoch == 0 && s.cacheVec != [] ==> s.live[i].target == 4
    case Append(i) => s.live[i].current == Upper(s)
  }

  lemma InPlaceFits<C(!new)>(cacheOf: nat -> C, s: State<C>, step: Step)
    requires Bounded(s) && Enabled(s, step)
    ensures StepInPlace(s, step) ==> StepFits(cacheOf, s, step)
    ensures Distinguishes(cacheOf) && StepFits(cacheOf, s, step) ==> StepInPlace(s, step)
  {
    match step
    case StartEpoch(epoch) => InPlaceMove(cacheOf, s, epoch);
    case Enter(i) => InPlaceMove(cacheOf, s, s.live[i].target);
    case _ =>
  }

  lemma InPlaceMove<C(!new)>(cacheOf: nat -> C, s: State<C>, target: nat)
    requires Bounded(s) && target < WORD
    ensures (s.lowerEpoch == 0 && s.cacheVec != [] ==> target == 4) ==> MoveFits(cacheOf, s, target)
    ensures Distinguishes(cacheOf) && MoveFits(cacheOf, s, target) ==>
      (s.lowerEpoch == 0 && s.cacheVec != [] ==> target == 4)
  {
    if s.lowerEpoch == 0 && s.cacheVec != [] && MoveFits(cacheOf, s, target) {
      assert cacheOf(0) == cacheOf(Word(NewLower(target) + 0));
    }
  }

  /** Every lookup returns the cache of the epoch it asks for. */
  ghost predicate LookupsRight<C(!new)>(cacheOf: nat -> C, s: State<C>) {
    forall epoch: nat :: Lookup(s, epoch).Some? ==> Lookup(s, epoch).value == cacheOf(epoch)
  }

  /** A right window answers every lookup rightly; and only a right one does, unless it wraps. */
  lemma LookupIsRight<C(!new)>(cacheOf: nat -> C, s: State<C>)
    requires Bounded(s)
    ensures Window(cacheOf, s) ==> LookupsRight(cacheOf, s)
    ensures LookupsRight(cacheOf, s) && s.lowerEpoch + |s.cacheVec| < WORD ==> Window(cacheOf, s)
  {
    if Window(cacheOf, s) {
      forall epoch: nat | Lookup(s, epoch).Some?
        ensures Lookup(s, epoch).value == cacheOf(epoch)
      {
        var k := epoch - s.lowerEpoch;
        assert s.cacheVec[k] == cacheOf(Word(s.lowerEpoch + k));
      }
    }
    if LookupsRight(cacheOf, s) && s.lowerEpoch + |s.cacheVec| < WORD {
      forall k | 0 <= k < |s.cacheVec|
        ensures s.cacheVec[k] == cacheOf(Word(s.lowerEpoch + k))
      {
        assert Lookup(s, s.lowerEpoch + k).Some?;
      }
    }
  }

  /** Where different epochs have different caches and no window reaches the end of the words, all lookups of
      a run are right if and only if every step is in place. */
  lemma LookupsRightExactly<C(!new)>(cacheOf: nat -> C, states: seq<State<C>>, steps: seq<Step>)
    requires Run(cacheOf, states, steps) && Distinguishes(cacheOf)
    requires forall i :: 0 <= i < |states| ==> states[i].lowerEpoch + |states[i].cacheVec| < WORD
    ensures (forall i :: 0 <= i < |states| ==> LookupsRight(cacheOf, states[i])) <==>
      forall j :: 0 <= j < |steps| ==> Enabled(states[j], steps[j]) && StepInPlace(states[j], steps[j])
  {
    forall i | 0 <= i < |states|
      ensures Window(cacheOf, states[i]) <==> LookupsRight(cacheOf, states[i])
    {
      RunKeepsBounds(cacheOf, states, steps, i);
      LookupIsRight(cacheOf, states[i]);
    }
    forall j | 0 <= j < |steps|
      ensures Enabled(states[j], steps[j])
      ensures StepInPlace(states[j], steps[j]) <==> StepFits(cacheOf, states[j], steps[j])
    {
      RunKeepsBounds(cacheOf, states, steps, j);
      assert Leads(cacheOf, states[j], steps[j], states[j + 1]);
      InPlaceFits(cacheOf, states[j], steps[j]);
    }
    WindowRightExactly(cacheOf, states, steps);
  }

  // ---------------------------------------------------------------- one generator at a time

  /** No two calls of generate_epoch overlap. */
  ghost predicate OneGenerator<C(!new)>(states: seq<State<C>>) { forall i :: 0 <= i < |states| ==> |states[i].live| <= 1 }

  /** A target that neither makes a window start at 0 or before it nor lets the loop run for ever. */
  predicate Reasonable(step: Step) {
    match step
    case StartEpoch(epoch) => EPOCH_VEC_SIZE <= epoch < WORD - 1
    case DirectCall(epoch) => EPOCH_VEC_SIZE <= epoch < WORD - 1
    case _ => true
  }

  /** Where a sole generator stands: while it computes, it computes the next epoch. */
  predicate Inv<C>(s: State<C>) {
    Bounded(s) && s.lowerEpoch + |s.cacheVec| < WORD && (s.cacheVec != [] ==> s.lowerEpoch > 0) &&
    |s.live| <= 1 && (s.isGenerating ==> s.live != []) && (s.live != [] ==> GeneratorOk(s, s.live[0]))
  }

  predicate GeneratorOk<C>(s: State<C>, g: Generator) {
    EPOCH_VEC_SIZE <= g.target < WORD - 1 &&
    (g.Computing? ==> s.lowerEpoch > 0 && g.current == Upper(s) <= g.target)
  }

  /** With one generator and reasonable targets every step is in place. */
  lemma StepKeepsInv<C>(cacheOf: nat -> C, s: State<C>, step: Step)
    requires Inv(s) && Enabled(s, step) && Reasonable(step) && |Apply(cacheOf, s, step).live| <= 1
    ensures Inv(Apply(cacheOf, s, step)) && StepInPlace(s, step) && !Wraps(s, step)
  {
    match step
    case StartEpoch(epoch) => RequestKeepsInv(cacheOf, s, epoch);
    case DirectCall(_) =>
    case Enter(_) => EnterKeepsInv(cacheOf, s);
    case Append(_) => AppendKeepsInv(cacheOf, s);
  }

  lemma RequestKeepsInv<C>(cacheOf: nat -> C, s: State<C>, epoch: nat)
    requires Inv(s) && Reasonable(StartEpoch(epoch)) && |Apply(cacheOf, s, StartEpoch(epoch)).live| <= 1
    ensures Inv(Apply(cacheOf, s, StartEpoch(epoch))) && !Wraps(s, StartEpoch(epoch))
  {}

  lemma EnterKeepsInv<C>(cacheOf: nat -> C, s: State<C>)
    requires Inv(s) && Enabled(s, Enter(0))
    ensures Inv(Apply(cacheOf, s, Enter(0))) && !Wraps(s, Enter(0))
  {}

  lemma AppendKeepsInv<C>(cacheOf: nat -> C, s: State<C>)
    requires Inv(s) && Enabled(s, Append(0))
    ensures Inv(Apply(cacheOf, s, Append(0))) && !Wraps(s, Append(0))
  {
    PushMovesUpper(s, cacheOf(s.live[0].current));
  }

  lemma {:induction false} RunKeepsInv<C(!new)>(cacheOf: nat -> C, states: seq<State<C>>, steps: seq<Step>, i: nat)
    requires Run(cacheOf, states, steps) && OneGenerator(states) && i < |states|
    requires forall j :: 0 <= j < i ==> Reasonable(steps[j])
    ensures Inv(states[i])
  {
    if i > 0 {
      RunKeepsInv(cacheOf, states, steps, i - 1);
      assert Leads(cacheOf, states[i - 1], steps[i - 1], states[i]) && |states[i].live| <= 1;
      StepKeepsInv(cacheOf, states[i - 1], steps[i - 1]);
    }
  }

  /** So, while generators do not overlap, every lookup is right. */
  lemma SoleGeneratorIsRight<C(!new)>(cacheOf: nat -> C, states: seq<State<C>>, steps: seq<Step>, i: nat)
    requires Run(cacheOf, states, steps) && OneGenerator(states) && i < |states|
    requires forall j :: 0 <= j < i ==> Reasonable(steps[j])
    ensures Window(cacheOf, states[i]) && LookupsRight(cacheOf, states[i])
  {
    forall j | 0 <= j < i
      ensures Enabled(states[j], steps[j]) && StepFits(cacheOf, states[j], steps[j])
    {
      RunKeepsInv(cacheOf, states, steps, j);
      assert Leads(cacheOf, states[j], steps[j], states[j + 1]) && |states[j + 1].live| <= 1;
      StepKeepsInv(cacheOf, states[j], steps[j]);
      InPlaceFits(cacheOf, states[j], steps[j]);
    }
    FittingStepsKeepWindow(cacheOf, states, steps, i);
    RunKeepsBounds(cacheOf, states, steps, i);
    LookupIsRight(cacheOf, states[i]);
  }

  /** Once there are caches, the end of the window moves only with appends. */
  lemma StepMovesUpperExactly<C>(cacheOf: nat -> C, s: State<C>, step: Step)
    requires Inv(s) && s.cacheVec != [] && Enabled(s, step) && Reasonable(step) && |Apply(cacheOf, s, step).live| <= 1
    ensures Upper(Apply(cacheOf, s, step)) == Upper(s) + AppendCount(step)
  {
    match step
    case Append(_) => PushMovesUpper(s, cacheOf(s.live[0].current));
    case _ =>
  }

  lemma AppendsSplit(steps: seq<Step>, i: nat, k: nat, j: nat)
    requires i <= k <= j <= |steps|
    ensures Appends(steps, i, j) == Appends(steps, i, k) + Appends(steps, k, j)
    decreases j
  {
    if k < j { AppendsSplit(steps, i, k, j - 1); }
  }

  lemma {:induction false} AppendsAfter(steps: seq<Step>, k: nat, i: nat)
    requires k < i <= |steps| && steps[k].Append?
    ensures Appends(steps, 0, i) >= Appends(steps, k, i) >= 1
  {
    AppendsSplit(steps, 0, k, i);
    AppendsSplit(steps, k, k + 1, i);
    assert Appends(steps, k, k) == 0;
  }

  /** In a run without overlapping generators, once there are caches, the end of the window moves only with
      appends, and what is appended is the epoch that is next. */
  lemma RunMovesUpper<C(!new)>(cacheOf: nat -> C, states: seq<State<C>>, steps: seq<Step>, j: nat)
    requires Run(cacheOf, states, steps) && OneGenerator(states) && j < |steps|
    requires forall l :: 0 <= l <= j ==> Reasonable(steps[l])
    ensures Enabled(states[j], steps[j])
    ensures steps[j].Append? ==> states[j].live[steps[j].i].current == Upper(states[j])
    ensures steps[j].Append? || states[j].cacheVec != [] ==>
      Upper(states[j + 1]) == Upper(states[j]) + AppendCount(steps[j])
  {
    RunKeepsInv(cacheOf, states, steps, j);
    assert Leads(cacheOf, states[j], steps[j], states[j + 1]) && |states[j + 1].live| <= 1;
    if steps[j].Append? {
      PushMovesUpper(states[j], cacheOf(states[j].live[0].current));
    } else if states[j].cacheVec != [] {
      StepMovesUpperExactly(cacheOf, states[j], steps[j]);
    }
  }

  lemma HasCaches<C(!new)>(cacheOf: nat -> C, states: seq<State<C>>, steps: seq<Step>, k: nat, i: nat)
    requires Run(cacheOf, states, steps) && k < i < |states| && steps[k].Append?
    ensures states[i].cacheVec != []
  {
    AppendsAfter(steps, k, i);
    SizeIsAppends(cacheOf, states, steps, i);
  }

  lemma {:induction false} CountedUp(uppers: seq<nat>, steps: seq<Step>, k: nat, i: nat)
    requires |uppers| == |steps| + 1 && k <= i < |uppers|
    requires forall j :: k <= j < i ==> uppers[j + 1] == uppers[j] + AppendCount(steps[j])
    ensures uppers[i] == uppers[k] + Appends(steps, k, i)
    decreases i
  {
    if k < i {
      CountedUp(uppers, steps, k, i - 1);
      assert uppers[i - 1 + 1] == uppers[i - 1] + AppendCount(steps[i - 1]);
    }
  }

  lemma UpperSinceAppend<C(!new)>(cacheOf: nat -> C, states: seq<State<C>>, steps: seq<Step>, k: nat, i: nat)
    requires Run(cacheOf, states, steps) && OneGenerator(states) && k < i < |states| && steps[k].Append?
    requires forall j :: 0 <= j < i ==> Reasonable(steps[j])
    ensures Upper(states[i]) == Upper(states[k]) + Appends(steps, k, i)
  {
    var uppers := seq(|states|, j requires 0 <= j < |states| => Upper(states[j]));
    forall j | k <= j < i
      ensures uppers[j + 1] == uppers[j] + AppendCount(steps[j])
    {
      if k < j { HasCaches(cacheOf, states, steps, k, j); }
      RunMovesUpper(cacheOf, states, steps, j);
    }
    CountedUp(uppers, steps, k, i);
  }

  /** While generators do not overlap, a cache stays until five more have been appended: the epochs of the last
      five appends are all answered, each with its cache. */
  lemma LastFiveAnswered<C(!new)>(cacheOf: nat -> C, states: seq<State<C>>, steps: seq<Step>, k: nat, i: nat)
    requires Run(cacheOf, states, steps) && OneGenerator(states) && k < i < |states| && steps[k].Append?
    requires forall j :: 0 <= j < i ==> Reasonable(steps[j])
    requires Appends(steps, k, i) <= 5
    ensures Enabled(states[k], steps[k])
    ensures var epoch := states[k].live[steps[k].i].current; Lookup(states[i], epoch) == Some(cacheOf(epoch))
  {
    RunMovesUpper(cacheOf, states, steps, k);
    UpperSinceAppend(cacheOf, states, steps, k, i);
    AppendsAfter(steps, k, i);
    SizeIsAppends(cacheOf, states, steps, i);
    RunKeepsInv(cacheOf, states, steps, i);
    SoleGeneratorIsRight(cacheOf, states, steps, i);
    assert Lookup(states[i], Upper(states[k])).Some?;
  }

  /** However requests interleave with it, a generator that is still computing has made no more appends than
      its target allows: since step i at most target - Upper of the state then. */
  lemma AppendsBounded<C(!new)>(cacheOf: nat -> C, states: seq<State<C>>, steps: seq<Step>, i: nat, j: nat)
    requires Run(cacheOf, states, steps) && OneGenerator(states) && i <= j < |states|
    requires forall k :: 0 <= k < j ==> Reasonable(steps[k])
    requires states[j].live != [] && states[j].live[0].Computing?
    ensures Upper(states[i]) + Appends(steps, i, j) <= states[j].live[0].target
  {
    forall k | i <= k < j
      ensures Enabled(states[k], steps[k]) && !Wraps(states[k], steps[k])
    {
      RunKeepsInv(cacheOf, states, steps, k);
      assert Leads(cacheOf, states[k], steps[k], states[k + 1]) && |states[k + 1].live| <= 1;
      StepKeepsInv(cacheOf, states[k], steps[k]);
    }
    UpperGrows(cacheOf, states, steps, i, j);
    RunKeepsInv(cacheOf, states, steps, j);
  }

  /** A generator ends exactly when the window reaches past its target, and then clears the flag; an append
      moves the end of the window by one, so a generator for epoch e takes e + 1 - Upper appends. */
  lemma GeneratorEnds<C(!new)>(cacheOf: nat -> C, s: State<C>, step: Step)
    requires Inv(s) && Window(cacheOf, s) && |s.live| == 1 && Enabled(s, step) && (step.Enter? || step.Append?)
    ensures var t := Apply(cacheOf, s, step); var target := s.live[0].target;
      (t.live == [] <==> Upper(t) > target) && (t.live == [] ==> !t.isGenerating) &&
      (t.live != [] ==> t.live == [Computing(target, Upper(t))]) &&
      (step.Append? ==> Upper(t) == Upper(s) + 1 && Lookup(t, Upper(s)) == Some(cacheOf(Upper(s))))
  {
    if step.Append? {
      AppendAdvances(cacheOf, s);
      ContinueEnds(Push(s, cacheOf(s.live[0].current)), s.live[0].target);
    } else {
      ContinueEnds(SetLower(s, s.live[0].target), s.live[0].target);
    }
  }

  lemma ContinueEnds<C>(s: State<C>, target: nat)
    requires |s.live| == 1
    ensures var t := Continue(s, 0, target);
      Upper(t) == Upper(s) && (t.live == [] <==> Upper(t) > target) && (t.live == [] ==> !t.isGenerating) &&
      (t.live != [] ==> t.live == [Computing(target, Upper(t))])
  {}

  lemma AppendAdvances<C(!new)>(cacheOf: nat -> C, s: State<C>)
    requires Inv(s) && Window(cacheOf, s) && s.live != [] && s.live[0].Computing?
    ensures var t := Push(s, cacheOf(s.live[0].current));
      Upper(t) == Upper(s) + 1 && Lookup(t, Upper(s)) == Some(cacheOf(Upper(s)))
  {
    var t := Push(s, cacheOf(s.live[0].current));
    PushMovesUpper(s, cacheOf(s.live[0].current));
    assert Upper(s) - t.lowerEpoch == |t.cacheVec| - 1;
  }

  /** Requests that arrive while a flagged generator computes leave the window and the generator alone. */
  lemma RequestsLeaveGeneratorAlone<C(!new)>(cacheOf: nat -> C, s: State<C>, epoch: nat)
    requires Inv(s) && s.isGenerating && s.live[0].Computing? && epoch < WORD
    ensures Apply(cacheOf, s, StartEpoch(epoch)) == s
  {
    assert s.lowerEpoch > 0;
  }

  /** start_epoch alone never lets two generators overlap: its flag sees to that. */
  lemma {:induction false} FlagExcludesSecond<C(!new)>(cacheOf: nat -> C, states: seq<State<C>>, steps: seq<Step>, i: nat)
    requires Run(cacheOf, states, steps) && i < |states| && forall j :: 0 <= j < i ==> !steps[j].DirectCall?
    ensures |states[i].live| <= 1 && (states[i].live != [] ==> states[i].isGenerating)
  {
    if i > 0 {
      FlagExcludesSecond(cacheOf, states, steps, i - 1);
      assert Leads(cacheOf, states[i - 1], steps[i - 1], states[i]);
      StepKeepsFlag(cacheOf, states[i - 1], steps[i - 1]);
    }
  }

  lemma StepKeepsFlag<C>(cacheOf: nat -> C, s: State<C>, step: Step)
    requires Enabled(s, step) && !step.DirectCall? && |s.live| <= 1 && (s.live != [] ==> s.isGenerating)
    ensures var t := Apply(cacheOf, s, step); |t.live| <= 1 && (t.live != [] ==> t.isGenerating)
  {}

  // ---------------------------------------------------------------- runs that go wrong

  lemma RunExtends<C(!new)>(cacheOf: nat -> C, states: seq<State<C>>, steps: seq<Step>, step: Step, t: State<C>)
    requires Run(cacheOf, states, steps) && Leads(cacheOf, states[|steps|], step, t)
    ensures Run(cacheOf, states + [t], steps + [step]) && (states + [t])[|steps + [step]|] == t
  {}

  /** A state that some run reaches. */
  ghost predicate Reachable<C(!new)>(cacheOf: nat -> C, s: State<C>) {
    exists states: seq<State<C>>, steps: seq<Step> :: Run(cacheOf, states, steps) && states[|steps|] == s
  }

  lemma ReachFirst<C(!new)>(cacheOf: nat -> C, s: State<C>)
    requires Initial(s)
    ensures Reachable(cacheOf, s)
  {
    assert Run(cacheOf, [s], []) && [s][0] == s;
  }

  lemma ReachNext<C(!new)>(cacheOf: nat -> C, s: State<C>, step: Step, t: State<C>)
    requires Reachable(cacheOf, s) && Leads(cacheOf, s, step, t)
    ensures Reachable(cacheOf, t)
  {
    var states: seq<State<C>>, steps: seq<Step> :| Run(cacheOf, states, steps) && states[|steps|] == s;
    RunExtends(cacheOf, states, steps, step, t);
  }

  /** A direct call heeds no flag: one made while the generator of a request computes enters beside it, both
      compute the same epoch, and the window then holds it twice. Epoch 6 is answered with the cache of
      epoch 5. */
  lemma OverlappingGeneratorsBreakWindow<C(!new)>(cacheOf: nat -> C)
    requires cacheOf(5) != cacheOf(6)
    ensures exists s: State<C> :: Reachable(cacheOf, s) && Lookup(s, 6) == Some(cacheOf(5)) != Some(cacheOf(6))
  {
    var c := cacheOf(5);
    var s0: State<C> := State(0, [], false, []);
    var s2: State<C> := State(5, [], true, [Computing(9, 5)]);
    var s4: State<C> := State(5, [], true, [Computing(9, 5), Computing(9, 5)]);
    var s6 := State(5, [c, c], true, [Computing(9, 6), Computing(9, 7)]);
    ReachFirst(cacheOf, s0);
    FirstEnters(cacheOf, s0, s2);
    SecondEnters(cacheOf, s2, s4);
    BothAppend(cacheOf, s4, s6);
    assert Lookup(s6, 6) == Some(c);
  }

  lemma FirstEnters<C(!new)>(cacheOf: nat -> C, s: State<C>, u: State<C>)
    requires s == State(0, [], false, []) && Reachable(cacheOf, s)
    requires u == State(5, [], true, [Computing(9, 5)])
    ensures Reachable(cacheOf, u)
  {
    var t: State<C> := State(5, [], true, [Entering(9)]);
    ReachNext(cacheOf, s, StartEpoch(9), t);
    ReachNext(cacheOf, t, Enter(0), u);
  }

  lemma SecondEnters<C(!new)>(cacheOf: nat -> C, s: State<C>, u: State<C>)
    requires s == State(5, [], true, [Computing(9, 5)]) && Reachable(cacheOf, s)
    requires u == State(5, [], true, [Computing(9, 5), Computing(9, 5)])
    ensures Reachable(cacheOf, u)
  {
    var t: State<C> := State(5, [], true, [Computing(9, 5), Entering(9)]);
    ReachNext(cacheOf, s, DirectCall(9), t);
    ReachNext(cacheOf, t, Enter(1), u);
  }

  lemma BothAppend<C(!new)>(cacheOf: nat -> C, s: State<C>, u: State<C>)
    requires s == State(5, [], true, [Computing(9, 5), Computing(9, 5)]) && Reachable(cacheOf, s)
    requires u == State(5, [cacheOf(5), cacheOf(5)], true, [Computing(9, 6), Computing(9, 7)])
    ensures Reachable(cacheOf, u)
  {
    var t := State(5, [cacheOf(5)], true, [Computing(9, 6), Computing(9, 5)]);
    ReachNext(cacheOf, s, Append(0), t);
    ReachNext(cacheOf, t, Append(1), u);
  }

  /** A request for epoch 4 makes the window start at 0, which the next request takes for "not set": it moves
      the window under the caches already in it. Epoch 1 is answered with the cache of epoch 0. */
  lemma WindowFromZeroIsMoved<C(!new)>(cacheOf: nat -> C)
    requires cacheOf(0) != cacheOf(1)
    ensures exists s: State<C> :: Reachable(cacheOf, s) && Lookup(s, 1) == Some(cacheOf(0)) != Some(cacheOf(1))
  {
    var c := cacheOf(0);
    var s0: State<C> := State(0, [], false, []);
    var s2: State<C> := State(0, [], true, [Computing(4, 0)]);
    var s4 := State(1, [c], true, [Computing(4, 1)]);
    ReachFirst(cacheOf, s0);
    EntersAtZero(cacheOf, s0, s2);
    MovesFromZero(cacheOf, s2, s4);
    assert Lookup(s4, 1) == Some(c);
  }

  lemma EntersAtZero<C(!new)>(cacheOf: nat -> C, s: State<C>, u: State<C>)
    requires s == State(0, [], false, []) && Reachable(cacheOf, s)
    requires u == State(0, [], true, [Computing(4, 0)])
    ensures Reachable(cacheOf, u)
  {
    var t: State<C> := State(0, [], true, [Entering(4)]);
    ReachNext(cacheOf, s, StartEpoch(4), t);
    ReachNext(cacheOf, t, Enter(0), u);
  }

  lemma MovesFromZero<C(!new)>(cacheOf: nat -> C, s: State<C>, u: State<C>)
    requires s == State(0, [], true, [Computing(4, 0)]) && Reachable(cacheOf, s)
    requires u == State(1, [cacheOf(0)], true, [Computing(4, 1)])
    ensures Reachable(cacheOf, u)
  {
    var t := State(0, [cacheOf(0)], true, [Computing(4, 1)]);
    ReachNext(cacheOf, s, Append(0), t);
    ReachNext(cacheOf, t, StartEpoch(5), u);
  }

  /** A first request starts a generator if and only if it is for an epoch from 4 on. */
  lemma FirstRequestStarts<C(!new)>(cacheOf: nat -> C, s: State<C>, epoch: nat)
    requires Initial(s) && epoch < WORD
    ensures Apply(cacheOf, s, StartEpoch(epoch)).live != [] <==> epoch >= 4
  {}

  /** Targets that come from block numbers stay far from the end of the words. */
  predicate Early(step: Step) {
    match step
    case StartEpoch(epoch) => epoch < WORD - 4
    case DirectCall(epoch) => epoch < WORD - 4
    case _ => true
  }

  /** The window starts at the end of the words and is empty, and whoever is live will end on entering. */
  predicate Disabled<C>(s: State<C>) {
    WORD - 4 <= s.lowerEpoch < WORD && s.cacheVec == [] &&
    forall i :: 0 <= i < |s.live| ==> s.live[i].Entering? && s.live[i].target < WORD - 4
  }

  /** And a first request for an epoch below 4 disables the window for good: no later request or call ever
      computes a cache, and every lookup fails. */
  lemma {:induction false} SmallRequestDisables<C(!new)>(cacheOf: nat -> C, states: seq<State<C>>, steps: seq<Step>, i: nat)
    requires Run(cacheOf, states, steps) && 0 < i < |states|
    requires steps[0].StartEpoch? && steps[0].epoch < 4
    requires forall j :: 0 < j < i ==> Early(steps[j])
    ensures Disabled(states[i]) && forall epoch: nat :: Lookup(states[i], epoch).None?
  {
    assert Leads(cacheOf, states[i - 1], steps[i - 1], states[i]);
    if i > 1 {
      SmallRequestDisables(cacheOf, states, steps, i - 1);
      StepKeepsDisabled(cacheOf, states[i - 1], steps[i - 1]);
    }
  }

  lemma StepKeepsDisabled<C>(cacheOf: nat -> C, s: State<C>, step: Step)
    requires Disabled(s) && Enabled(s, step) && Early(step)
    ensures Disabled(Apply(cacheOf, s, step))
  {}
}

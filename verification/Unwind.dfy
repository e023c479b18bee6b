/**
 The goto ladders of module init functions. A ladder is a list of steps, each of which may
 acquire a resource and names the label to jump to when it fails, and the list of releases
 below the labels, which fall through to the end. One theorem covers ladders of any length;
 examples/blkram.c (6.9 and later), examples/dht11.c and examples/bottomhalf.c (without
 gpio_request_array) are instances, each written out with its own gotos as well.
 */
module Unwind {
  import opened Common

  /**
   How a step reports failure: `if (ret)`, `if (ret < 0)` (also IS_ERR, an error pointer
   being a negative number) and `if (!p)`, which the code turns into -ENOMEM.
   */
  datatype Check = Status | Negative | Pointer

  const ENOMEM: int := 12

  predicate Failed(check: Check, result: int) {
    match check
    case Status => result != 0
    case Negative => result < 0
    case Pointer => result == 0
  }

  function ErrorOf(check: Check, result: int): int {
    if check.Pointer? then -ENOMEM else result
  }

  /** `target` is the index in the list of releases from which a failure runs. */
  datatype Step<T> = Step(check: Check, acquires: Option<T>, target: nat)

  datatype Ladder<T> = Ladder(steps: seq<Step<T>>, releases: seq<T>)

  /** What the first n steps hold, in the order of acquisition. */
  function Held<T>(steps: seq<Step<T>>, n: nat): seq<T>
    requires n <= |steps|
    decreases n, |steps|
  {
    if n == 0 then [] else
    Held(steps, n - 1) + if steps[n-1].acquires.Some? then [steps[n-1].acquires.value] else []
  }

  function Reversed<T>(s: seq<T>): (r: seq<T>)
    ensures |r| == |s| && forall k :: 0 <= k < |s| ==> r[k] == s[|s| - 1 - k]
  {
    seq(|s|, k requires 0 <= k < |s| => s[|s| - 1 - k])
  }

  /** The releases from index i up to index j; a jump falls through from its label to the end. */
  function Between<T>(releases: seq<T>, i: nat, j: nat): (r: seq<T>)
    requires i <= j <= |releases|
  {
    seq(j - i, k requires 0 <= k < j - i => releases[i+k])
  }

  function FallThrough<T>(releases: seq<T>, first: nat): seq<T>
  {
    if first <= |releases| then Between(releases, first, |releases|) else []
  }

  /** Each label is the one before it moved up by what the step before it acquired. */
  predicate WellLabelled<T(==)>(l: Ladder<T>) {
    && (l.steps != [] ==> l.steps[0].target == |l.releases|)
    && (forall k :: 0 <= k < |l.steps| ==> l.steps[k].target <= |l.releases|)
    && (forall k :: 0 < k < |l.steps| ==>
          match l.steps[k-1].acquires
          case None => l.steps[k].target == l.steps[k-1].target
          case Some(r) => l.steps[k].target + 1 == l.steps[k-1].target && l.releases[l.steps[k].target] == r)
  }

  /** The first failing step among the first n, or n. */
  function FirstFailure<T>(steps: seq<Step<T>>, results: seq<int>, n: nat): (k: nat)
    requires n <= |steps| == |results|
    ensures k <= n && (k < n ==> Failed(steps[k].check, results[k]))
    decreases n, |results|
  {
    if n == 0 then 0 else
    var k := FirstFailure(steps, results, n - 1);
    if k < n - 1 then k else if Failed(steps[n-1].check, results[n-1]) then n - 1 else n
  }

  lemma {:induction false} NoneBefore<T>(steps: seq<Step<T>>, results: seq<int>, n: nat)
    requires n <= |steps| == |results|
    ensures forall j :: 0 <= j < FirstFailure(steps, results, n) ==> !Failed(steps[j].check, results[j])
    decreases n
  {
    if n > 0 { NoneBefore(steps, results, n - 1); }
  }

  datatype Outcome<T> = Outcome(ret: int, acquired: seq<T>, released: seq<T>)

  function Run<T>(l: Ladder<T>, results: seq<int>): Outcome<T>
    requires |results| == |l.steps|
  {
    var k := FirstFailure(l.steps, results, |results|);
    if k == |l.steps| then Outcome(0, Held(l.steps, k), []) else
    Outcome(ErrorOf(l.steps[k].check, results[k]), Held(l.steps, k), FallThrough(l.releases, l.steps[k].target))
  }

  /** The label of step k sits on the reverse of what is held there. */
  lemma {:induction false} LabelReleasesHeld<T>(l: Ladder<T>, k: nat)
    requires WellLabelled(l) && k < |l.steps|
    ensures FallThrough(l.releases, l.steps[k].target) == Reversed(Held(l.steps, k))
    decreases k
  {
    if k > 0 {
      LabelReleasesHeld(l, k - 1);
      var r := l.steps[k-1].acquires;
      if r.Some? {
        ReversedAppend(Held(l.steps, k - 1), r.value);
        FallThroughOne(l.releases, l.steps[k].target);
      }
    }
  }

  lemma ReversedAppend<T>(s: seq<T>, x: T)
    ensures Reversed(s + [x]) == [x] + Reversed(s)
  {
  }

  lemma FallThroughOne<T>(releases: seq<T>, first: nat)
    requires first < |releases|
    ensures FallThrough(releases, first) == [releases[first]] + FallThrough(releases, first + 1)
  {
  }

  /**
   The unwind theorem: in a well-labelled ladder of any length, whichever step fails first,
   exactly what has been acquired is released, once each and in reverse order, and the
   error of that step is returned; without a failure nothing is released.
   */
  lemma UnwindIsExact<T>(l: Ladder<T>, results: seq<int>)
    requires WellLabelled(l) && |results| == |l.steps|
    ensures var r := Run(l, results);
            if forall k :: 0 <= k < |results| ==> !Failed(l.steps[k].check, results[k])
            then r.ret == 0 && r.released == [] && r.acquired == Held(l.steps, |l.steps|)
            else r.ret != 0 && r.released == Reversed(r.acquired)
  {
    var k := FirstFailure(l.steps, results, |results|);
    NoneBefore(l.steps, results, |results|);
    if k < |l.steps| { LabelReleasesHeld(l, k); }
  }

  /** A label off by anything shows at its step. */
  lemma {:induction false} OnlyWellLabelled<T(!new)>(l: Ladder<T>)
    requires forall k: nat :: k < |l.steps| ==> l.steps[k].target <= |l.releases|
    requires forall k: nat :: k < |l.steps| ==> FallThrough(l.releases, l.steps[k].target) == Reversed(Held(l.steps, k))
    ensures WellLabelled(l)
  {
    if l.steps != [] {
      assert FallThrough(l.releases, l.steps[0].target) == Reversed(Held(l.steps, 0));
    }
    forall k | 0 < k < |l.steps|
      ensures match l.steps[k-1].acquires
        case None => l.steps[k].target == l.steps[k-1].target
        case Some(r) => l.steps[k].target + 1 == l.steps[k-1].target && l.releases[l.steps[k].target] == r
    {
      var a, b := FallThrough(l.releases, l.steps[k-1].target), FallThrough(l.releases, l.steps[k].target);
      assert a == Reversed(Held(l.steps, k - 1)) && b == Reversed(Held(l.steps, k));
      if l.steps[k-1].acquires.Some? {
        assert |b| == |a| + 1 && b[0] == l.steps[k-1].acquires.value;
        assert l.releases[l.steps[k].target] == b[0];
      }
    }
  }

  /** A run is unwound exactly: nothing is released, or what was acquired in reverse. */
  predicate Unwinds<T(==)>(l: Ladder<T>, results: seq<int>)
    requires |results| == |l.steps|
  {
    var r := Run(l, results);
    if r.ret == 0 then r.released == [] && r.acquired == Held(l.steps, |l.steps|)
    else r.released == Reversed(r.acquired)
  }

  /** Results with which step k is the first to fail. */
  function FailFrom<T>(steps: seq<Step<T>>, k: nat): (results: seq<int>)
    ensures |results| == |steps|
  {
    seq(|steps|, j requires 0 <= j < |steps| =>
      if steps[j].check.Pointer? then (if j < k then 1 else 0) else if j < k then 0 else -1)
  }

  lemma {:induction false} FailFromIs<T>(steps: seq<Step<T>>, k: nat, n: nat)
    requires k < |steps| && n <= |steps|
    ensures FirstFailure(steps, FailFrom(steps, k), n) == if n <= k then n else k
    decreases n
  {
    if n > 0 { FailFromIs(steps, k, n - 1); }
  }

  lemma LabelFromRun<T>(l: Ladder<T>, k: nat)
    requires k < |l.steps| && Unwinds(l, FailFrom(l.steps, k))
    ensures FallThrough(l.releases, l.steps[k].target) == Reversed(Held(l.steps, k))
  {
    FailFromIs(l.steps, k, |l.steps|);
  }

  /**
   Exactly the well-labelled ladders, among those whose labels exist, unwind every run
   exactly, of whatever length and whichever steps fail.
   */
  lemma ExactIffWellLabelled<T(!new)>(l: Ladder<T>)
    requires forall k: nat :: k < |l.steps| ==> l.steps[k].target <= |l.releases|
    ensures (forall results | |results| == |l.steps| :: Unwinds(l, results)) <==> WellLabelled(l)
  {
    if WellLabelled(l) {
      forall results | |results| == |l.steps| ensures Unwinds(l, results) { UnwindIsExact(l, results); }
    }
    if forall results | |results| == |l.steps| :: Unwinds(l, results) {
      forall k: nat | k < |l.steps|
        ensures FallThrough(l.releases, l.steps[k].target) == Reversed(Held(l.steps, k))
      {
        assert Unwinds(l, FailFrom(l.steps, k));
        LabelFromRun(l, k);
      }
      OnlyWellLabelled(l);
    }
  }

  // The instances.

  datatype Resource =
    | Blkdev | BlkramDev | BlkramData | TagSet | DiskObject | AddedDisk  // blkram.c
    | Region | Cdev | Class | DeviceNode                                 // dht11.c
    | Gpio(pin: nat) | Irq(button: nat) | LedArray | ButtonArray         // dht11.c, bottomhalf.c

  const SIGNAL: nat := 575  // GPIO_PIN_4 of dht11.c
  const LED: nat := 4
  const BUTTON0: nat := 17
  const BUTTON1: nat := 18

  const BLKRAM: Ladder<Resource> := Ladder(
    [ Step(Negative, Some(Blkdev), 5), Step(Pointer, Some(BlkramDev), 4), Step(Pointer, Some(BlkramData), 3),
      Step(Status, Some(TagSet), 2), Step(Negative, Some(DiskObject), 1), Step(Status, Some(AddedDisk), 0) ],
    [ DiskObject, TagSet, BlkramData, BlkramDev, Blkdev ])

  const DHT11: Ladder<Resource> := Ladder(
    [ Step(Negative, Some(Region), 5), Step(Status, Some(Cdev), 4), Step(Negative, Some(Class), 3),
      Step(Negative, Some(DeviceNode), 2), Step(Status, Some(Gpio(SIGNAL)), 1), Step(Status, None, 0) ],
    [ Gpio(SIGNAL), DeviceNode, Class, Cdev, Region ])

  const BOTTOMHALF: Ladder<Resource> := Ladder(
    [ Step(Status, Some(Gpio(LED)), 4), Step(Status, None, 3),
      Step(Status, Some(Gpio(BUTTON0)), 3), Step(Status, Some(Gpio(BUTTON1)), 2),
      Step(Status, None, 1), Step(Status, None, 1), Step(Negative, None, 1),
      Step(Status, Some(Irq(0)), 1), Step(Negative, None, 0), Step(Status, Some(Irq(1)), 0) ],
    [ Irq(0), Gpio(BUTTON1), Gpio(BUTTON0), Gpio(LED) ])

  /** The build with gpio_request_array: line 189 jumps to fail2 instead of fail3. */
  const LEGACY: Ladder<Resource> := Ladder(
    [ Step(Status, Some(LedArray), 3), Step(Status, Some(ButtonArray), 2), Step(Negative, None, 1),
      Step(Status, Some(Irq(0)), 1), Step(Negative, None, 1), Step(Status, Some(Irq(1)), 0) ],
    [ Irq(0), ButtonArray, LedArray ])

  const BLKRAM_EXIT: seq<Resource> := [AddedDisk, DiskObject, TagSet, BlkramData, BlkramDev, Blkdev]
  const DHT11_EXIT: seq<Resource> := [Gpio(SIGNAL), DeviceNode, Class, Cdev, Region]
  const BOTTOMHALF_EXIT: seq<Resource> := [Irq(0), Irq(1), Gpio(LED), Gpio(BUTTON0), Gpio(BUTTON1)]
  const LEGACY_EXIT: seq<Resource> := [Irq(0), Irq(1), LedArray, ButtonArray]

  lemma BlkramIsWellLabelled()
    ensures WellLabelled(BLKRAM)
  {
  }

  lemma Dht11IsWellLabelled()
    ensures WellLabelled(DHT11)
  {
  }

  lemma BottomhalfIsWellLabelled()
    ensures WellLabelled(BOTTOMHALF)
  {
  }

  /** A failure at step k decides the whole run. */
  lemma {:induction false} FailsAt<T>(l: Ladder<T>, results: seq<int>, k: nat, n: nat)
    requires |results| == |l.steps| && k < n <= |results|
    requires FirstFailure(l.steps, results, k) == k && Failed(l.steps[k].check, results[k])
    ensures FirstFailure(l.steps, results, n) == k
    decreases n
  {
    if k + 1 < n { FailsAt(l, results, k, n - 1); }
  }

  // The init functions, with their gotos as breaks out of nested blocks. `results` are what
  // the calls of the function return, in order; the out-parameters log what it acquires and releases.

  /** Step k of the ladder is next. */
  ghost predicate At<T>(l: Ladder<T>, results: seq<int>, acquired: seq<T>, k: nat)
    requires k <= |l.steps| == |results|
  {
    acquired == Held(l.steps, k) && FirstFailure(l.steps, results, k) == k
  }

  /** The release at index i is next, step k having failed. */
  ghost predicate Unwinding<T>(l: Ladder<T>, results: seq<int>, acquired: seq<T>, released: seq<T>, k: nat, i: nat)
    requires k < |l.steps| == |results|
  {
    && acquired == Held(l.steps, k) && FirstFailure(l.steps, results, |results|) == k
    && l.steps[k].target <= i <= |l.releases| && released == Between(l.releases, l.steps[k].target, i)
  }

  lemma Acquire<T>(l: Ladder<T>, results: seq<int>, acquired: seq<T>, k: nat, r: T)
    requires k < |l.steps| == |results| && At(l, results, acquired, k)
    requires l.steps[k].acquires == Some(r) && !Failed(l.steps[k].check, results[k])
    ensures At(l, results, acquired + [r], k + 1)
  {
  }

  lemma Pass<T>(l: Ladder<T>, results: seq<int>, acquired: seq<T>, k: nat)
    requires k < |l.steps| == |results| && At(l, results, acquired, k)
    requires l.steps[k].acquires == None && !Failed(l.steps[k].check, results[k])
    ensures At(l, results, acquired, k + 1)
  {
  }

  lemma Fail<T>(l: Ladder<T>, results: seq<int>, acquired: seq<T>, k: nat)
    requires k < |l.steps| == |results| && At(l, results, acquired, k)
    requires Failed(l.steps[k].check, results[k]) && l.steps[k].target <= |l.releases|
    ensures Unwinding(l, results, acquired, [], k, l.steps[k].target)
  {
    FailsAt(l, results, k, |results|);
  }

  lemma Release<T>(l: Ladder<T>, results: seq<int>, acquired: seq<T>, released: seq<T>, k: nat, i: nat, r: T)
    requires k < |l.steps| == |results| && Unwinding(l, results, acquired, released, k, i)
    requires i < |l.releases| && l.releases[i] == r
    ensures Unwinding(l, results, acquired, released + [r], k, i + 1)
  {
  }

  lemma Finish<T>(l: Ladder<T>, results: seq<int>, acquired: seq<T>, released: seq<T>, k: nat)
    requires k < |l.steps| == |results| && Unwinding(l, results, acquired, released, k, |l.releases|)
    ensures Run(l, results) == Outcome(ErrorOf(l.steps[k].check, results[k]), acquired, released)
  {
  }

  method BlkramInit(results: seq<int>) returns (ret: int, acquired: seq<Resource>, released: seq<Resource>)
    requires |results| == 6
    ensures Outcome(ret, acquired, released) == Run(BLKRAM, results)
  {
    acquired, released := [], [];
    ghost var k := 0;
    if results[0] < 0 { ret := results[0]; Fail(BLKRAM, results, [], 0); return; }
    Acquire(BLKRAM, results, acquired, 0, Blkdev); acquired := acquired + [Blkdev];
    label ErrUnreg: {
      label ErrFreeDev: {
        label ErrFreeData: {
          label ErrTagSet: {
            label ErrPutDisk: {
              if results[1] == 0 { ret, k := -ENOMEM, 1; Fail(BLKRAM, results, acquired, k); break ErrUnreg; }
              Acquire(BLKRAM, results, acquired, 1, BlkramDev); acquired := acquired + [BlkramDev];
              if results[2] == 0 { ret, k := -ENOMEM, 2; Fail(BLKRAM, results, acquired, k); break ErrFreeDev; }
              Acquire(BLKRAM, results, acquired, 2, BlkramData); acquired := acquired + [BlkramData];
              ret := results[3];
              if ret != 0 { k := 3; Fail(BLKRAM, results, acquired, k); break ErrFreeData; }
              Acquire(BLKRAM, results, acquired, 3, TagSet); acquired := acquired + [TagSet];
              if results[4] < 0 { ret, k := results[4], 4; Fail(BLKRAM, results, acquired, k); break ErrTagSet; }
              Acquire(BLKRAM, results, acquired, 4, DiskObject); acquired := acquired + [DiskObject];
              ret := results[5];
              if ret != 0 { k := 5; Fail(BLKRAM, results, acquired, k); break ErrPutDisk; }
              Acquire(BLKRAM, results, acquired, 5, AddedDisk); acquired := acquired + [AddedDisk];
              return 0, acquired, released;
            }
            Release(BLKRAM, results, acquired, released, k, 0, DiskObject); released := released + [DiskObject];
          }
          Release(BLKRAM, results, acquired, released, k, 1, TagSet); released := released + [TagSet];
        }
        Release(BLKRAM, results, acquired, released, k, 2, BlkramData); released := released + [BlkramData];
      }
      Release(BLKRAM, results, acquired, released, k, 3, BlkramDev); released := released + [BlkramDev];
    }
    Release(BLKRAM, results, acquired, released, k, 4, Blkdev); released := released + [Blkdev];
    Finish(BLKRAM, results, acquired, released, k);
  }

  method Dht11Init(results: seq<int>) returns (ret: int, acquired: seq<Resource>, released: seq<Resource>)
    requires |results| == 6
    ensures Outcome(ret, acquired, released) == Run(DHT11, results)
  {
    acquired, released := [], [];
    ghost var k := 0;
    ret := results[0];
    if ret < 0 { Fail(DHT11, results, [], 0); return; }
    Acquire(DHT11, results, acquired, 0, Region); acquired := acquired + [Region];
    label Fail1: {
      label Fail2: {
        label Fail3: {
          label Fail4: {
            label Fail5: {
              ret := results[1];
              if ret != 0 { k := 1; Fail(DHT11, results, acquired, k); break Fail1; }
              Acquire(DHT11, results, acquired, 1, Cdev); acquired := acquired + [Cdev];
              ret := results[2];
              if ret < 0 { k := 2; Fail(DHT11, results, acquired, k); break Fail2; }
              Acquire(DHT11, results, acquired, 2, Class); acquired := acquired + [Class];
              ret := results[3];
              if ret < 0 { k := 3; Fail(DHT11, results, acquired, k); break Fail3; }
              Acquire(DHT11, results, acquired, 3, DeviceNode); acquired := acquired + [DeviceNode];
              ret := results[4];
              if ret != 0 { k := 4; Fail(DHT11, results, acquired, k); break Fail4; }
              Acquire(DHT11, results, acquired, 4, Gpio(SIGNAL)); acquired := acquired + [Gpio(SIGNAL)];
              ret := results[5];
              if ret != 0 { k := 5; Fail(DHT11, results, acquired, k); break Fail5; }
              Pass(DHT11, results, acquired, 5);
              return 0, acquired, released;
            }
            Release(DHT11, results, acquired, released, k, 0, Gpio(SIGNAL)); released := released + [Gpio(SIGNAL)];
          }
          Release(DHT11, results, acquired, released, k, 1, DeviceNode); released := released + [DeviceNode];
        }
        Release(DHT11, results, acquired, released, k, 2, Class); released := released + [Class];
      }
      Release(DHT11, results, acquired, released, k, 3, Cdev); released := released + [Cdev];
    }
    Release(DHT11, results, acquired, released, k, 4, Region); released := released + [Region];
    Finish(DHT11, results, acquired, released, k);
  }

  lemma BottomhalfLadder(results: seq<int>) returns (l: Ladder<Resource>)
    requires |results| == 10
    ensures |l.steps| == 10 && |l.releases| == 4 && Run(l, results) == Run(BOTTOMHALF, results)
    ensures l.steps[0] == Step(Status, Some(Gpio(LED)), 4) && l.steps[1] == Step(Status, None, 3)
    ensures l.steps[2] == Step(Status, Some(Gpio(BUTTON0)), 3) && l.steps[3] == Step(Status, Some(Gpio(BUTTON1)), 2)
    ensures l.steps[4] == l.steps[5] == Step(Status, None, 1) && l.steps[6] == Step(Negative, None, 1)
    ensures l.steps[7] == Step(Status, Some(Irq(0)), 1) && l.steps[8] == Step(Negative, None, 0)
    ensures l.steps[9] == Step(Status, Some(Irq(1)), 0)
    ensures l.releases[0] == Irq(0) && l.releases[1] == Gpio(BUTTON1)
    ensures l.releases[2] == Gpio(BUTTON0) && l.releases[3] == Gpio(LED)
  {
    l := BOTTOMHALF;
  }

  method BottomhalfInit(results: seq<int>) returns (ret: int, acquired: seq<Resource>, released: seq<Resource>)
    requires |results| == 10
    ensures Outcome(ret, acquired, released) == Run(BOTTOMHALF, results)
  {
    acquired, released := [], [];
    ghost var l := BottomhalfLadder(results);
    ghost var k := 0;
    ret := results[0];
    if ret != 0 { Fail(l, results, [], 0); return; }
    Acquire(l, results, acquired, 0, Gpio(LED)); acquired := acquired + [Gpio(LED)];
    label Fail2: {
      label Fail3: {
        label Fail4: {
          label Fail5: {
            ret := results[1];
            if ret != 0 { k := 1; Fail(l, results, acquired, k); break Fail2; }
            Pass(l, results, acquired, 1);
            ret := results[2];
            if ret != 0 { k := 2; Fail(l, results, acquired, k); break Fail2; }
            Acquire(l, results, acquired, 2, Gpio(BUTTON0)); acquired := acquired + [Gpio(BUTTON0)];
            ret := results[3];
            if ret != 0 { k := 3; Fail(l, results, acquired, k); break Fail3; }
            Acquire(l, results, acquired, 3, Gpio(BUTTON1)); acquired := acquired + [Gpio(BUTTON1)];
            ret := results[4];
            if ret != 0 { k := 4; Fail(l, results, acquired, k); break Fail4; }
            Pass(l, results, acquired, 4);
            ret := results[5];
            if ret != 0 { k := 5; Fail(l, results, acquired, k); break Fail4; }
            Pass(l, results, acquired, 5);
            ret := results[6];
            if ret < 0 { k := 6; Fail(l, results, acquired, k); break Fail4; }
            Pass(l, results, acquired, 6);
            ret := results[7];
            if ret != 0 { k := 7; Fail(l, results, acquired, k); break Fail4; }
            Acquire(l, results, acquired, 7, Irq(0)); acquired := acquired + [Irq(0)];
            ret := results[8];
            if ret < 0 { k := 8; Fail(l, results, acquired, k); break Fail5; }
            Pass(l, results, acquired, 8);
            ret := results[9];
            if ret != 0 { k := 9; Fail(l, results, acquired, k); break Fail5; }
            Acquire(l, results, acquired, 9, Irq(1)); acquired := acquired + [Irq(1)];
            return 0, acquired, released;
          }
          Release(l, results, acquired, released, k, 0, Irq(0)); released := released + [Irq(0)];
        }
        Release(l, results, acquired, released, k, 1, Gpio(BUTTON1)); released := released + [Gpio(BUTTON1)];
      }
      Release(l, results, acquired, released, k, 2, Gpio(BUTTON0)); released := released + [Gpio(BUTTON0)];
    }
    Release(l, results, acquired, released, k, 3, Gpio(LED)); released := released + [Gpio(LED)];
    Finish(l, results, acquired, released, k);
  }

  /** The build with gpio_request_array. */
  method LegacyInit(results: seq<int>) returns (ret: int, acquired: seq<Resource>, released: seq<Resource>)
    requires |results| == 6
    ensures Outcome(ret, acquired, released) == Run(LEGACY, results)
  {
    acquired, released := [], [];
    ghost var k := 0;
    ret := results[0];
    if ret != 0 { Fail(LEGACY, results, [], 0); return; }
    Acquire(LEGACY, results, acquired, 0, LedArray); acquired := acquired + [LedArray];
    label Fail1: {
      label Fail2: {
        label Fail3: {
          ret := results[1];
          if ret != 0 { k := 1; Fail(LEGACY, results, acquired, k); break Fail1; }
          Acquire(LEGACY, results, acquired, 1, ButtonArray); acquired := acquired + [ButtonArray];
          ret := results[2];
          if ret < 0 { k := 2; Fail(LEGACY, results, acquired, k); break Fail2; }
          Pass(LEGACY, results, acquired, 2);
          ret := results[3];
          if ret != 0 { k := 3; Fail(LEGACY, results, acquired, k); break Fail2; }
          Acquire(LEGACY, results, acquired, 3, Irq(0)); acquired := acquired + [Irq(0)];
          ret := results[4];
          if ret < 0 { k := 4; Fail(LEGACY, results, acquired, k); break Fail2; }
          Pass(LEGACY, results, acquired, 4);
          ret := results[5];
          if ret != 0 { k := 5; Fail(LEGACY, results, acquired, k); break Fail3; }
          Acquire(LEGACY, results, acquired, 5, Irq(1)); acquired := acquired + [Irq(1)];
          return 0, acquired, released;
        }
        Release(LEGACY, results, acquired, released, k, 0, Irq(0)); released := released + [Irq(0)];
      }
      Release(LEGACY, results, acquired, released, k, 1, ButtonArray); released := released + [ButtonArray];
    }
    Release(LEGACY, results, acquired, released, k, 2, LedArray); released := released + [LedArray];
    Finish(LEGACY, results, acquired, released, k);
  }

  // What the instances guarantee.

  /** In the three builds a failed init leaves nothing behind, whichever call failed. */
  lemma FailedInitLeavesNothing(l: Ladder<Resource>, results: seq<int>)
    requires l == BLKRAM || l == DHT11 || l == BOTTOMHALF
    requires |results| == |l.steps| && Run(l, results).ret != 0
    ensures Run(l, results).released == Reversed(Run(l, results).acquired)
  {
    BlkramIsWellLabelled();
    Dht11IsWellLabelled();
    BottomhalfIsWellLabelled();
    UnwindIsExact(l, results);
  }

  /** The other build does so unless the second gpio_to_irq is what fails: then the first IRQ stays. */
  lemma LegacyKeepsTheFirstIrq(results: seq<int>)
    requires |results| == 6 && Run(LEGACY, results).ret != 0
    ensures var r := Run(LEGACY, results);
            var second := results[0] == 0 && results[1] == 0 && results[2] >= 0 && results[3] == 0 && results[4] < 0;
            && (r.released == Reversed(r.acquired) <==> !second)
            && (second ==> r.acquired == [LedArray, ButtonArray, Irq(0)] && r.released == [ButtonArray, LedArray])
  {
    var k := FirstFailure(LEGACY.steps, results, 6);
    NoneBefore(LEGACY.steps, results, 6);
    LegacyLabel(k);
  }

  /** The label of step k; only the one of step 4 is off. */
  lemma LegacyLabel(k: nat)
    requires k < 6
    ensures var held, releases := Held(LEGACY.steps, k), FallThrough(LEGACY.releases, LEGACY.steps[k].target);
            if k == 4 then held == [LedArray, ButtonArray, Irq(0)] && releases == [ButtonArray, LedArray]
            else releases == Reversed(held)
  {
    LegacyHeld(k);
  }

  // What each init returns, from the results of its calls, and what it holds when it succeeds.

  lemma Decided<T>(l: Ladder<T>, results: seq<int>, k: nat)
    requires |results| == |l.steps| && k == FirstFailure(l.steps, results, |results|)
    ensures forall j :: 0 <= j < k ==> !Failed(l.steps[j].check, results[j])
    ensures k < |results| ==> Failed(l.steps[k].check, results[k])
                              && Run(l, results).ret == ErrorOf(l.steps[k].check, results[k]) != 0
    ensures k == |results| ==> Run(l, results).ret == 0
  {
    NoneBefore(l.steps, results, |results|);
  }

  lemma BlkramReturns(results: seq<int>)
    requires |results| == 6
    ensures Run(BLKRAM, results).ret ==
            if results[0] < 0 then results[0]
            else if results[1] == 0 || results[2] == 0 then -12
            else if results[3] != 0 then results[3]
            else if results[4] < 0 then results[4]
            else results[5]
  {
    Decided(BLKRAM, results, FirstFailure(BLKRAM.steps, results, 6));
  }

  lemma Dht11Returns(results: seq<int>)
    requires |results| == 6
    ensures Run(DHT11, results).ret ==
            if results[0] < 0 then results[0]
            else if results[1] != 0 then results[1]
            else if results[2] < 0 then results[2]
            else if results[3] < 0 then results[3]
            else if results[4] != 0 then results[4]
            else results[5]
  {
    Decided(DHT11, results, FirstFailure(DHT11.steps, results, 6));
  }

  lemma LegacyReturns(results: seq<int>)
    requires |results| == 6
    ensures Run(LEGACY, results).ret ==
            if results[0] != 0 then results[0]
            else if results[1] != 0 then results[1]
            else if results[2] < 0 then results[2]
            else if results[3] != 0 then results[3]
            else if results[4] < 0 then results[4]
            else results[5]
  {
    Decided(LEGACY, results, FirstFailure(LEGACY.steps, results, 6));
  }

  /** The calls of bottomhalf_init that fail with a negative number, and with any but 0. */
  lemma BottomhalfReturns(results: seq<int>, k: nat)
    requires |results| == 10 && k <= 10
    requires forall j :: 0 <= j < k ==> (if j == 6 || j == 8 then results[j] >= 0 else results[j] == 0)
    requires k < 10 ==> (if k == 6 || k == 8 then results[k] < 0 else results[k] != 0)
    ensures Run(BOTTOMHALF, results).ret == if k < 10 then results[k] else 0
  {
    var l := BottomhalfLadder(results);
    var f := FirstFailure(l.steps, results, 10);
    Decided(l, results, f);
    assert l.steps[6].check == l.steps[8].check == Negative;
    assert forall j :: 0 <= j < 10 && j != 6 && j != 8 ==> l.steps[j].check == Status;
  }

  // What each init holds before its step k.

  lemma {:induction false} BlkramHeld(k: nat)
    requires k <= 6
    ensures Held(BLKRAM.steps, k) ==
            [Blkdev, BlkramDev, BlkramData, TagSet, DiskObject, AddedDisk][..[0, 1, 2, 3, 4, 5, 6][k]]
    decreases k
  {
    if k > 0 { BlkramHeld(k - 1); }
  }

  lemma {:induction false} Dht11Held(k: nat)
    requires k <= 6
    ensures Held(DHT11.steps, k) == [Region, Cdev, Class, DeviceNode, Gpio(SIGNAL)][..[0, 1, 2, 3, 4, 5, 5][k]]
    decreases k
  {
    if k > 0 { Dht11Held(k - 1); }
  }

  lemma {:induction false} BottomhalfHeld(k: nat)
    requires k <= 10
    ensures Held(BOTTOMHALF.steps, k) ==
            [Gpio(LED), Gpio(BUTTON0), Gpio(BUTTON1), Irq(0), Irq(1)][..[0, 1, 1, 2, 3, 3, 3, 3, 4, 4, 5][k]]
    decreases k
  {
    if k > 0 { BottomhalfHeld(k - 1); }
  }

  lemma {:induction false} LegacyHeld(k: nat)
    requires k <= 6
    ensures Held(LEGACY.steps, k) == [LedArray, ButtonArray, Irq(0), Irq(1)][..[0, 1, 2, 2, 3, 3, 4][k]]
    decreases k
  {
    if k > 0 { LegacyHeld(k - 1); }
  }

  // Each exit function releases what a successful init holds, everything once.

  lemma BlkramExitReleasesAll()
    ensures multiset(BLKRAM_EXIT) == multiset(Held(BLKRAM.steps, |BLKRAM.steps|))
  {
    BlkramHeld(6);
  }

  lemma Dht11ExitReleasesAll()
    ensures multiset(DHT11_EXIT) == multiset(Held(DHT11.steps, |DHT11.steps|))
  {
    Dht11Held(6);
    assert Held(DHT11.steps, |DHT11.steps|) == [Region, Cdev, Class, DeviceNode, Gpio(SIGNAL)];
  }

  lemma BottomhalfExitReleasesAll()
    ensures multiset(BOTTOMHALF_EXIT) == multiset(Held(BOTTOMHALF.steps, |BOTTOMHALF.steps|))
  {
    BottomhalfHeld(10);
    assert Held(BOTTOMHALF.steps, |BOTTOMHALF.steps|) == [Gpio(LED), Gpio(BUTTON0), Gpio(BUTTON1), Irq(0), Irq(1)];
  }

  lemma LegacyExitReleasesAll()
    ensures multiset(LEGACY_EXIT) == multiset(Held(LEGACY.steps, |LEGACY.steps|))
  {
    LegacyHeld(6);
  }

  // And in what order: two of them in reverse, the data of the disk so before the device that
  // points to it; the others free both IRQs before any pin.

  lemma BlkramExitReverses()
    ensures BLKRAM_EXIT == Reversed(Held(BLKRAM.steps, |BLKRAM.steps|))
  {
    BlkramHeld(6);
    var held := [Blkdev, BlkramDev, BlkramData, TagSet, DiskObject, AddedDisk];
    assert Held(BLKRAM.steps, |BLKRAM.steps|) == held;
    assert BLKRAM_EXIT == [held[5], held[4], held[3], held[2], held[1], held[0]];
  }

  lemma Dht11ExitReverses()
    ensures DHT11_EXIT == Reversed(Held(DHT11.steps, |DHT11.steps|))
  {
    Dht11Held(6);
    var held := [Region, Cdev, Class, DeviceNode, Gpio(SIGNAL)];
    assert Held(DHT11.steps, |DHT11.steps|) == held;
    assert DHT11_EXIT == [held[4], held[3], held[2], held[1], held[0]];
  }

  lemma IrqsBeforePins(exit: seq<Resource>, i: nat, j: nat)
    requires exit == BOTTOMHALF_EXIT || exit == LEGACY_EXIT
    requires i < |exit| && j < |exit| && exit[i].Irq? && !exit[j].Irq?
    ensures i < j
  {
  }
}

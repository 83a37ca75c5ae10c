/**
 * Exposure compensation for the HDR burst: `clampExposure` and the sequence
 * of `setExposureCompensationIndex` commands `captureHdrBurstAndSave` sends
 * to the camera while it takes its three bracketed shots.
 */
module Exposure {
  import opened LumaFrame

  datatype Option<T> = None | Some(value: T)

  /** An `android.util.Range<Int>`, which never has lower > upper. */
  datatype ExposureRange = ExposureRange(lower: int, upper: int)

  type ValidRange = r: ExposureRange | r.lower <= r.upper witness ExposureRange(0, 0)

  /** `clampExposure(range, steps)`: 0 without a range, else `max(lower, min(upper, steps))`. */
  function ClampExposure(range: Option<ValidRange>, steps: int): (ev: int)
    ensures range.None? ==> ev == 0
    ensures range.Some? ==> range.value.lower <= ev <= range.value.upper
    ensures range.Some? && range.value.lower <= steps <= range.value.upper ==> ev == steps
    ensures range.Some? && steps < range.value.lower ==> ev == range.value.lower
    ensures range.Some? && steps > range.value.upper ==> ev == range.value.upper
  {
    match range
    case None => 0
    case Some(r) => Max(r.lower, Min(r.upper, steps))
  }

  /** Clamping an already clamped value changes nothing. */
  lemma ClampIdempotent(range: Option<ValidRange>, steps: int)
    ensures ClampExposure(range, ClampExposure(range, steps)) == ClampExposure(range, steps)
  {
    if range.Some? {
      assert range.value.lower <= ClampExposure(range, steps) <= range.value.upper;
    }
  }

  /** Clamping keeps the order of its inputs. */
  lemma ClampMonotone(range: Option<ValidRange>, s: int, t: int)
    requires s <= t
    ensures ClampExposure(range, s) <= ClampExposure(range, t)
  {
  }

  /** The three exposure indices of the bracket, darkest first: clamp(-2), clamp(0), clamp(+2). */
  function BracketPlan(range: ValidRange): (plan: seq<int>)
    ensures |plan| == 3
    ensures plan[0] <= plan[1] <= plan[2]
    ensures forall j :: 0 <= j < 3 ==> range.lower <= plan[j] <= range.upper
  {
    ClampMonotone(Some(range), -2, 0);
    ClampMonotone(Some(range), 0, 2);
    [ClampExposure(Some(range), -2), ClampExposure(Some(range), 0), ClampExposure(Some(range), 2)]
  }

  /**
   * The number of shots saved before the first failed one: `captured[j]`
   * says whether `takePicture` for shot j reported `onImageSaved`.
   */
  function SavedBeforeFailure(captured: seq<bool>): (n: nat)
    ensures n <= |captured|
    ensures forall m :: 0 <= m < n ==> captured[m]
    ensures n < |captured| ==> !captured[n]
  {
    if captured == [] || !captured[0] then 0 else 1 + SavedBeforeFailure(captured[1..])
  }

  /**
   * The commands the camera receives: the index of every shot up to and
   * including the first that fails; when all three are saved, the three
   * indices and then the restoring clamp(0).
   */
  function BracketTrace(range: ValidRange, captured: seq<bool>): seq<int>
    requires |captured| == 3
  {
    var n := SavedBeforeFailure(captured);
    if n < 3 then BracketPlan(range)[..n + 1] else BracketPlan(range) + [ClampExposure(Some(range), 0)]
  }

  /** The camera control, reduced to the exposure commands it has received. */
  class ExposureControl {
    var commands: seq<int>

    constructor ()
      ensures commands == []
    {
      commands := [];
    }

    /** `cameraControl.setExposureCompensationIndex(ev)`. */
    method SetExposureCompensationIndex(ev: int)
      modifies this
      ensures commands == old(commands) + [ev]
    {
      commands := commands + [ev];
    }
  }

  /**
   * The exposure part of `captureHdrBurstAndSave`: for each index of the plan,
   * command it and take a shot; a failed shot cancels the routine at once,
   * so only after three saved shots is clamp(0) restored. The result says
   * whether the routine goes on to decode the saved files (it merges only
   * when at least one of them decodes).
   */
  method CaptureHdrBurst(camera: ExposureControl, range: ValidRange, captured: seq<bool>)
    returns (completed: bool)
    requires |captured| == 3
    modifies camera
    ensures camera.commands == old(camera.commands) + BracketTrace(range, captured)
    ensures completed <==> forall j :: 0 <= j < 3 ==> captured[j]
  {
    var stepNeg2 := ClampExposure(Some(range), -2);
    var step0 := ClampExposure(Some(range), 0);
    var stepPos2 := ClampExposure(Some(range), 2);
    var plan := [stepNeg2, step0, stepPos2];
    var j := 0;
    while j < 3
      invariant 0 <= j <= 3
      invariant forall m :: 0 <= m < j ==> captured[m]
      invariant camera.commands == old(camera.commands) + plan[..j]
    {
      camera.SetExposureCompensationIndex(plan[j]);
      if !captured[j] {
        assert SavedBeforeFailure(captured) == j by {
          SavedPrefix(captured, j);
        }
        assert plan[..j] + [plan[j]] == plan[..j + 1];
        return false;
      }
      j := j + 1;
    }
    camera.SetExposureCompensationIndex(step0);
    SavedPrefix(captured, 3);
    assert plan[..3] == plan;
    completed := true;
  }

  /** The first failure is at j exactly when the shots before j are saved and shot j is not. */
  lemma {:induction false} SavedPrefix(captured: seq<bool>, j: nat)
    requires j <= |captured|
    requires forall m :: 0 <= m < j ==> captured[m]
    requires j < |captured| ==> !captured[j]
    ensures SavedBeforeFailure(captured) == j
    decreases j
  {
    if j > 0 {
      SavedPrefix(captured[1..], j - 1);
    }
  }

  /** On the success path the camera receives exactly clamp(-2), clamp(0), clamp(+2), clamp(0). */
  lemma BracketSuccess(range: ValidRange, captured: seq<bool>)
    requires |captured| == 3 && forall j :: 0 <= j < 3 ==> captured[j]
    ensures BracketTrace(range, captured) == [ClampExposure(Some(range), -2), ClampExposure(Some(range), 0),
                                              ClampExposure(Some(range), 2), ClampExposure(Some(range), 0)]
  {
    SavedPrefix(captured, 3);
  }

  /**
   * When a shot fails, the camera has received the indices up to that shot
   * and no restoring command: it stays at the failed shot's exposure.
   */
  lemma BracketFailure(range: ValidRange, captured: seq<bool>, j: nat)
    requires |captured| == 3 && j < 3
    requires forall m :: 0 <= m < j ==> captured[m]
    requires !captured[j]
    ensures |BracketTrace(range, captured)| == j + 1
    ensures BracketTrace(range, captured)[j] == ClampExposure(Some(range), 2 * j - 2)
    ensures forall m :: 0 <= m <= j ==> BracketTrace(range, captured)[m] == ClampExposure(Some(range), 2 * m - 2)
  {
    SavedPrefix(captured, j);
  }

  /** The restoring command is sent exactly when all three shots are saved. */
  lemma RestoreIffCompleted(range: ValidRange, captured: seq<bool>)
    requires |captured| == 3
    ensures |BracketTrace(range, captured)| == 4 <==> forall j :: 0 <= j < 3 ==> captured[j]
  {
  }

  /** A camera whose range is [-1, 1] gets -1, 0, 1 and then 0. */
  lemma NarrowRangeBracket(captured: seq<bool>)
    requires |captured| == 3 && forall j :: 0 <= j < 3 ==> captured[j]
    ensures BracketTrace(ExposureRange(-1, 1), captured) == [-1, 0, 1, 0]
  {
    BracketSuccess(ExposureRange(-1, 1), captured);
  }

  /** A camera without exposure compensation (range [0, 0]) gets 0 four times. */
  lemma FixedExposureBracket(captured: seq<bool>)
    requires |captured| == 3 && forall j :: 0 <= j < 3 ==> captured[j]
    ensures BracketTrace(ExposureRange(0, 0), captured) == [0, 0, 0, 0]
  {
    BracketSuccess(ExposureRange(0, 0), captured);
  }
}

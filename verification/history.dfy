/**
 * Application state and the undo-aware reducer. An action is a partial
 * update object: `{undo: true}`, or any of `{tool, color, picture}`.
 * Wall-clock time is passed in as `now` (milliseconds).
 */
module History {
  import opened Raster

  /** `{tool, color, picture, done, doneAt}`; `done` lists saved pictures most recent first. */
  datatype State = State(tool: string, color: Color, picture: Picture, done: seq<Picture>, doneAt: int)

  /** The fields an action object may carry; an absent field is `None`. */
  datatype Action = Action(undo: bool, tool: Option<string>, color: Option<Color>, picture: Option<Picture>)

  const UndoAction: Action := Action(true, None, None, None)

  function PictureAction(p: Picture): Action {
    Action(false, None, None, Some(p))
  }

  function ColorAction(c: Color): Action {
    Action(false, None, Some(c), None)
  }

  /** The state the editor starts in: a blank 70 x 50 canvas, black pen, no history. */
  const StartState: State := State("draw", "#000000", Empty(70, 50, "#f0f0f0"), [], 0)

  /**
   * A picture edit more than this many milliseconds after `doneAt`, the time
   * of the last checkpoint, opens a new undo step. Edits inside that window
   * of the checkpoint share it.
   */
  const DebounceMs: int := 1000

  /**
   * Undo resets `doneAt` to this value, so that the next edit opens a
   * checkpoint whenever the clock reads more than `DebounceMs`.
   */
  const NoWindow: int := 0

  /** `updateState`: the fields the action carries replace those of the state. */
  function UpdateState(s: State, a: Action): (r: State)
    ensures r.done == s.done && r.doneAt == s.doneAt
    ensures r.tool == (if a.tool.Some? then a.tool.value else s.tool)
    ensures r.color == (if a.color.Some? then a.color.value else s.color)
    ensures r.picture == (if a.picture.Some? then a.picture.value else s.picture)
  {
    State(
      match a.tool case Some(t) => t case None => s.tool,
      match a.color case Some(c) => c case None => s.color,
      match a.picture case Some(p) => p case None => s.picture,
      s.done,
      s.doneAt)
  }

  /** Merging the same action twice is the same as merging it once. */
  lemma UpdateIdempotent(s: State, a: Action)
    ensures UpdateState(UpdateState(s, a), a) == UpdateState(s, a)
  {
  }

  /**
   * Whether a picture edit arriving at `now` opens a new undo checkpoint:
   * only when more than `DebounceMs` have passed since `doneAt`.
   */
  predicate OpensCheckpoint(s: State, a: Action, now: int) {
    !a.undo && a.picture.Some? && s.doneAt < now - DebounceMs
  }

  /** `historyUpdateState`. */
  function Reduce(s: State, a: Action, now: int): (r: State)
    // an undo pops the most recent saved picture, or does nothing when there is none
    ensures a.undo && |s.done| == 0 ==> r == s
    ensures a.undo && |s.done| > 0 ==>
              r == s.(picture := s.done[0], done := s.done[1..], doneAt := NoWindow)
    // a checkpoint saves the picture shown just before the edit, and nothing else
    ensures OpensCheckpoint(s, a, now) ==>
              r == UpdateState(s, a).(done := [s.picture] + s.done, doneAt := now)
    ensures !a.undo && !OpensCheckpoint(s, a, now) ==> r == UpdateState(s, a)
  {
    if a.undo then
      if |s.done| == 0 then s
      else s.(picture := s.done[0], done := s.done[1..], doneAt := NoWindow)
    else if a.picture.Some? && s.doneAt < now - DebounceMs then
      UpdateState(s, a).(done := [s.picture] + s.done, doneAt := now)
    else
      UpdateState(s, a)
  }

  /**
   * The history only ever grows by the picture that was on screen just before
   * the step, and only by a picture edit.
   */
  lemma HistoryGrowth(s: State, a: Action, now: int)
    ensures var r := Reduce(s, a, now);
            |r.done| > |s.done| <==> OpensCheckpoint(s, a, now)
    ensures var r := Reduce(s, a, now);
            |r.done| > |s.done| ==> r.done == [s.picture] + s.done && r.doneAt == now
    ensures var r := Reduce(s, a, now);
            |s.done| - 1 <= |r.done| <= |s.done| + 1
  {
  }

  /** Tool and color changes never touch the picture or the history. */
  lemma SettingsOnly(s: State, a: Action, now: int)
    requires !a.undo && a.picture.None?
    ensures var r := Reduce(s, a, now);
            r.picture == s.picture && r.done == s.done && r.doneAt == s.doneAt
  {
  }

  /** Undo right after a checkpointing edit brings back the picture and history from before it. */
  lemma UndoAfterCheckpoint(s: State, a: Action, now: int, later: int)
    requires OpensCheckpoint(s, a, now)
    ensures var r := Reduce(Reduce(s, a, now), UndoAction, later);
            r.picture == s.picture && r.done == s.done && r.doneAt == NoWindow
  {
  }

  /**
   * The coalescing rule relative to the last checkpoint `t0`: up to
   * `DebounceMs` later, or at a clock reading before `t0`, the history is
   * kept; any later edit pushes the picture shown.
   */
  lemma DebounceWindow(s: State, p: Picture, t0: int, dt: int)
    requires s.doneAt == t0
    ensures dt <= DebounceMs ==> Reduce(s, PictureAction(p), t0 + dt).done == s.done
    ensures dt > DebounceMs ==> Reduce(s, PictureAction(p), t0 + dt).done == [s.picture] + s.done
  {
  }

  // ---------------------------------------------------------------------------
  // Runs of actions

  /** An action together with the time it is dispatched at. */
  datatype Step = Step(action: Action, now: int)

  /** Dispatching the steps one after another. */
  function Replay(s: State, steps: seq<Step>): State
    decreases |steps|
  {
    if |steps| == 0 then s
    else Replay(Reduce(s, steps[0].action, steps[0].now), steps[1..])
  }

  /**
   * At times no later than `s.doneAt + DebounceMs`, any run of non-undo
   * actions leaves the history and `doneAt` as they were.
   */
  lemma {:induction false} WithinWindow(s: State, steps: seq<Step>)
    requires forall i :: 0 <= i < |steps| ==> !steps[i].action.undo && steps[i].now <= s.doneAt + DebounceMs
    ensures Replay(s, steps).done == s.done && Replay(s, steps).doneAt == s.doneAt
    decreases |steps|
  {
    if |steps| > 0 {
      var s' := Reduce(s, steps[0].action, steps[0].now);
      assert s'.done == s.done && s'.doneAt == s.doneAt;
      WithinWindow(s', steps[1..]);
    }
  }

  /**
   * A burst of edits merges into one undo step: a checkpointing edit at `now`
   * followed by any non-undo actions within the window, then one undo,
   * restores the picture and history from before the burst.
   */
  lemma BurstIsOneUndoStep(s: State, first: Action, now: int, rest: seq<Step>, later: int)
    requires OpensCheckpoint(s, first, now)
    requires forall i :: 0 <= i < |rest| ==> !rest[i].action.undo && rest[i].now <= now + DebounceMs
    ensures var r := Reduce(Replay(Reduce(s, first, now), rest), UndoAction, later);
            r.picture == s.picture && r.done == s.done
  {
    var s1 := Reduce(s, first, now);
    WithinWindow(s1, rest);
    var s2 := Replay(s1, rest);
    assert s1.done == [s.picture] + s.done;
    assert s2.done == s1.done;
    assert |s2.done| > 0;
    var s3 := Reduce(s2, UndoAction, later);
    assert s3.done == s2.done[1..];
  }

  /** Non-undo actions that carry no picture leave the picture shown as it was. */
  lemma {:induction false} SettingsKeepPicture(s: State, steps: seq<Step>)
    requires forall j :: 0 <= j < |steps| ==> !steps[j].action.undo && steps[j].action.picture.None?
    ensures Replay(s, steps).picture == s.picture
    decreases |steps|
  {
    if |steps| > 0 {
      var s' := Reduce(s, steps[0].action, steps[0].now);
      assert s'.picture == s.picture;
      SettingsKeepPicture(s', steps[1..]);
    }
  }

  /**
   * The picture shown after a run is the one carried by its last picture
   * action `steps[i]`, provided no undo follows it; tool and color changes
   * after it do not matter, and neither does anything before it.
   */
  lemma {:induction false} LastPictureWins(s: State, steps: seq<Step>, i: int)
    requires 0 <= i < |steps| && steps[i].action.picture.Some?
    requires forall j :: i <= j < |steps| ==> !steps[j].action.undo
    requires forall j :: i < j < |steps| ==> steps[j].action.picture.None?
    ensures Replay(s, steps).picture == steps[i].action.picture.value
    decreases |steps|
  {
    var s' := Reduce(s, steps[0].action, steps[0].now);
    if i == 0 {
      assert s'.picture == steps[0].action.picture.value;
      SettingsKeepPicture(s', steps[1..]);
    } else {
      LastPictureWins(s', steps[1..], i - 1);
    }
  }
}

/** Whole sessions driven through the handlers, each observed at the end. Every
    result follows from the handlers' contracts alone. */
module Scenarios {
  import opened Types
  import opened PoseMaps
  import opened Outfit
  import opened Session

  /** A session with a model image `u` and garment `a` applied with result `v`, at the
      first pose; returns the session. */
  method DressedSession(file: File, a: Garment, u: string, v: string) returns (s: TryOnSession)
    requires u != ""
    ensures fresh(s) && s.Settled() && !s.loading && s.poseIndex == 0
    ensures s.history == [RootLayer(u), GarmentLayer(a, 0, v)] && s.outfitIndex == 1
    ensures s.wardrobe == AddGarment(DefaultWardrobe, a) && s.modelImage == Some(u)
  {
    s := new TryOnSession();
    s.FinalizeModel(u);
    assert s.Shown() == Some(u);
    var call := s.BeginGarmentSelect(file, a);
    s.CompleteGarmentSelect(call.value, Generated(v));
  }

  /** Finalise with `u`, apply `g` (gateway returns `v`), select pose 2 (returns `w`),
      remove the garment, then select `g` again: the re-selection is a replay with no
      gateway call and shows `v` again. */
  method EndToEnd(file: File, g: Garment, u: string, v: string, w: string)
    returns (afterPose: Option<string>, afterRemove: Option<string>,
             replayCall: Option<GarmentCall>, afterReplay: Option<string>, layers: seq<Layer>)
    requires u != "" && v != ""
    ensures afterPose == Some(w)
    ensures afterRemove == Some(u)
    ensures replayCall == None
    ensures afterReplay == Some(v)
    ensures |layers| == 2 && layers[0] == RootLayer(u) && layers[1].garment == Some(g)
    ensures layers[1].poseImages == [Entry(PoseInstructions[0], v), Entry(PoseInstructions[2], w)]
  {
    var s := DressedSession(file, g, u, v);
    var layer := s.history[1];
    assert Get(layer.poseImages, PoseInstructions[2]) == None;
    var poseCall := s.BeginPoseSelect(2);
    s.CompletePoseSelect(poseCall.value, Generated(w));
    PutNewKeyExtends(layer.poseImages, PoseInstructions[2], w);
    afterPose := s.Shown();
    s.RemoveLastGarment();
    afterRemove := s.Shown();
    replayCall := s.BeginGarmentSelect(file, g);
    afterReplay := s.Shown();
    layers := s.history;
  }

  /** A try-on that fails leaves the history, the cursors and the wardrobe as they
      were, surfaces the message and lowers the loading gate. */
  method FailedTryOn(file: File, a: Garment, b: Garment, u: string, v: string, message: string)
    returns (before: seq<Layer>, after: seq<Layer>, cursor: nat, error: Option<string>, loading: bool)
    requires u != "" && v != "" && message != ""
    ensures after == before && cursor == 1 && error == Some(message) && !loading
  {
    var s := DressedSession(file, a, u, v);
    before := s.history;
    // No layer follows the cursor, so this is never a redo: the call is issued.
    var call := s.BeginGarmentSelect(file, b);
    s.CompleteGarmentSelect(call.value, Failed(message));
    after, cursor, error, loading := s.history, s.outfitIndex, s.error, s.loading;
  }

  /** With history [root, A, B] and the cursor stepped back to A, applying C discards
      B: the history becomes [root, A, C] and the cursor is on C. */
  method BranchTruncation(file: File, a: Garment, b: Garment, c: Garment, u: string, v: string, w: string, x: string)
    returns (layers: seq<Layer>, cursor: nat)
    requires u != "" && v != ""
    requires b.id != c.id
    ensures layers == [RootLayer(u), GarmentLayer(a, 0, v), GarmentLayer(c, 0, x)]
    ensures cursor == 2
  {
    var s := DressedSession(file, a, u, v);
    var callB := s.BeginGarmentSelect(file, b);
    s.CompleteGarmentSelect(callB.value, Generated(w));
    s.RemoveLastGarment();
    var callC := s.BeginGarmentSelect(file, c);
    s.CompleteGarmentSelect(callC.value, Generated(x));
    layers, cursor := s.history, s.outfitIndex;
  }

  /** The remove button is not behind the loading gate. Removing the garment while a
      try-on is pending leaves the cursor one below the layer the try-on appends: the
      display stays on the old top garment and the new layer becomes a redo candidate. */
  method RemoveWhileTryOnPending(file: File, a: Garment, b: Garment, u: string, v: string, w: string)
    returns (layers: seq<Layer>, cursor: nat, shown: Option<string>)
    requires u != "" && v != ""
    ensures layers == [RootLayer(u), GarmentLayer(a, 0, v), GarmentLayer(b, 0, w)]
    ensures cursor == 1 && cursor != |layers| - 1
    ensures shown == Some(v)
  {
    var s := DressedSession(file, a, u, v);
    var call := s.BeginGarmentSelect(file, b);
    s.RemoveLastGarment();
    s.CompleteGarmentSelect(call.value, Generated(w));
    layers, cursor, shown := s.history, s.outfitIndex, s.Shown();
  }

  /** Start over is not behind the loading gate either. A try-on that completes after
      it appends its layer to the emptied history with no root layer under it, while
      the studio has no model image: the history invariant does not hold afterwards. */
  method StartOverWhileTryOnPending(file: File, a: Garment, b: Garment, u: string, v: string, w: string)
    returns (layers: seq<Layer>, cursor: nat, model: Option<string>, settled: bool)
    requires u != "" && v != ""
    ensures layers == [GarmentLayer(b, 0, w)] && cursor == 1 && model == None
    ensures !settled
  {
    var s := DressedSession(file, a, u, v);
    var call := s.BeginGarmentSelect(file, b);
    s.StartOver();
    s.CompleteGarmentSelect(call.value, Generated(w));
    layers, cursor, model := s.history, s.outfitIndex, s.modelImage;
    settled := |layers| > 0 && layers[0].garment.None? && cursor < |layers|;
  }
}

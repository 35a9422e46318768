/** The state cells of the `App` component and its handlers.
    An awaited gateway call splits a handler in two: `Begin…` runs up to the `await`
    and returns the call it issues (None when it issues none), `Complete…` is the
    continuation, run with the call's settled outcome. The call record carries what
    the continuation's closure captured at the start; the continuation reads the
    live state wherever the source passes an updater (`prev => …`) to a setter. */
module Session {
  import opened Types
  import opened PoseMaps
  import opened Outfit

  /** A pending `generateVirtualTryOnImage` call and the values its continuation captured. */
  datatype GarmentCall = GarmentCall(baseImage: string, garmentFile: File, garment: Garment, cursor: nat, pose: PoseIndex)

  /** A pending `generatePoseVariation` call and the values its continuation captured. */
  datatype PoseCall = PoseCall(baseImage: string, pose: PoseIndex, cursor: nat, previousPose: PoseIndex)

  class TryOnSession {
    var modelImage: Option<string>
    var history: seq<Layer>
    var outfitIndex: nat
    var poseIndex: PoseIndex
    var loading: bool
    var error: Option<string>
    var wardrobe: seq<Garment>

    /** The history and cursor have the shape every sequential use keeps. */
    ghost predicate Settled()
      reads this
    {
      WellFormed(history, outfitIndex)
    }

    /** `displayImageUrl` of the current state. */
    function Shown(): Option<string>
      reads this
    {
      DisplayImage(modelImage, history, outfitIndex, poseIndex)
    }

    /** The initial values of the state cells. */
    constructor ()
      ensures modelImage == None && history == [] && outfitIndex == 0 && poseIndex == 0
      ensures !loading && error == None && wardrobe == DefaultWardrobe
      ensures Settled()
    {
      modelImage := None;
      history := [];
      outfitIndex := 0;
      poseIndex := 0;
      loading := false;
      error := None;
      wardrobe := DefaultWardrobe;
    }

    /** `handleModelFinalized`: the history becomes the single bare-model layer with the
        image under the first pose; the pose cursor is left as it was. */
    method FinalizeModel(url: string)
      modifies this
      ensures modelImage == Some(url) && history == [RootLayer(url)] && outfitIndex == 0
      ensures poseIndex == old(poseIndex) && loading == old(loading)
      ensures error == old(error) && wardrobe == old(wardrobe)
      ensures Settled()
    {
      modelImage := Some(url);
      history := [RootLayer(url)];
      outfitIndex := 0;
    }

    /** `handleStartOver`: every cell back to its initial value. */
    method StartOver()
      modifies this
      ensures modelImage == None && history == [] && outfitIndex == 0 && poseIndex == 0
      ensures !loading && error == None && wardrobe == DefaultWardrobe
      ensures Settled()
    {
      modelImage := None;
      history := [];
      outfitIndex := 0;
      loading := false;
      error := None;
      poseIndex := 0;
      wardrobe := DefaultWardrobe;
    }

    /** `handleGarmentSelect` up to its `await`. Nothing happens without a display
        image or while a call is in flight; re-selecting the garment of the redo
        candidate moves forward onto it for free; anything else clears the error,
        raises the loading gate and issues a try-on call on the displayed image. */
    method BeginGarmentSelect(garmentFile: File, garment: Garment) returns (call: Option<GarmentCall>)
      modifies this
      ensures !Truthy(old(Shown())) || old(loading) ==> call == None && unchanged(this)
      ensures Truthy(old(Shown())) && !old(loading) && IsRedoCandidate(old(history), old(outfitIndex), garment.id) ==>
        && call == None
        && outfitIndex == old(outfitIndex) + 1 && poseIndex == 0
        && history == old(history) && wardrobe == old(wardrobe)
        && loading == old(loading) && error == old(error) && modelImage == old(modelImage)
      ensures Truthy(old(Shown())) && !old(loading) && !IsRedoCandidate(old(history), old(outfitIndex), garment.id) ==>
        && call == Some(GarmentCall(old(Shown()).value, garmentFile, garment, old(outfitIndex), old(poseIndex)))
        && loading && error == None
        && history == old(history) && outfitIndex == old(outfitIndex) && poseIndex == old(poseIndex)
        && wardrobe == old(wardrobe) && modelImage == old(modelImage)
      ensures old(Settled()) ==> Settled()
    {
      var shown := Shown();
      if !Truthy(shown) || loading {
        return None;
      }
      if IsRedoCandidate(history, outfitIndex, garment.id) {
        outfitIndex := outfitIndex + 1;
        poseIndex := 0;
        return None;
      }
      error := None;
      loading := true;
      call := Some(GarmentCall(shown.value, garmentFile, garment, outfitIndex, poseIndex));
    }

    /** The continuation of `handleGarmentSelect`. On success the history is cut after
        the layer that was active when the call began and the new layer appended; the
        live cursor moves up by one; the wardrobe gains the garment unless its id is
        already there. On failure only the error changes. The loading gate drops. */
    method CompleteGarmentSelect(call: GarmentCall, outcome: GatewayOutcome)
      modifies this
      ensures outcome.Generated? ==>
        && history == old(history)[..ActiveCount(old(history), call.cursor)] + [GarmentLayer(call.garment, call.pose, outcome.image)]
        && outfitIndex == old(outfitIndex) + 1
        && wardrobe == AddGarment(old(wardrobe), call.garment)
        && error == old(error)
      ensures outcome.Failed? ==>
        && history == old(history) && outfitIndex == old(outfitIndex) && wardrobe == old(wardrobe)
        && error == Some(outcome.message)
      ensures !loading && poseIndex == old(poseIndex) && modelImage == old(modelImage)
      // Nothing moved the cursor while the call was pending: the cursor lands on the new last layer.
      ensures outcome.Generated? && old(outfitIndex) == call.cursor < old(|history|) ==>
        && history == old(history)[..call.cursor + 1] + [GarmentLayer(call.garment, call.pose, outcome.image)]
        && outfitIndex == |history| - 1
      ensures old(Settled()) && old(|history|) > 0 && old(outfitIndex) <= call.cursor ==> Settled()
    {
      match outcome {
        case Generated(image) =>
          var layer := GarmentLayer(call.garment, call.pose, image);
          history := history[..ActiveCount(history, call.cursor)] + [layer];
          outfitIndex := outfitIndex + 1;
          wardrobe := AddGarment(wardrobe, call.garment);
        case Failed(message) =>
          error := Some(message);
      }
      loading := false;
    }

    /** `handleRemoveLastGarment`: step the cursor back and reset the pose, unless the
        cursor is on the root. The history itself is kept, so the layer stepped off
        stays as the redo candidate. */
    method RemoveLastGarment()
      modifies this
      ensures old(outfitIndex) > 0 ==> outfitIndex == old(outfitIndex) - 1 && poseIndex == 0
      ensures old(outfitIndex) == 0 ==> outfitIndex == 0 && poseIndex == old(poseIndex)
      ensures history == old(history) && wardrobe == old(wardrobe) && modelImage == old(modelImage)
      ensures loading == old(loading) && error == old(error)
      ensures old(Settled()) ==> Settled()
    {
      if outfitIndex > 0 {
        outfitIndex := outfitIndex - 1;
        poseIndex := 0;
      }
    }

    /** `handlePoseSelect` up to its `await`. Ignored while loading, before a model
        exists, or for the current pose; a pose already generated for the active layer
        is a cursor move; otherwise the cursor moves at once and a pose call is issued
        on the layer's first image (none without one). With the cursor past the end of
        the history the source dereferences a missing layer and throws before any update. */
    method BeginPoseSelect(target: PoseIndex) returns (call: Option<PoseCall>)
      modifies this
      ensures PoseSelectIgnored(old(loading), old(history), target, old(poseIndex)) ==> call == None && unchanged(this)
      ensures old(outfitIndex) >= old(|history|) ==> call == None && unchanged(this)
      ensures !PoseSelectIgnored(old(loading), old(history), target, old(poseIndex)) && old(outfitIndex) < old(|history|) ==>
        var layer := old(history)[old(outfitIndex)];
        var cached := Get(layer.poseImages, PoseInstructions[target]);
        var base := FirstValue(layer.poseImages);
        && history == old(history) && outfitIndex == old(outfitIndex)
        && wardrobe == old(wardrobe) && modelImage == old(modelImage)
        && (Truthy(cached) ==> call == None && poseIndex == target && loading == old(loading) && error == old(error))
        && (!Truthy(cached) && !Truthy(base) ==> call == None && unchanged(this))
        && (!Truthy(cached) && Truthy(base) ==>
              && call == Some(PoseCall(base.value, target, old(outfitIndex), old(poseIndex)))
              && poseIndex == target && loading && error == None)
      ensures old(Settled()) ==> Settled()
    {
      if PoseSelectIgnored(loading, history, target, poseIndex) || outfitIndex >= |history| {
        return None;
      }
      var instruction := PoseInstructions[target];
      var layer := history[outfitIndex];
      if Truthy(Get(layer.poseImages, instruction)) {
        poseIndex := target;
        return None;
      }
      var base := FirstValue(layer.poseImages);
      if !Truthy(base) {
        return None;
      }
      error := None;
      loading := true;
      var previous := poseIndex;
      poseIndex := target;
      call := Some(PoseCall(base.value, target, outfitIndex, previous));
    }

    /** The continuation of `handlePoseSelect`. On success the new image is stored under
        the instruction in the layer at the index captured when the call began, every
        other layer and every other pose untouched; on failure the pose cursor goes back
        to where it was. The loading gate drops. */
    method CompletePoseSelect(call: PoseCall, outcome: GatewayOutcome)
      modifies this
      ensures outcome.Generated? && call.cursor < old(|history|) ==>
        history == old(history)[call.cursor := Layer(old(history)[call.cursor].garment,
                                                     Put(old(history)[call.cursor].poseImages, PoseInstructions[call.pose], outcome.image))]
      ensures outcome.Generated? ==> poseIndex == old(poseIndex) && error == old(error)
      ensures outcome.Generated? && call.cursor >= old(|history|) ==> history == old(history)
      ensures outcome.Failed? ==> history == old(history) && poseIndex == call.previousPose && error == Some(outcome.message)
      ensures !loading && outfitIndex == old(outfitIndex) && wardrobe == old(wardrobe) && modelImage == old(modelImage)
      ensures |history| == old(|history|)
      ensures forall j, pose :: 0 <= j < |history| && pose != PoseInstructions[call.pose] ==>
        Get(history[j].poseImages, pose) == Get(old(history)[j].poseImages, pose)
      ensures old(Settled()) ==> Settled()
    {
      match outcome {
        case Generated(image) =>
          if call.cursor < |history| {
            var layer := history[call.cursor];
            history := history[call.cursor := Layer(layer.garment, Put(layer.poseImages, PoseInstructions[call.pose], image))];
          }
        case Failed(message) =>
          error := Some(message);
          poseIndex := call.previousPose;
      }
      loading := false;
    }
  }
}

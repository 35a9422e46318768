/** The values of the try-on session in App.tsx and the views derived from them:
    the pose catalogue, outfit layers, the default wardrobe, and the memoised
    views `activeOutfitLayers`, `activeGarmentIds`, `displayImageUrl` and
    `availablePoseKeys`, each a function of the state cells. */
module Outfit {
  import opened Types
  import opened PoseMaps
  import Lists

  /** `POSE_INSTRUCTIONS`: the fixed pose catalogue; its order defines previous and next. */
  const PoseInstructions: seq<string> := [
    "Full frontal view, hands on hips",
    "Slightly turned, 3/4 view",
    "Side profile view",
    "Jumping in the air, mid-action shot",
    "Walking towards camera",
    "Leaning against a wall"
  ]

  /** A position in the pose catalogue. */
  type PoseIndex = i: int | 0 <= i < 6

  /** One step of the outfit: the garment put on at this step (none for the bare
      model at the root) and every pose generated while it was the top layer. */
  datatype Layer = Layer(garment: Option<Garment>, poseImages: PoseMap)

  /** `defaultWardrobe`: the items the wardrobe starts with and is reset to. */
  const DefaultWardrobe: seq<Garment> := [
    Garment("black-jodhpuri", "Black Jodhpuri Suit",
            "https://raw.githubusercontent.com/Raghav-Luthra/Spannick-Designers-Visual/main/blacksherwani.png"),
    Garment("purple-suit", "Purple Business Suit",
            "https://raw.githubusercontent.com/Raghav-Luthra/Spannick-Designers-Visual/main/purplesuit.png")
  ]

  lemma CatalogueShape()
    ensures |PoseInstructions| == 6 && Lists.Distinct(PoseInstructions)
  {
  }

  function Min(a: int, b: int): int { if a <= b then a else b }

  /** The number of layers `slice(0, cursor + 1)` keeps. */
  function ActiveCount(history: seq<Layer>, cursor: nat): nat {
    Min(cursor + 1, |history|)
  }

  /** `activeOutfitLayers`: the layers from the root up to and including the cursor. */
  function ActiveLayers(history: seq<Layer>, cursor: nat): (active: seq<Layer>)
    ensures active <= history
    ensures cursor < |history| ==> |active| == cursor + 1 && active[cursor] == history[cursor]
    ensures cursor >= |history| ==> active == history
  {
    history[..ActiveCount(history, cursor)]
  }

  /** `layers.map(l => l.garment?.id).filter(Boolean)`: the ids of the applied
      garments, in layer order; a missing garment or an empty id is dropped. */
  function GarmentIds(layers: seq<Layer>): (ids: seq<string>)
    ensures |ids| <= |layers|
    ensures forall id :: id in ids <==>
      exists j :: 0 <= j < |layers| && layers[j].garment.Some? && layers[j].garment.value.id == id && id != ""
  {
    if |layers| == 0 then []
    else
      var rest := GarmentIds(layers[1..]);
      assert forall j :: 1 <= j < |layers| ==> layers[j] == layers[1..][j - 1];
      assert forall j :: 0 <= j < |layers| - 1 ==> layers[1..][j] == layers[j + 1];
      var g := layers[0].garment;
      if g.Some? && g.value.id != "" then [g.value.id] + rest else rest
  }

  /** When every layer carries a garment with a non-empty id, nothing is filtered out. */
  lemma {:induction false} GarmentIdsKeepAll(layers: seq<Layer>)
    requires forall j :: 0 <= j < |layers| ==> layers[j].garment.Some? && layers[j].garment.value.id != ""
    ensures |GarmentIds(layers)| == |layers|
    ensures forall j :: 0 <= j < |layers| ==> GarmentIds(layers)[j] == layers[j].garment.value.id
  {
    if |layers| > 0 {
      GarmentIdsKeepAll(layers[1..]);
    }
  }

  /** `activeGarmentIds`. */
  function ActiveGarmentIds(history: seq<Layer>, cursor: nat): seq<string> {
    GarmentIds(ActiveLayers(history, cursor))
  }

  /** The layer that `outfitHistory[currentOutfitIndex]` reads, when there is one. */
  function ActiveLayer(history: seq<Layer>, cursor: nat): Option<Layer> {
    if cursor < |history| then Some(history[cursor]) else None
  }

  /** `displayImageUrl`: the active layer's image for the current pose, else the
      image of the first pose ever generated for that layer; the bare model image
      when there is no active layer. */
  function DisplayImage(modelImage: Option<string>, history: seq<Layer>, cursor: nat, pose: PoseIndex): (r: Option<string>)
    ensures cursor >= |history| ==> r == modelImage
    ensures cursor < |history| ==> (r.Some? <==> |history[cursor].poseImages| > 0)
    ensures cursor < |history| && r.Some? ==> r.value in Values(history[cursor].poseImages)
    ensures cursor < |history| && PoseInstructions[pose] in Keys(history[cursor].poseImages) ==>
      r == Get(history[cursor].poseImages, PoseInstructions[pose])
    ensures cursor < |history| && PoseInstructions[pose] !in Keys(history[cursor].poseImages) ==>
      r == FirstValue(history[cursor].poseImages)
  {
    if |history| == 0 then modelImage
    else match ActiveLayer(history, cursor)
      case None => modelImage
      case Some(layer) =>
        match Get(layer.poseImages, PoseInstructions[pose])
        case Some(image) => Some(image)
        case None => FirstValue(layer.poseImages)
  }

  /** `availablePoseKeys`: the poses already generated for the active layer, in the
      order they were generated, oldest first. */
  function AvailablePoseKeys(history: seq<Layer>, cursor: nat): (keys: seq<string>)
    ensures cursor < |history| ==> forall k :: k in keys <==> Get(history[cursor].poseImages, k).Some?
    ensures cursor < |history| && DistinctKeys(history[cursor].poseImages) ==> Lists.Distinct(keys)
    ensures cursor < |history| ==> keys == Keys(history[cursor].poseImages)
    ensures cursor >= |history| ==> keys == []
  {
    if |history| == 0 then []
    else match ActiveLayer(history, cursor)
      case None => []
      case Some(layer) => Keys(layer.poseImages)
  }

  /** A pose newly generated for the active layer is listed last; the poses generated
      before it keep their order. */
  lemma GeneratedPoseListedLast(history: seq<Layer>, cursor: nat, pose: string, image: string)
    requires cursor < |history| && pose !in AvailablePoseKeys(history, cursor)
    ensures var layer := history[cursor];
      var updated := history[cursor := Layer(layer.garment, Put(layer.poseImages, pose, image))];
      AvailablePoseKeys(updated, cursor) == AvailablePoseKeys(history, cursor) + [pose]
  {
  }

  /** The single layer `handleModelFinalized` seeds the history with. */
  function RootLayer(modelImage: string): Layer {
    Layer(None, Singleton(PoseInstructions[0], modelImage))
  }

  /** The layer a successful try-on appends: the garment, and the new image under
      the pose that was current when the call was made. */
  function GarmentLayer(garment: Garment, pose: PoseIndex, image: string): Layer {
    Layer(Some(garment), Singleton(PoseInstructions[pose], image))
  }

  /** The redo test of `handleGarmentSelect`: the layer right after the cursor exists
      and carries a garment with this id. */
  predicate IsRedoCandidate(history: seq<Layer>, cursor: nat, id: string) {
    cursor + 1 < |history| && history[cursor + 1].garment.Some? && history[cursor + 1].garment.value.id == id
  }

  /** The early return of `handlePoseSelect`: a call in flight, no history yet, or
      the pose already selected. */
  predicate PoseSelectIgnored(loading: bool, history: seq<Layer>, target: PoseIndex, current: PoseIndex) {
    loading || |history| == 0 || target == current
  }

  /** The shape of the history and cursor between operations: empty with the cursor
      at 0, or a bare-model root followed by garment layers, the cursor on one of
      them, and every layer holding at least one image under distinct keys, each key
      a catalogue pose. */
  ghost predicate WellFormed(history: seq<Layer>, cursor: nat) {
    && (|history| == 0 ==> cursor == 0)
    && (|history| > 0 ==> cursor < |history| && history[0].garment.None?)
    && (forall j :: 0 < j < |history| ==> history[j].garment.Some?)
    && (forall j :: 0 <= j < |history| ==> |history[j].poseImages| > 0 && DistinctKeys(history[j].poseImages))
    && (forall j, pose :: 0 <= j < |history| && pose in Keys(history[j].poseImages) ==> pose in PoseInstructions)
  }

  /** Between operations, `activeGarmentIds` lists the ids of the garment layers up to
      the cursor, root excluded, in the order they were applied. */
  lemma ActiveGarmentIdsInOrder(history: seq<Layer>, cursor: nat)
    requires WellFormed(history, cursor) && |history| > 0
    requires forall j :: 0 < j < |history| ==> history[j].garment.value.id != ""
    ensures |ActiveGarmentIds(history, cursor)| == cursor
    ensures forall j :: 0 <= j < cursor ==> ActiveGarmentIds(history, cursor)[j] == history[j + 1].garment.value.id
  {
    var active := ActiveLayers(history, cursor);
    assert active[0].garment.None?;
    assert GarmentIds(active) == GarmentIds(active[1..]);
    GarmentIdsKeepAll(active[1..]);
  }

  /** No two items share an id. */
  ghost predicate UniqueIds(wardrobe: seq<Garment>) {
    forall i, j :: 0 <= i < j < |wardrobe| ==> wardrobe[i].id != wardrobe[j].id
  }

  /** The wardrobe update after a successful try-on: the garment is appended unless
      an item with its id is already there. */
  function AddGarment(wardrobe: seq<Garment>, garment: Garment): (r: seq<Garment>)
    ensures wardrobe <= r && |r| <= |wardrobe| + 1
    ensures exists j :: 0 <= j < |r| && r[j].id == garment.id
    ensures (exists j :: 0 <= j < |wardrobe| && wardrobe[j].id == garment.id) <==> r == wardrobe
    ensures r != wardrobe ==> r == wardrobe + [garment]
    ensures UniqueIds(wardrobe) ==> UniqueIds(r)
  {
    if exists j :: 0 <= j < |wardrobe| && wardrobe[j].id == garment.id then wardrobe
    else
      var r := wardrobe + [garment];
      assert r[|wardrobe|].id == garment.id;
      r
  }

  /** Adding the same garment twice leaves one entry for it. */
  lemma AddGarmentIdempotent(wardrobe: seq<Garment>, garment: Garment)
    ensures AddGarment(AddGarment(wardrobe, garment), garment) == AddGarment(wardrobe, garment)
  {
  }
}

/** The pose controls of components/Canvas.tsx: the previous/next arrows step through
    the catalogue using the poses already generated for the active layer, and the
    pose menu offers every catalogue entry. Each rule yields the index handed to
    `onSelectPose`, or None when it makes no call. */
module Canvas {
  import opened Types
  import Lists
  import Outfit
  import PoseMaps

  /** `handlePreviousPose`: nothing while loading or with fewer than two generated
      poses; from a pose that was not generated, one catalogue step back; otherwise
      the available pose before the current one, circularly, by its catalogue index. */
  function Previous(catalogue: seq<string>, current: nat, available: seq<string>, loading: bool): (r: Option<nat>)
    requires current < |catalogue|
    ensures r.Some? ==> r.value < |catalogue|
    ensures loading || |available| <= 1 ==> r == None
    ensures !loading && |available| > 1 && catalogue[current] !in available ==>
      r == Some(PrevSlot(current, |catalogue|))
    ensures r.Some? && catalogue[current] in available ==> catalogue[r.value] in available
  {
    if loading || |available| <= 1 then None
    else
      var n := |catalogue|;
      var i := Lists.IndexOf(available, catalogue[current]);
      if i == -1 then
        CircularDecrement(current, n);
        Some((current - 1 + n) % n)
      else
        CircularDecrement(i, |available|);
        var previous := available[(i - 1 + |available|) % |available|];
        var g := Lists.IndexOf(catalogue, previous);
        if g != -1 then Some(g) else None
  }

  /** `handleNextPose`: nothing while loading; from a pose that was not generated, one
      catalogue step forward; from a generated pose with another after it, that pose by
      its catalogue index; from the last generated pose, one catalogue step forward,
      which is how a pose not yet generated gets requested. */
  function Next(catalogue: seq<string>, current: nat, available: seq<string>, loading: bool): (r: Option<nat>)
    requires current < |catalogue|
    ensures r.Some? ==> r.value < |catalogue|
    ensures loading ==> r == None
    ensures !loading && catalogue[current] !in available ==> r == Some(NextSlot(current, |catalogue|))
    ensures !loading && |available| > 0 && available[|available| - 1] == catalogue[current] && Lists.Distinct(available)
      ==> r == Some(NextSlot(current, |catalogue|))
  {
    if loading then None
    else
      var n := |catalogue|;
      CircularIncrement(current, n);
      var i := Lists.IndexOf(available, catalogue[current]);
      if i == -1 || |available| == 0 then Some((current + 1) % n)
      else if i + 1 < |available| then
        var g := Lists.IndexOf(catalogue, available[i + 1]);
        if g != -1 then Some(g) else None
      else
        Some((current + 1) % n)
  }

  /** The slot before `i` in a circular list of `len` slots. */
  function PrevSlot(i: nat, len: nat): nat
    requires i < len
  {
    if i == 0 then len - 1 else i - 1
  }

  /** The slot after `i` in a circular list of `len` slots. */
  function NextSlot(i: nat, len: nat): nat
    requires i < len
  {
    if i == len - 1 then 0 else i + 1
  }

  /** The modulo arithmetic of the source computes the circular predecessor. */
  lemma CircularDecrement(i: int, len: int)
    requires 0 <= i < len
    ensures (i - 1 + len) % len == PrevSlot(i, len)
  {
    if i == 0 {
      assert (len - 1) % len == len - 1;
    } else {
      assert (i - 1 + len) == (i - 1) + 1 * len;
    }
  }

  /** The modulo arithmetic of the source computes the circular successor. */
  lemma CircularIncrement(i: int, len: int)
    requires 0 <= i < len
    ensures (i + 1) % len == NextSlot(i, len)
  {
  }

  /** Every generated pose is a catalogue pose; `SessionPosesFromCatalogue` shows that a
      session's `availablePoseKeys` has this shape. */
  ghost predicate FromCatalogue(catalogue: seq<string>, available: seq<string>) {
    forall k :: k in available ==> k in catalogue
  }

  /** Previous from a generated pose, with the index arithmetic unfolded. */
  lemma PreviousFromGenerated(catalogue: seq<string>, current: nat, available: seq<string>)
    requires current < |catalogue| && |available| > 1
    requires catalogue[current] in available
    ensures Previous(catalogue, current, available, false) ==
      var g := Lists.IndexOf(catalogue, available[PrevSlot(Lists.IndexOf(available, catalogue[current]), |available|)]);
      if g != -1 then Some(g) else None
  {
    CircularDecrement(Lists.IndexOf(available, catalogue[current]), |available|);
  }

  /** From a generated pose, Previous always moves, to the generated pose just before it
      in generation order (wrapping from the first to the last). */
  lemma PreviousStepsBackInAvailable(catalogue: seq<string>, current: nat, available: seq<string>)
    requires current < |catalogue| && |available| > 1
    requires catalogue[current] in available && FromCatalogue(catalogue, available)
    ensures var i := Lists.IndexOf(available, catalogue[current]);
      var r := Previous(catalogue, current, available, false);
      r.Some? && catalogue[r.value] == available[PrevSlot(i, |available|)]
  {
    var i := Lists.IndexOf(available, catalogue[current]);
    PreviousFromGenerated(catalogue, current, available);
    assert available[PrevSlot(i, |available|)] in available;
  }

  /** From a generated pose that is not the last one generated, Next always moves, to the
      generated pose right after it; it never requests a new pose. */
  lemma NextStepsForwardInAvailable(catalogue: seq<string>, current: nat, available: seq<string>)
    requires current < |catalogue| && FromCatalogue(catalogue, available)
    requires catalogue[current] in available
    requires Lists.IndexOf(available, catalogue[current]) + 1 < |available|
    ensures var i := Lists.IndexOf(available, catalogue[current]);
      var r := Next(catalogue, current, available, false);
      r.Some? && catalogue[r.value] == available[i + 1]
  {
    var i := Lists.IndexOf(available, catalogue[current]);
    assert available[i + 1] in available;
  }

  /** Next then Previous comes back to the starting pose when both moves stay among the
      generated poses. */
  lemma PreviousUndoesNext(catalogue: seq<string>, current: nat, available: seq<string>)
    requires current < |catalogue| && Lists.Distinct(catalogue) && Lists.Distinct(available)
    requires FromCatalogue(catalogue, available)
    requires catalogue[current] in available
    requires Lists.IndexOf(available, catalogue[current]) + 1 < |available|
    ensures var r := Next(catalogue, current, available, false);
      r.Some? && Previous(catalogue, r.value, available, false) == Some(current)
  {
    var i := Lists.IndexOf(available, catalogue[current]);
    NextStepsForwardInAvailable(catalogue, current, available);
    var g := Next(catalogue, current, available, false).value;
    Lists.IndexOfDistinct(available, i + 1);
    PreviousFromGenerated(catalogue, g, available);
    Lists.IndexOfDistinct(catalogue, current);
  }

  /** Previous then Next comes back to the starting pose when the starting pose is not the
      first generated one. */
  lemma NextUndoesPrevious(catalogue: seq<string>, current: nat, available: seq<string>)
    requires current < |catalogue| && Lists.Distinct(catalogue) && Lists.Distinct(available)
    requires FromCatalogue(catalogue, available)
    requires catalogue[current] in available
    requires Lists.IndexOf(available, catalogue[current]) > 0
    ensures var r := Previous(catalogue, current, available, false);
      r.Some? && Next(catalogue, r.value, available, false) == Some(current)
  {
    var i := Lists.IndexOf(available, catalogue[current]);
    PreviousStepsBackInAvailable(catalogue, current, available);
    var g := Previous(catalogue, current, available, false).value;
    Lists.IndexOfDistinct(available, i - 1);
    Lists.IndexOfDistinct(catalogue, current);
  }

  /** The `disabled` rule of a pose-menu button. */
  predicate MenuButtonDisabled(loading: bool, index: nat, current: nat) {
    loading || index == current
  }

  /** A disabled menu button would have been a no-op anyway: `handlePoseSelect` ignores
      exactly the current pose and every request while loading. */
  lemma DisabledButtonIsIgnored(loading: bool, history: seq<Outfit.Layer>, index: Outfit.PoseIndex, current: Outfit.PoseIndex)
    requires MenuButtonDisabled(loading, index, current)
    ensures Outfit.PoseSelectIgnored(loading, history, index, current)
  {
  }

  /** In a well-formed session the poses generated for the active layer are distinct
      catalogue poses, which is what the arrow lemmas above assume. */
  lemma SessionPosesFromCatalogue(history: seq<Outfit.Layer>, cursor: nat)
    requires Outfit.WellFormed(history, cursor)
    ensures FromCatalogue(Outfit.PoseInstructions, Outfit.AvailablePoseKeys(history, cursor))
    ensures Lists.Distinct(Outfit.AvailablePoseKeys(history, cursor))
  {
    if cursor < |history| {
      assert PoseMaps.DistinctKeys(history[cursor].poseImages);
    }
  }

  /** On the session's own catalogue and layer: from a generated pose that is not the
      last one generated, Next then Previous comes back to it. */
  lemma SessionArrowsRoundTrip(history: seq<Outfit.Layer>, cursor: nat, pose: Outfit.PoseIndex)
    requires Outfit.WellFormed(history, cursor)
    requires Outfit.PoseInstructions[pose] in Outfit.AvailablePoseKeys(history, cursor)
    requires Lists.IndexOf(Outfit.AvailablePoseKeys(history, cursor), Outfit.PoseInstructions[pose]) + 1
             < |Outfit.AvailablePoseKeys(history, cursor)|
    ensures var r := Next(Outfit.PoseInstructions, pose, Outfit.AvailablePoseKeys(history, cursor), false);
      r.Some? && Previous(Outfit.PoseInstructions, r.value, Outfit.AvailablePoseKeys(history, cursor), false) == Some(pose)
  {
    Outfit.CatalogueShape();
    SessionPosesFromCatalogue(history, cursor);
    PreviousUndoesNext(Outfit.PoseInstructions, pose, Outfit.AvailablePoseKeys(history, cursor));
  }
}

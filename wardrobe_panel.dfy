/** The wardrobe panel of components/WardrobeModal.tsx: which item clicks and uploads
    reach `onGarmentSelect`, the record built for an uploaded garment, and the panel's
    own error cell. The image-to-file conversion of a wardrobe item is a browser call
    and arrives as a parameter (None when it fails). */
module WardrobePanel {
  import opened Types
  import Text
  import Outfit

  /** One `onGarmentSelect(file, item)` call. */
  datatype Selection = Selection(file: File, garment: Garment)

  /** The effect of one event handler: the panel's error cell afterwards and the
      selection it hands to the session, if any. */
  datatype PanelStep = PanelStep(error: Option<string>, selected: Option<Selection>)

  const ConversionFailedMessage: string :=
    "Failed to load wardrobe item. This is often a CORS issue. Check the developer console for details."

  const NotAnImageMessage: string := "Please select an image file."

  const CustomPrefix: string := "custom-"

  /** `isActive`: the item is one of the garments worn up to the cursor. */
  predicate IsActive(activeIds: seq<string>, item: Garment) {
    item.id in activeIds
  }

  /** The `disabled` rule of an item button. */
  predicate ItemDisabled(loading: bool, activeIds: seq<string>, item: Garment) {
    loading || IsActive(activeIds, item)
  }

  /** `handleGarmentClick`: ignored while loading or for an active item; otherwise the
      error is cleared and, once the item's image is converted to a file, the item is
      selected; a failed conversion sets the conversion error instead. */
  function GarmentClick(loading: bool, activeIds: seq<string>, item: Garment, converted: Option<File>,
                        error: Option<string>): (step: PanelStep)
    ensures step.selected.Some? <==> !ItemDisabled(loading, activeIds, item) && converted.Some?
    ensures step.selected.Some? ==> step.selected.value == Selection(converted.value, item)
    ensures ItemDisabled(loading, activeIds, item) ==> step.error == error
    ensures !ItemDisabled(loading, activeIds, item) ==>
      step.error == (if converted.Some? then None else Some(ConversionFailedMessage))
  {
    if loading || item.id in activeIds then PanelStep(error, None)
    else match converted
      case None => PanelStep(Some(ConversionFailedMessage), None)
      case Some(file) => PanelStep(None, Some(Selection(file, item)))
  }

  /** The record built for an uploaded file: a `custom-` id from the clock reading, the
      file's name, and an object URL for the file. */
  function CustomGarment(file: File, now: nat, objectUrl: string): Garment {
    Garment(CustomPrefix + Text.Decimal(now), file.name, objectUrl)
  }

  /** `handleFileChange`: nothing without a file; a file whose type does not start with
      `image/` sets the error; any other file is selected with a fresh custom record,
      leaving the error cell as it was. */
  function FileChange(files: seq<File>, now: nat, objectUrl: string, error: Option<string>): (step: PanelStep)
    ensures step.selected.Some? <==> |files| > 0 && Text.StartsWith(files[0].mimeType, "image/")
    ensures |files| > 0 && !Text.StartsWith(files[0].mimeType, "image/") ==> step.error == Some(NotAnImageMessage)
    ensures |files| == 0 || Text.StartsWith(files[0].mimeType, "image/") ==> step.error == error
    ensures step.selected.Some? ==>
      && step.selected.value.file == files[0]
      && Text.StartsWith(step.selected.value.garment.id, CustomPrefix)
      && step.selected.value.garment.name == files[0].name
      && step.selected.value.garment.url == objectUrl
  {
    if |files| == 0 then PanelStep(error, None)
    else
      var file := files[0];
      if !Text.StartsWith(file.mimeType, "image/") then PanelStep(Some(NotAnImageMessage), None)
      else PanelStep(error, Some(Selection(file, CustomGarment(file, now, objectUrl))))
  }

  /** Uploads at different clock readings get different ids, so the wardrobe's
      dedup by id keeps both. */
  lemma CustomIdsDiffer(a: File, b: File, now1: nat, now2: nat, url1: string, url2: string)
    requires now1 != now2
    ensures CustomGarment(a, now1, url1).id != CustomGarment(b, now2, url2).id
  {
    var id1, id2 := CustomGarment(a, now1, url1).id, CustomGarment(b, now2, url2).id;
    if id1 == id2 {
      assert id1[|CustomPrefix|..] == Text.Decimal(now1);
      assert id2[|CustomPrefix|..] == Text.Decimal(now2);
      Text.DecimalInjective(now1, now2);
    }
  }

  /** A custom id is never empty, so `activeGarmentIds` does not filter it out, and it
      never clashes with an item of the default wardrobe. */
  lemma CustomIdIsKept(file: File, now: nat, objectUrl: string)
    ensures CustomGarment(file, now, objectUrl).id != ""
    ensures forall j :: 0 <= j < |Outfit.DefaultWardrobe| ==>
      Outfit.DefaultWardrobe[j].id != CustomGarment(file, now, objectUrl).id
  {
    var id := CustomGarment(file, now, objectUrl).id;
    assert id[0] == 'c';
    assert Outfit.DefaultWardrobe[0].id[0] == 'b' && Outfit.DefaultWardrobe[1].id[0] == 'p';
  }
}

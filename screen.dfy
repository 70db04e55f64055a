/** The product-entry screen (`MainActivity`): the colors and images picked
    so far, the label listing the colors, the two picker callbacks that
    append to those lists, and the save action behind the toolbar menu. */
module Screen {
  import opened Collections
  import opened Text
  import opened Colors
  import opened Products
  import opened Saving

  /** `Activity.RESULT_OK`. */
  const RESULT_OK: int := -1

  /** One entry of the picker's clip data; its URI may be null. */
  datatype ClipItem = ClipItem(uri: Option<Uri>)

  /** The intent the image picker returns: several images in `clipData`, or
      one in `data`. */
  datatype Intent = Intent(clipData: Option<seq<ClipItem>>, data: Option<Uri>)

  datatype ActivityResult = ActivityResult(resultCode: int, data: Option<Intent>)

  function ItemUri(item: ClipItem): Option<Uri> {
    item.uri
  }

  /** How many images the result offers: the clip items when there is clip
      data, otherwise the single `data` slot. */
  function Offered(result: ActivityResult): nat {
    if result.data.Some? && result.data.value.clipData.Some? then |result.data.value.clipData.value| else 1
  }

  /** The URIs an image-picker result adds to the selection: nothing unless
      the result is OK; with clip data, the non-null item URIs in item order;
      without it, the `data` URI when there is one. */
  function PickedUris(result: ActivityResult): (uris: seq<Uri>)
    ensures result.resultCode != RESULT_OK || result.data.None? ==> uris == []
    ensures |uris| <= Offered(result)
    ensures result.data.Some? && result.data.value.clipData.None? ==>
              (uris == [] <==> result.resultCode != RESULT_OK || result.data.value.data.None?)
    ensures result.resultCode == RESULT_OK && result.data.Some? && result.data.value.clipData.Some? ==>
              uris == Keep(result.data.value.clipData.value, ItemUri)
    ensures (result.resultCode == RESULT_OK && result.data.Some? && result.data.value.clipData.None? &&
             result.data.value.data.Some?) ==> uris == [result.data.value.data.value]
  {
    if result.resultCode != RESULT_OK || result.data.None? then []
    else
      var intent := result.data.value;
      if intent.clipData.Some? then Keep(intent.clipData.value, ItemUri)
      else if intent.data.Some? then [intent.data.value]
      else []
  }

  /** A clip item with a null URI is skipped and disturbs nothing around it. */
  lemma NullClipItemSkipsOnlyItself(before: seq<ClipItem>, after: seq<ClipItem>)
    ensures Keep(before + [ClipItem(None)] + after, ItemUri) == Keep(before, ItemUri) + Keep(after, ItemUri)
  {
    SkipOnlyThat(before, ClipItem(None), after, ItemUri);
  }

  /** Every clip item is added exactly when none of them has a null URI. */
  lemma ClipItemsAllAdded(items: seq<ClipItem>)
    ensures |Keep(items, ItemUri)| == |items| <==> forall i :: 0 <= i < |items| ==> items[i].uri.Some?
  {
    KeepAllPresent(items, ItemUri);
  }

  class MainActivity {
    /** The picked colors, in picking order; duplicates allowed. */
    var selectedColors: seq<Int32>
    /** The picked image URIs, in picking order. */
    var selectedImages: seq<Uri>
    /** The text of the selected-colors label. */
    var colorsLabel: string

    /** The label shows the picked colors. */
    ghost predicate Valid()
      reads this
    {
      colorsLabel == ColorsText(selectedColors)
    }

    /** A fresh screen: nothing picked, an empty label. */
    constructor ()
      ensures selectedColors == [] && selectedImages == [] && colorsLabel == []
      ensures Valid()
    {
      selectedColors := [];
      selectedImages := [];
      colorsLabel := [];
    }

    /** `updateColors`: rebuilds the label from the picked colors, one
        segment per color. */
    method UpdateColors()
      modifies this`colorsLabel
      ensures colorsLabel == ColorsText(selectedColors)
      ensures Count(colorsLabel, ',') == |selectedColors|
    {
      var colors: string := [];
      var i := 0;
      while i < |selectedColors|
        invariant 0 <= i <= |selectedColors|
        invariant colors == ColorsText(selectedColors[..i])
      {
        assert selectedColors[..i + 1][..i] == selectedColors[..i];
        colors := colors + " " + ToHexString(selectedColors[i]) + ", ";
        i := i + 1;
      }
      assert selectedColors[..i] == selectedColors;
      colorsLabel := colors;
      ColorsTextSegments(selectedColors);
    }

    /** The color picker's confirm callback: a delivered color is appended
        and the label rebuilt; a null envelope changes nothing. */
    method OnColorSelected(envelope: Option<Int32>)
      modifies this`selectedColors, this`colorsLabel
      ensures envelope.None? ==> selectedColors == old(selectedColors) && colorsLabel == old(colorsLabel)
      ensures envelope.Some? ==> selectedColors == old(selectedColors) + [envelope.value]
      ensures envelope.Some? ==> Valid()
      ensures envelope.Some? && old(Valid()) ==> colorsLabel == old(colorsLabel) + Segment(envelope.value)
      ensures old(Valid()) ==> Valid()
    {
      if envelope.Some? {
        selectedColors := selectedColors + [envelope.value];
        UpdateColors();
        ColorsTextAppend(old(selectedColors), [envelope.value]);
        assert [envelope.value][..0] == [];
      }
    }

    /** The image picker's result callback: appends the picked URIs after
        the ones already selected. */
    method OnImagesResult(result: ActivityResult)
      modifies this`selectedImages
      ensures selectedImages == old(selectedImages) + PickedUris(result)
    {
      if result.resultCode == RESULT_OK {
        var intent := result.data;
        if intent.Some? && intent.value.clipData.Some? {
          var items := intent.value.clipData.value;
          var i := 0;
          while i < |items|
            invariant 0 <= i <= |items|
            invariant selectedImages == old(selectedImages) + Keep(items[..i], ItemUri)
          {
            assert items[..i + 1][..i] == items[..i];
            if items[i].uri.Some? {
              selectedImages := selectedImages + [items[i].uri.value];
            }
            i := i + 1;
          }
          assert items[..i] == items;
        } else if intent.Some? && intent.value.data.Some? {
          selectedImages := selectedImages + [intent.value.data.value];
        }
      }
    }

    /** `saveProducts`: compresses the selected images, uploads the
        compressed ones and builds the record from the URLs that came back,
        the selected colors and the form. `read` holds one outcome per
        selected image and `sent` one per compressed image. */
    method SaveProducts(form: Form, read: seq<CompressOutcome>, sent: seq<UploadOutcome>, id: string, committed: bool)
      returns (outcome: SaveOutcome)
      requires |read| == |selectedImages|
      requires ReadsCleanly(read) ==> |sent| == |Keep(read, PayloadOf)|
      ensures outcome == SaveOutcomeOf(form, selectedColors, read, sent, id, committed)
      ensures !outcome.Crashed? ==> |outcome.product.imageUrls| <= |selectedImages|
    {
      var payloads := CompressImages(selectedImages, read);
      if payloads.None? {
        return Crashed;
      }
      var urls := UploadImages(payloads.value, sent);
      var product := BuildProduct(id, form, selectedColors, urls);
      if committed {
        outcome := Saved(product);
      } else {
        outcome := NotSaved(product);
      }
    }

    /** The save menu item: invalid input stops before anything is saved;
        valid input goes on to `saveProducts`. */
    method OnSaveSelected(form: Form, read: seq<CompressOutcome>, sent: seq<UploadOutcome>, id: string, committed: bool)
      returns (outcome: Option<SaveOutcome>)
      requires |read| == |selectedImages|
      requires ReadsCleanly(read) ==> |sent| == |Keep(read, PayloadOf)|
      ensures outcome.None? <==> !ValidateInformation(selectedImages, form)
      ensures outcome.Some? ==> outcome.value == SaveOutcomeOf(form, selectedColors, read, sent, id, committed)
      ensures outcome.Some? && !outcome.value.Crashed? ==> outcome.value.product.name != []
    {
      if !ValidateInformation(selectedImages, form) {
        return None;
      }
      var saved := SaveProducts(form, read, sent, id, committed);
      outcome := Some(saved);
    }
  }
}

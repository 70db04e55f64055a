/** Saving a product (`saveProducts`): every selected image is read,
    decoded and compressed to JPEG, the compressed images are uploaded one
    after another, and the product record is built from the download URLs
    that came back and then added to the catalog.

    The content resolver, the bitmap codec, the object store and the
    document store are not modelled; what each call did is an input. One
    outcome is given per call, aligned with the list the loop walks. */
module Saving {
  import opened Collections
  import opened Text
  import opened Colors
  import opened Products

  type Bytes = seq<bv8>

  /** What happened to one selected image in the compress loop: it became a
      JPEG byte array; or it was skipped (the stream or the bitmap was null,
      or `compress` returned false); or opening its stream threw, which
      leaves the loop, runs the general error handler and builds no
      record. */
  datatype CompressOutcome = Compressed(jpeg: Bytes) | NotCompressed | ReadFailed

  /** What happened to one upload: the download URL came back, or
      `putBytes` or the URL lookup threw and the image was skipped. */
  datatype UploadOutcome = Uploaded(url: Url) | UploadFailed

  function PayloadOf(o: CompressOutcome): Option<Bytes> {
    if o.Compressed? then Some(o.jpeg) else None
  }

  function UrlOf(o: UploadOutcome): Option<Url> {
    if o.Uploaded? then Some(o.url) else None
  }

  /** No image stream failed to open. */
  predicate ReadsCleanly(read: seq<CompressOutcome>) {
    forall i :: 0 <= i < |read| ==> !read[i].ReadFailed?
  }

  /** The compress loop. None when some image could not be opened (the
      exception leaves the loop); otherwise the JPEG bytes of the images
      that compressed, in the order of `images`. */
  method CompressImages(images: seq<Uri>, read: seq<CompressOutcome>) returns (payloads: Option<seq<Bytes>>)
    requires |read| == |images|
    ensures payloads.None? <==> !ReadsCleanly(read)
    ensures payloads.Some? ==> payloads.value == Keep(read, PayloadOf)
  {
    var jpegs: seq<Bytes> := [];
    var i := 0;
    while i < |images|
      invariant 0 <= i <= |images|
      invariant ReadsCleanly(read[..i])
      invariant jpegs == Keep(read[..i], PayloadOf)
    {
      assert read[..i + 1][..i] == read[..i];
      if read[i].ReadFailed? {
        return None;
      } else if read[i].Compressed? {
        jpegs := jpegs + [read[i].jpeg];
      }
      i := i + 1;
    }
    assert read[..i] == read;
    return Some(jpegs);
  }

  /** The upload loop: the download URLs of the uploads that succeeded, in
      the order of `payloads`; a failed upload leaves out only its image. */
  method UploadImages(payloads: seq<Bytes>, sent: seq<UploadOutcome>) returns (urls: seq<Url>)
    requires |sent| == |payloads|
    ensures urls == Keep(sent, UrlOf)
    ensures |urls| <= |payloads|
  {
    urls := [];
    var i := 0;
    while i < |payloads|
      invariant 0 <= i <= |payloads|
      invariant urls == Keep(sent[..i], UrlOf)
    {
      assert sent[..i + 1][..i] == sent[..i];
      if sent[i].Uploaded? {
        urls := urls + [sent[i].url];
      }
      i := i + 1;
    }
    assert sent[..i] == sent;
  }

  /** What became of one selected image over the whole save. */
  datatype ImageFate = LostAtCompress | LostAtUpload | Stored(url: Url)

  function FateUrl(f: ImageFate): Option<Url> {
    if f.Stored? then Some(f.url) else None
  }

  /** The fate of each selected image, in selection order, when every
      stream opened: the compressed ones are matched, in order, with the
      upload outcomes. */
  function Fates(read: seq<CompressOutcome>, sent: seq<UploadOutcome>): (fates: seq<ImageFate>)
    requires ReadsCleanly(read) && |sent| == |Keep(read, PayloadOf)|
    ensures |fates| == |read|
    ensures forall i :: 0 <= i < |read| ==> (fates[i].LostAtCompress? <==> read[i].NotCompressed?)
  {
    if read == [] then []
    else
      var n := |read| - 1;
      assert ReadsCleanly(read[..n]) by {
        forall i | 0 <= i < n ensures !read[..n][i].ReadFailed? {
          assert read[..n][i] == read[i];
        }
      }
      var front := read[..n];
      if read[n].Compressed? then
        var m := |sent| - 1;
        var fates := Fates(front, sent[..m]) + [if sent[m].Uploaded? then Stored(sent[m].url) else LostAtUpload];
        assert forall i :: 0 <= i < n ==> front[i] == read[i];
        fates
      else
        var fates := Fates(front, sent) + [LostAtCompress];
        assert forall i :: 0 <= i < n ==> front[i] == read[i];
        fates
  }

  /** The URLs the two loops collect are exactly the URLs of the images that
      were stored, in selection order. */
  lemma {:induction false} UrlsAreStoredImages(read: seq<CompressOutcome>, sent: seq<UploadOutcome>)
    requires ReadsCleanly(read) && |sent| == |Keep(read, PayloadOf)|
    ensures Keep(sent, UrlOf) == Keep(Fates(read, sent), FateUrl)
  {
    if read != [] {
      var n := |read| - 1;
      var front := read[..n];
      assert ReadsCleanly(front) by {
        forall i | 0 <= i < n ensures !front[i].ReadFailed? {
          assert front[i] == read[i];
        }
      }
      var fates := Fates(read, sent);
      if read[n].Compressed? {
        var m := |sent| - 1;
        UrlsAreStoredImages(front, sent[..m]);
        assert fates[..n] == Fates(front, sent[..m]);
      } else {
        UrlsAreStoredImages(front, sent);
        assert fates[..n] == Fates(front, sent);
      }
    }
  }

  /** The record holds every selected image exactly when every image
      compressed and every upload succeeded. */
  lemma AllStoredExactlyWhenNothingFailed(read: seq<CompressOutcome>, sent: seq<UploadOutcome>)
    requires ReadsCleanly(read) && |sent| == |Keep(read, PayloadOf)|
    ensures |Keep(sent, UrlOf)| == |read| <==>
            (forall i :: 0 <= i < |read| ==> read[i].Compressed?) && (forall j :: 0 <= j < |sent| ==> sent[j].Uploaded?)
  {
    KeepAllPresent(read, PayloadOf);
    KeepAllPresent(sent, UrlOf);
  }

  /** How a save ends: an image stream failed to open, so the general error
      handler ran and no record was built; or the record was built and the
      catalog accepted it (`state(true)`) or refused it (`state(false)`). */
  datatype SaveOutcome = Crashed | Saved(product: Product) | NotSaved(product: Product)

  /** The outcome of `saveProducts` for the selected images and colors, the
      form, the per-call outcomes, the generated product id and whether the
      catalog accepted the record. */
  function SaveOutcomeOf(form: Form, colors: seq<Int32>, read: seq<CompressOutcome>, sent: seq<UploadOutcome>,
                         id: string, committed: bool): (outcome: SaveOutcome)
    requires ReadsCleanly(read) ==> |sent| == |Keep(read, PayloadOf)|
    ensures outcome.Crashed? <==> !ReadsCleanly(read)
    ensures outcome.Saved? <==> ReadsCleanly(read) && committed
    ensures !outcome.Crashed? ==>
              outcome.product.imageUrls == Keep(Fates(read, sent), FateUrl) &&
              |outcome.product.imageUrls| <= |read| &&
              outcome.product.colors == colors &&
              outcome.product.sizes == GetSizesList(Trim(form.sizes)) &&
              outcome.product.id == id && outcome.product.name == Trim(form.name) &&
              outcome.product.category == Trim(form.category) && outcome.product.price == Trim(form.price) &&
              outcome.product.offerPercentage == Trim(form.offerPercentage) &&
              outcome.product.description == Trim(form.description)
  {
    if !ReadsCleanly(read) then Crashed
    else
      UrlsAreStoredImages(read, sent);
      var product := BuildProduct(id, form, colors, Keep(sent, UrlOf));
      if committed then Saved(product) else NotSaved(product)
  }

  /** A failure skips only its own image: an image lost in either step
      removes its URL and leaves the URLs before and after it in place. */
  lemma LostImageSkipsOnlyItself(before: seq<ImageFate>, lost: ImageFate, after: seq<ImageFate>)
    requires !lost.Stored?
    ensures Keep(before + [lost] + after, FateUrl) == Keep(before, FateUrl) + Keep(after, FateUrl)
  {
    SkipOnlyThat(before, lost, after, FateUrl);
  }

  /** Collection is not all-or-nothing: when the only selected image does
      not compress, the record is still built, with no image URL, and saved. */
  lemma SavedWithoutImages(form: Form, colors: seq<Int32>, id: string)
    ensures ReadsCleanly([NotCompressed]) && Keep([NotCompressed], PayloadOf) == []
    ensures var outcome := SaveOutcomeOf(form, colors, [NotCompressed], [], id, true);
            outcome.Saved? && outcome.product.imageUrls == []
  {
    assert [NotCompressed][..0] == [];
  }
}

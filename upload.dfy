/**
 * `Chevereto.Upload`: one upload to one Chevereto endpoint. The multipart
 * HTTP exchange (`UploadData`), the URL scheme fix-up (`URLHelpers.FixPrefix`)
 * and JSON decoding (`JsonConvert.DeserializeObject`) belong to other
 * libraries; each is a function parameter here. What the model states is how
 * the request is built and how the decoded reply fills in the result.
 */
module CheveretoUploads {
  import opened Wrappers
  import opened Text
  import opened UploaderConfig

  // The reply body's shape; every reference may be null.
  datatype CheveretoThumb = CheveretoThumb(url: NullableString)
  datatype CheveretoImage = CheveretoImage(url: NullableString, urlViewer: NullableString, thumb: Option<CheveretoThumb>)
  datatype CheveretoResponse = CheveretoResponse(image: Option<CheveretoImage>)

  /**
   * What `JsonConvert.DeserializeObject<CheveretoResponse>` does with a body:
   * it returns an object or `null` (`Parsed`), or it throws (`Malformed`).
   */
  datatype Decoded = Parsed(response: Option<CheveretoResponse>) | Malformed

  /** The image a decoded body carries, if it decoded to an object with an `Image`. */
  function ImageOf(decoded: Decoded): Option<CheveretoImage> {
    if decoded.Parsed? && decoded.response.Some? then decoded.response.value.image else None
  }

  /** The fields of an `UploadResult` that the Chevereto code reads or writes. */
  datatype ResultFields = ResultFields(isSuccess: bool, response: NullableString, url: NullableString, thumbnailURL: NullableString)

  /** How a call to `Upload` ends: with a result, or with the decoder's exception. */
  datatype Completion = Returned(result: ResultFields) | Raised

  datatype FormField = FormField(name: string, value: NullableString)

  /** One call of `UploadData`: address, file name, the file's form field and the other form fields in insertion order. */
  datatype UploadRequest = UploadRequest(url: NullableString, fileName: string, fileFormName: string, arguments: seq<FormField>)

  /** The value of the first form field called `name`, if there is one. */
  function FieldValue(fields: seq<FormField>, name: string): Option<NullableString> {
    if fields == [] then None
    else if fields[0].name == name then Some(fields[0].value)
    else FieldValue(fields[1..], name)
  }

  predicate DistinctNames(fields: seq<FormField>) {
    forall i, j :: 0 <= i < j < |fields| ==> fields[i].name != fields[j].name
  }

  /** The form arguments: the API key under `key` and the reply format `json` under `format`. */
  function UploadArguments(uploader: CheveretoUploader): (args: seq<FormField>)
    ensures |args| == 2 && DistinctNames(args)
    ensures FieldValue(args, "key") == Some(uploader.apiKey)
    ensures FieldValue(args, "format") == Some(Some("json"))
    ensures forall f :: f in args ==> f.name == "key" || f.name == "format"
  {
    [FormField("key", uploader.apiKey), FormField("format", Some("json"))]
  }

  /** The request `Upload` hands to `UploadData`: the image goes in the form field `source`. */
  function Request(uploader: CheveretoUploader, fileName: string, fixPrefix: NullableString -> NullableString): UploadRequest {
    UploadRequest(fixPrefix(uploader.uploadURL), fileName, "source", UploadArguments(uploader))
  }

  /**
   * What `Upload` makes of the result `UploadData` returned: the body is
   * decoded only on success, and only a decoded `Image` changes anything.
   */
  function MapResponse(transport: ResultFields, directURL: bool, decode: NullableString -> Decoded): (outcome: Completion)
    // IsSuccess and the raw body are never changed.
    ensures outcome.Returned? ==> outcome.result.isSuccess == transport.isSuccess && outcome.result.response == transport.response
    // A failed transfer comes back untouched, whatever its body holds.
    ensures !transport.isSuccess ==> outcome == Returned(transport)
    // The only exception is the decoder's, on a successful transfer.
    ensures outcome.Raised? <==> transport.isSuccess && decode(transport.response).Malformed?
    // Lenient: a null reply or one without an Image leaves a success with nothing filled in.
    ensures transport.isSuccess && decode(transport.response).Parsed? && ImageOf(decode(transport.response)).None? ==>
              outcome == Returned(transport)
    // With an Image, URL is the direct or the viewer address as DirectURL says.
    ensures transport.isSuccess && ImageOf(decode(transport.response)).Some? ==>
              var image := ImageOf(decode(transport.response)).value;
              && outcome.Returned?
              && outcome.result.url == (if directURL then image.url else image.urlViewer)
              && outcome.result.thumbnailURL == (if image.thumb.Some? then image.thumb.value.url else transport.thumbnailURL)
    // Starting from an empty result, URL is filled in only by a successful transfer with an Image,
    // and ThumbnailURL only when that Image has a Thumb.
    ensures outcome.Returned? && transport.url.None? && outcome.result.url.Some? ==>
              transport.isSuccess && ImageOf(decode(transport.response)).Some?
    ensures outcome.Returned? && transport.thumbnailURL.None? && outcome.result.thumbnailURL.Some? ==>
              transport.isSuccess && ImageOf(decode(transport.response)).Some? && ImageOf(decode(transport.response)).value.thumb.Some?
  {
    if transport.isSuccess then
      match decode(transport.response)
      case Malformed => Raised
      case Parsed(response) =>
        if response.Some? && response.value.image.Some? then
          var image := response.value.image.value;
          var withURL := transport.(url := if directURL then image.url else image.urlViewer);
          if image.thumb.Some? then Returned(withURL.(thumbnailURL := image.thumb.value.url))
          else Returned(withURL)
        else Returned(transport)
    else Returned(transport)
  }

  /** ShareX's `UploadResult`, which `Upload` fills in place. */
  class UploadResult {
    var isSuccess: bool
    var response: NullableString
    var url: NullableString
    var thumbnailURL: NullableString

    /** The result as `UploadData` builds it. */
    constructor (fields: ResultFields)
      ensures Fields() == fields
    {
      isSuccess := fields.isSuccess;
      response := fields.response;
      url := fields.url;
      thumbnailURL := fields.thumbnailURL;
    }

    function Fields(): ResultFields
      reads this
    {
      ResultFields(isSuccess, response, url, thumbnailURL)
    }
  }

  /** The Chevereto image uploader for one endpoint. */
  class Chevereto {
    const uploader: CheveretoUploader
    var directURL: bool

    constructor (uploader: CheveretoUploader)
      ensures this.uploader == uploader && !directURL
    {
      this.uploader := uploader;
      directURL := false;
    }

    /**
     * `Upload(stream, fileName)`. `uploadData` stands for the transfer of the
     * request; the result object it yields is then updated in place. When
     * `raised` is true the call ended with the decoder's exception and
     * `result` is not returned to any caller.
     */
    method Upload(fileName: string, fixPrefix: NullableString -> NullableString,
                  uploadData: UploadRequest -> ResultFields, decode: NullableString -> Decoded)
      returns (raised: bool, result: UploadResult)
      ensures fresh(result)
      ensures var outcome := MapResponse(uploadData(Request(uploader, fileName, fixPrefix)), directURL, decode);
              && raised == outcome.Raised?
              && (outcome.Returned? ==> result.Fields() == outcome.result)
    {
      var args := UploadArguments(uploader);
      var url := fixPrefix(uploader.uploadURL);
      result := new UploadResult(uploadData(UploadRequest(url, fileName, "source", args)));
      raised := false;
      if result.isSuccess {
        match decode(result.response)
        case Malformed =>
          raised := true;
        case Parsed(response) =>
          if response.Some? && response.value.image.Some? {
            var image := response.value.image.value;
            result.url := if directURL then image.url else image.urlViewer;
            if image.thumb.Some? {
              result.thumbnailURL := image.thumb.value.url;
            }
          }
      }
    }
  }
}

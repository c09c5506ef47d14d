/**
 * The configuration the Chevereto uploader reads. `CheveretoUploader` and
 * `UploadersConfig` are declared elsewhere in ShareX; only the fields used by
 * Chevereto.cs are modelled. Strings may be `null`, as in C#.
 */
module UploaderConfig {
  import opened Wrappers
  import opened Text

  /** One Chevereto endpoint: its upload address and its API key. */
  datatype CheveretoUploader = CheveretoUploader(uploadURL: NullableString, apiKey: NullableString)

  /** The user's uploader settings, reduced to the Chevereto entries. */
  datatype UploadersConfig = UploadersConfig(cheveretoUploader: Option<CheveretoUploader>, cheveretoDirectURL: bool)

  /** An endpoint with both fields present and non-empty. */
  predicate UsableEndpoint(uploader: CheveretoUploader) {
    && uploader.uploadURL.Some? && |uploader.uploadURL.value| > 0
    && uploader.apiKey.Some? && |uploader.apiKey.value| > 0
  }

  /** `CheveretoImageUploaderService.CheckConfig`. */
  function CheckConfig(config: UploadersConfig): (ok: bool)
    ensures ok <==> config.cheveretoUploader.Some? && UsableEndpoint(config.cheveretoUploader.value)
  {
    config.cheveretoUploader.Some? && !IsNullOrEmpty(config.cheveretoUploader.value.uploadURL) &&
      !IsNullOrEmpty(config.cheveretoUploader.value.apiKey)
  }
}

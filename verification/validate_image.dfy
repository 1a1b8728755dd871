/** The size and type check applied to every uploaded image. */
module ValidateImage {
  import opened Wrappers

  /** 2 MiB: the largest accepted size in bytes. */
  const MaxImageBytes: nat := 2 * 1024 * 1024

  const SizeMessage: string := "Image size must be less than 2 MB"
  const TypeMessage: string := "Image must be type of png,jpg,jpeg,svg,gif"

  /** `bytesToMb`: the byte count divided by 1024 * 1024, as an exact rational. */
  function BytesToMb(bytes: nat): real
  {
    bytes as real / (1024.0 * 1024.0)
  }

  /** The megabyte comparison is the integer comparison against 2 MiB. */
  lemma BytesToMbAboveTwo(bytes: nat)
    ensures BytesToMb(bytes) > 2.0 <==> bytes > MaxImageBytes
  {
  }

  /**
   * `imageValidator(size, mime)`: the size message for more than 2 MiB, whatever
   * the type; otherwise the type message when the MIME type is not supported;
   * otherwise no message. An absent size (`undefined`) is not "greater than 2".
   */
  function ImageValidator(size: Option<nat>, mime: Option<string>, supported: set<string>): (r: Option<string>)
    ensures size.Some? && size.value > MaxImageBytes ==> r == Some(SizeMessage)
    ensures size.None? || size.value <= MaxImageBytes ==>
      (mime.None? || mime.value !in supported ==> r == Some(TypeMessage))
    ensures r == None <==> (size.None? || size.value <= MaxImageBytes) && mime.Some? && mime.value in supported
  {
    if size.Some? && (BytesToMbAboveTwo(size.value); BytesToMb(size.value) > 2.0) then Some(SizeMessage)
    else if mime.None? || mime.value !in supported then Some(TypeMessage)
    else None
  }
}

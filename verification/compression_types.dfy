/**
 * CompressionTypes: the two supported content encodings, "deflate" and
 * "gzip", the check that rejects any other name, and the file extension of
 * each.
 */
module CompressionTypes {

  import opened Wrappers

  const Deflate := "deflate"
  const GZip := "gzip"
  const Default := Deflate
  const AllCompressionTypes: seq<string> := [Deflate, GZip]

  /** CompressionTypes.IsValid(compressionType): an ordinal comparison, so null is not valid. */
  predicate IsValid(compressionType: Option<string>)
  {
    compressionType == Some(Deflate) || compressionType == Some(GZip)
  }

  /** CompressionTypes.AssertIsValid(compressionType): returns, or throws a NotSupportedException. */
  function AssertIsValid(compressionType: Option<string>): (r: Result<()>)
    ensures r.Ok? <==> IsValid(compressionType)
    ensures r.Error? ==> r.failure == NotSupported
  {
    if !IsValid(compressionType) then Error(NotSupported) else Ok(())
  }

  /** CompressionTypes.GetExtension(compressionType): the `switch` on the two names. */
  function GetExtension(compressionType: Option<string>): (r: Result<string>)
    ensures r.Ok? <==> IsValid(compressionType)
    ensures r.Ok? ==> r.value == "." + compressionType.value
    ensures r.Error? ==> r.failure == NotSupported
  {
    match compressionType
    case Some(t) =>
      if t == Deflate || t == GZip then Ok("." + t) else Error(NotSupported)
    case None => Error(NotSupported)
  }

  /** The valid names are exactly the listed ones, and the default is one of them. */
  lemma IsValidListed(compressionType: Option<string>)
    ensures IsValid(compressionType)
      <==> compressionType.Some? && compressionType.value in AllCompressionTypes
    ensures IsValid(Some(Default))
  {
  }

  /** AssertIsValid returns exactly for the valid names, and otherwise throws a NotSupportedException. */
  lemma AssertIsValidMeaning(compressionType: Option<string>)
    ensures AssertIsValid(compressionType).Ok? <==> IsValid(compressionType)
    ensures AssertIsValid(compressionType).Error? ==> AssertIsValid(compressionType).failure == NotSupported
  {
  }

  /**
   * GetExtension succeeds exactly on the names AssertIsValid lets through,
   * giving `.` and the name; every other name, null included, throws a
   * NotSupportedException.
   */
  lemma GetExtensionAgrees(compressionType: Option<string>)
    ensures GetExtension(compressionType).Ok? <==> AssertIsValid(compressionType).Ok?
    ensures GetExtension(compressionType).Ok? ==> GetExtension(compressionType).value == "." + compressionType.value
    ensures GetExtension(compressionType).Error? ==> GetExtension(compressionType).failure == NotSupported
  {
  }

  /** Different valid names have different extensions. */
  lemma GetExtensionInjective(a: Option<string>, b: Option<string>)
    requires GetExtension(a).Ok? && GetExtension(a) == GetExtension(b)
    ensures a == b
  {
    var ea := GetExtension(a).value;
    assert ea[1..] == a.value;
    assert ea[1..] == b.value;
  }
}

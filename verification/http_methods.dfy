/**
 * HttpMethods: the set of HTTP verbs the library recognises, and the test
 * HasVerb that upper-cases its argument before looking it up.
 */
module HttpMethods {

  import opened Wrappers
  import opened Text

  /** The array allVerbs, grouped as its comments group it; AllVerbs is the set of all of them. */
  const HttpVerbs: set<string> := {"OPTIONS", "GET", "HEAD", "POST", "PUT", "DELETE", "TRACE", "CONNECT"}
  const WebDavVerbs: set<string> := {"PROPFIND", "PROPPATCH", "MKCOL", "COPY", "MOVE", "LOCK", "UNLOCK"}
  const VersioningVerbs: set<string> := {
    "VERSION-CONTROL", "REPORT", "CHECKOUT", "CHECKIN", "UNCHECKOUT",
    "MKWORKSPACE", "UPDATE", "LABEL", "MERGE", "BASELINE-CONTROL", "MKACTIVITY"
  }
  const ExtensionVerbs: set<string> := {"ORDERPATCH", "ACL", "PATCH", "SEARCH"}
  const ExchangeVerbs: set<string> := {
    "BCOPY", "BDELETE", "BMOVE", "BPROPFIND", "BPROPPATCH", "NOTIFY", "POLL", "SUBSCRIBE", "UNSUBSCRIBE"
  }
  const AllVerbs: set<string> := HttpVerbs + WebDavVerbs + VersioningVerbs + ExtensionVerbs + ExchangeVerbs

  const Get := "GET"
  const Put := "PUT"
  const Post := "POST"
  const Delete := "DELETE"
  const Options := "OPTIONS"
  const Head := "HEAD"
  const Patch := "PATCH"

  /** HttpMethods.HasVerb(httpVerb): a null verb throws when it is upper-cased. */
  function HasVerb(httpVerb: Option<string>): (r: Result<bool>)
    ensures r.Error? <==> httpVerb.None?
    ensures r.Error? ==> r.failure == NullReference
  {
    if httpVerb.None? then Error(NullReference) else Ok(UpperStr(httpVerb.value) in AllVerbs)
  }

  /** A text without lower-case letters is its own upper-case form. */
  predicate NoLowerCase(s: string)
  {
    forall i :: 0 <= i < |s| ==> !IsAsciiLower(s[i])
  }

  lemma UpperStrKeeps(s: string)
    requires NoLowerCase(s)
    ensures UpperStr(s) == s
  {
  }

  /** Upper-casing leaves no lower-case letter, so doing it twice is doing it once. */
  lemma UpperStrIdempotent(s: string)
    ensures NoLowerCase(UpperStr(s))
    ensures UpperStr(UpperStr(s)) == UpperStr(s)
  {
    UpperStrKeeps(UpperStr(s));
  }

  /** Lower-casing first does not change the upper-case form. */
  lemma UpperOfLower(s: string)
    ensures UpperStr(LowerStr(s)) == UpperStr(s)
  {
  }

  /** A null verb throws a NullReferenceException. */
  lemma HasVerbNull()
    ensures HasVerb(None) == Error(NullReference)
  {
  }

  /**
   * The test ignores case: a verb, its upper-case and its lower-case form
   * are all accepted or all refused.
   */
  lemma HasVerbIgnoresCase(httpVerb: string)
    ensures HasVerb(Some(UpperStr(httpVerb))) == HasVerb(Some(httpVerb))
    ensures HasVerb(Some(LowerStr(httpVerb))) == HasVerb(Some(httpVerb))
  {
    UpperStrIdempotent(httpVerb);
    UpperOfLower(httpVerb);
  }

  /** Every listed verb is written in upper case, so each is accepted as written. */
  lemma AllVerbsUpper(verb: string)
    requires verb in AllVerbs
    ensures NoLowerCase(verb)
    ensures HasVerb(Some(verb)) == Ok(true)
  {
    if verb in HttpVerbs {
      HttpVerbsUpper(verb);
    } else if verb in WebDavVerbs {
      WebDavVerbsUpper(verb);
    } else if verb in VersioningVerbs {
      VersioningVerbsUpper(verb);
    } else if verb in ExtensionVerbs {
      ExtensionVerbsUpper(verb);
    } else {
      ExchangeVerbsUpper(verb);
    }
    UpperStrKeeps(verb);
  }

  lemma HttpVerbsUpper(verb: string)
    requires verb in HttpVerbs
    ensures NoLowerCase(verb)
  {
  }

  lemma WebDavVerbsUpper(verb: string)
    requires verb in WebDavVerbs
    ensures NoLowerCase(verb)
  {
  }

  lemma VersioningVerbsUpper(verb: string)
    requires verb in VersioningVerbs
    ensures NoLowerCase(verb)
  {
  }

  lemma ExtensionVerbsUpper(verb: string)
    requires verb in ExtensionVerbs
    ensures NoLowerCase(verb)
  {
  }

  lemma ExchangeVerbsUpper(verb: string)
    requires verb in ExchangeVerbs
    ensures NoLowerCase(verb)
  {
  }

  /** The named verbs Get through Patch are all accepted, in any case. */
  lemma ConstantsAccepted(verb: string)
    requires verb in {Get, Put, Post, Delete, Options, Head, Patch}
    ensures HasVerb(Some(verb)) == Ok(true)
    ensures HasVerb(Some(LowerStr(verb))) == Ok(true)
  {
    AllVerbsUpper(verb);
    HasVerbIgnoresCase(verb);
  }
}

/** The existence check of an object and the list lookup helper. */
module Utils {

  import opened Wrappers
  import opened GoStrings
  import opened Client

  /** `contains`: a scan of the list that stops at the first element equal
      to `value`. */
  method Contains(list: seq<string>, value: string) returns (found: bool)
    ensures found <==> exists i :: 0 <= i < |list| && list[i] == value
    ensures list == [] ==> !found
  {
    for i := 0 to |list|
      invariant forall j :: 0 <= j < i ==> list[j] != value
    {
      if list[i] == value {
        return true;
      }
    }
    return false;
  }

  /** What `HeadObject` gave: the object exists, or the request failed. */
  datatype HeadOutcome = Exists | HeadFailed(err: Error)

  /** The format "https://%s.s3.amazonaws.com/%s", spelled as its pieces. */
  const ObjectUrlFormat := "https://" + "%s" + ".s3.amazonaws.com/" + "%s"

  /** The public URL of an object, as the format renders it. */
  lemma ObjectUrl(bucket: string, key: string)
    ensures Conforms(ObjectUrlFormat, [Str(bucket), Str(key)])
    ensures Sprintf(ObjectUrlFormat, [Str(bucket), Str(key)]) == "https://" + bucket + ".s3.amazonaws.com/" + key
  {
    SprintfTwo("https://", bucket, ".s3.amazonaws.com/", key);
  }

  /** `CheckFile`: a failed session is returned before any request is made;
      an AWS error with code "NotFound" becomes `ErrNotFound`; any other
      error is returned unchanged; otherwise the object's URL. The URL is ""
      whenever an error is returned. */
  function CheckFile(bucket: string, key: string, session: SessionOutcome, head: HeadOutcome): (r: Reply)
    ensures session.Failed? ==> r == Reply("", Some(session.err))
    ensures r.err == None <==> session.Established? && head.Exists?
    ensures r.err == None ==> r.url == "https://" + bucket + ".s3.amazonaws.com/" + key
    ensures r.err != None ==> r.url == ""
    ensures session.Established? && head.HeadFailed? && head.err.Aws? && head.err.code == "NotFound" ==>
              r.err == Some(NotFound)
    ensures session.Established? && head.HeadFailed? && !(head.err.Aws? && head.err.code == "NotFound") ==>
              r.err == Some(head.err)
  {
    match session
    case Failed(err) => Reply("", Some(err))
    case Established =>
      match head
      case HeadFailed(err) =>
        if err.Aws? && err.code == "NotFound" then Reply("", Some(NotFound)) else Reply("", Some(err))
      case Exists =>
        ObjectUrl(bucket, key);
        Reply(Sprintf(ObjectUrlFormat, [Str(bucket), Str(key)]), None)
  }

  /** A failed session decides the reply whatever HEAD would have answered:
      no request is issued. */
  lemma SessionFailureSkipsHead(bucket: string, key: string, err: Error, h1: HeadOutcome, h2: HeadOutcome)
    ensures CheckFile(bucket, key, Failed(err), h1) == CheckFile(bucket, key, Failed(err), h2)
  {
  }

  /** The caller can tell a missing object from every other failure: the
      sentinel comes back exactly for the "NotFound" code, unless the failure
      itself already was the sentinel. */
  lemma NotFoundExactly(bucket: string, key: string, head: HeadOutcome)
    requires head.HeadFailed? ==> head.err != NotFound
    ensures CheckFile(bucket, key, Established, head).err == Some(NotFound) <==>
              head.HeadFailed? && head.err.Aws? && head.err.code == "NotFound"
  {
  }
}

/**
 * Failure-carrying values. Every exception the tool raises while resolving one
 * package is a `Failure`; an operation that can raise returns a `Result`.
 */
module Failures {

  datatype Option<+T> = None | Some(value: T)

  /** The exceptions raised by the resolution steps, one constructor per raise site kind. */
  datatype Failure =
    | RegistryUnavailable    // non-200 status or a body that is not JSON
    | NoVersionsFound        // the version listing is empty
    | NoStableVersion        // "No stable versions found."
    | NoRegistrationPages    // the registration index has no pages
    | NoPageItems            // the last registration page has no items
    | MissingCatalogEntry    // KeyError on ['catalogEntry']['version']
    | NoDownloadUrl          // catalogEntry.packageContent absent or empty
    | PackageNotFound        // the archive download did not return 200
    | ManifestMissing        // no entry of the archive ends in ".nuspec"
    | MalformedManifest      // the .nuspec entry is not well-formed XML
    | ManifestInvalid        // the manifest has no metadata element
    | MissingId              // KeyError on dep.attrib['id']

  datatype Result<+T> = Ok(value: T) | Err(error: Failure) {
    predicate IsFailure() { Err? }

    function PropagateFailure<U>(): Result<U>
      requires Err?
    {
      Err(error)
    }

    function Extract(): T
      requires Ok?
    {
      value
    }

    /** What a caller that catches every exception keeps: the value, or nothing. */
    function ToOption(): Option<T> {
      match this
      case Ok(v) => Some(v)
      case Err(_) => None
    }
  }

  /** Turns a lookup that may fail into a result with the given failure. */
  function Need<T>(o: Option<T>, f: Failure): Result<T> {
    match o
    case Some(v) => Ok(v)
    case None => Err(f)
  }
}

/** Option and Result, and the ways an extraction run can fail. */
module Results {

  datatype Option<+T> = None | Some(value: T)

  /** Why a run aborts. Nothing in the scraper catches an exception: the first one ends the mode. */
  datatype Error =
    /** A `find` returned no element and the code went on to use it (an AttributeError or TypeError). */
    | ElementMissing(tag: string)
    /** A tag was indexed by an attribute it does not carry (a KeyError). */
    | AttributeMissing(name: string)
    /** `latest_versions` found no sidebar list mentioning "All versions" (its explicit raise). */
    | NothingFound
    /** A mode name that is not a key of the mode table (a KeyError). */
    | UnknownMode(mode: string)

  datatype Result<+T> = Ok(value: T) | Err(error: Error)
}

/** Failure-carrying results used throughout the model. */
module Wrappers {

  datatype Option<+T> = None | Some(value: T)

  datatype Result<+T, +E> = Ok(value: T) | Err(error: E)
}

/** The ways one run of the tool can fail. Each corresponds to a JavaScript
    exception that the source does not catch and that ends the run. */
module Failures {

  datatype Error =
    | MissingRepositoryUrl(package: string)           // `pkgInfo.collected.metadata.repository` is absent
    | MalformedRepositoryUrl(package: string, url: string)  // fewer than five '/'-segments: `url[4]` is undefined
    | MissingStatusData                                // the status response has no `data` object
    | NullRepository(alias: string)                    // a status entry is null: `repo.viewerHasStarred` throws
    | UnknownAlias(alias: string)                      // `aliases[alias]` is undefined in the report
}

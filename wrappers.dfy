/** The optional value used for a failed `ZipArchive::open`, a failed
    `getStream` and a key missing from the result array. */
module Wrappers {

  datatype Option<+T> = None | Some(value: T)
}

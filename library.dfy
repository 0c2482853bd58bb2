/**
 * The library record of the report stage: one library's display and licence
 * metadata. It carries no behaviour; equality is that of all fields.
 */
module Mapping {

  /** A Kotlin nullable value: absent, or present with a value. */
  datatype Option<T> = None | Some(value: T)

  datatype Library = Library(
    uniqueId: string,
    libraryArtifactId: string,
    author: Option<string>,
    authorWebsite: Option<string>,
    libraryName: Option<string>,
    libraryDescription: Option<string>,
    libraryVersion: Option<string>,
    libraryWebsite: Option<string>,
    licenseId: Option<string>,
    isOpenSource: bool,
    repositoryLink: Option<string>,
    /** the library's owner */
    owner: Option<string>,
    /** the licence year */
    year: Option<string>)
}

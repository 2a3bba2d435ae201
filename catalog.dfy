/** The records of the static catalogs the listing page works on. */
module Catalog {

  /** An entry of the tag catalog; projects refer to it by `value` (`labelText` is the source's `label`, a reserved word here). */
  datatype Tag = Tag(value: string, labelText: string)

  /** An entry of the project catalog. Display metadata other than the name plays no part in the listing. */
  datatype Project = Project(name: string, tags: seq<string>, isLive: bool, isTestnetLive: bool)

  /** The status filter: every project, mainnet-live projects, or projects live on testnet only. */
  datatype Status = All | Live | Testnet

  /** A project as handed to a card: the project's own fields plus the tag records it refers to. */
  datatype DisplayProject = DisplayProject(
    name: string,
    tags: seq<string>,
    isLive: bool,
    isTestnetLive: bool,
    tagsRef: seq<Tag>)
  {
    /** The catalog project this item was built from. */
    function Source(): Project {
      Project(name, tags, isLive, isTestnetLive)
    }
  }
}

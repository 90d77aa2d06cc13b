/**
 * Shared vocabulary of the Arend editor passes: optional values, definition
 * identities and the part of an `ArendFile` that the highlighting pass and the
 * silent typechecker pass read and write.
 */
module ArendCore {

  datatype Option<T> = None | Some(value: T)

  /** Stable identity of a definition (a `TCDefReferable` / `ArendDefinition`). */
  type DefId = nat

  /**
   * The per-file state shared between passes: the modification stamp
   * (`lastModification`, an atomic long), the definition the user edited
   * last (`lastModifiedDefinition`, nullable) and whether the file's concrete
   * provider has been reset to the empty provider.
   */
  class ArendFile {
    var lastModification: int
    var lastModifiedDefinition: Option<DefId>
    var concreteProviderIsEmpty: bool

    constructor (lastModification: int, lastModifiedDefinition: Option<DefId>)
      ensures this.lastModification == lastModification
      ensures this.lastModifiedDefinition == lastModifiedDefinition
      ensures !concreteProviderIsEmpty
    {
      this.lastModification := lastModification;
      this.lastModifiedDefinition := lastModifiedDefinition;
      concreteProviderIsEmpty := false;
    }
  }
}

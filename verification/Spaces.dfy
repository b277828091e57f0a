/** Index spaces, section kinds and references: the vocabulary of the component IR. */
module Spaces {

  /** The namespaces an index can live in; `NA` marks nodes that occupy no index. */
  datatype Space =
    | Comp | CompFunc | CompVal | CompType | CompInst
    | CoreInst | CoreModule | CoreType | CoreFunc | CoreMemory | CoreTable | CoreGlobal | CoreTag
    | NA

  /** The kinds of section a component is made of. */
  datatype Section =
    | ModuleSection | AliasSection | CoreTypeSection | ComponentTypeSection
    | ImportSection | ExportSection | CoreInstanceSection | ComponentInstanceSection
    | CanonSection | CustomSection | ComponentSection | StartSection

  /** Which of the four per-origin maps of an index space records an item. */
  datatype Origin = Main | Import | Export | Alias

  function OriginOf(section: Section): Origin {
    match section
    case ImportSection => Import
    case ExportSection => Export
    case AliasSection => Alias
    case _ => Main
  }

  type ScopeId = nat

  /** A reference: which scope (0 is the current one), which space, which index. */
  datatype IndexedRef = IndexedRef(depth: nat, space: Space, index: nat)
}

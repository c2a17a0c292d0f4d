/** The project's module objects: a name, the source file, the directory
    that holds it, and the map of direct imports the resolver fills in. */
module Modules {

  /** One entry of a direct-import list: the empty list the resolver appends
      to record that a whole module is imported, or a name imported from the
      module. */
  datatype Member = WholeModule | Named(name: string)

  /** `direct_imports`: fully qualified module name to the entries imported
      from it. */
  type DirectImports = map<string, seq<Member>>

  class Module {
    const name: string
    const file: string
    const path: string
    var directImports: DirectImports

    /** A module starts with no direct imports. */
    constructor (name: string, file: string, path: string)
      ensures this.name == name && this.file == file && this.path == path
      ensures directImports == map[]
    {
      this.name := name;
      this.file := file;
      this.path := path;
      directImports := map[];
    }
  }
}

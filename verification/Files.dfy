/** The loader's records of a mapped file and of a context. */
module Files {
  import opened Seqs
  import opened Graph
  import SymbolIndex

  datatype Color = Black | Grey | White

  datatype LookupType = GlobalOnly | GlobalLocal | LocalGlobal | LocalOnly

  class Context {
    var globalScope: seq<VdlFile>

    constructor ()
      ensures globalScope == []
    {
      globalScope := [];
    }
  }

  class VdlFile {
    const context: Context
    const isExecutable: bool
    const symbols: SymbolIndex.SymbolFile
    var count: nat
    var deps: seq<VdlFile>
    var depth: nat
    var resolvedIn: seq<VdlFile>  // gc_symbols_resolved_in
    var localScope: seq<VdlFile>
    var lookupType: LookupType
    var gcColor: Color
    var finiCallLock: bool

    constructor (context: Context, isExecutable: bool, symbols: SymbolIndex.SymbolFile, deps: seq<VdlFile>)
      ensures this.context == context && this.isExecutable == isExecutable && this.symbols == symbols
      ensures this.deps == deps
      ensures count == 0 && resolvedIn == [] && localScope == [] && !finiCallLock
    {
      this.context, this.isExecutable, this.symbols := context, isExecutable, symbols;
      this.deps := deps;
      count, depth, resolvedIn, localScope := 0, 0, [], [];
      lookupType, gcColor, finiCallLock := GlobalLocal, White, false;
    }
  }

  /** What the collector follows: recorded bindings, then dependencies. */
  ghost function RefGraph(files: set<VdlFile>): Edges<VdlFile>
    reads files`resolvedIn, files`deps
  {
    map f | f in files :: f.resolvedIn + f.deps
  }

  ghost function HeldOpen(files: set<VdlFile>): set<VdlFile>
    reads files`count
  {
    set f | f in files && f.count > 0
  }

  /** The files of the list the collector must keep. */
  ghost function Reached(list: seq<VdlFile>): set<VdlFile>
    reads Elements(list)`resolvedIn, Elements(list)`deps, Elements(list)`count
  {
    ReachedSet<VdlFile>(RefGraph(Elements(list)), HeldOpen(Elements(list)), list)
  }
}

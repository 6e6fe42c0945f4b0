/**
 * The delegate file systems (local disk, archives, ...) the cache mirrors, as one value: the
 * state the core observes when it queries them. They change only outside the core, so each
 * operation of the cache takes their current state as a parameter.
 */
module DelegateFs {

  /** A delegate file system's identity: its protocol, its rank among roots and its case sensitivity. */
  datatype FileSystem = FileSystem(protocol: string, rank: int, caseSensitive: bool)

  /**
   * How a file is addressed on the delegate: a root by its file system and base path, any other
   * file by the cache id of its parent and its own name (a FakeVirtualFile carries exactly these).
   */
  datatype Path = RootPath(fs: FileSystem, basePath: string) | ChildPath(parent: int, name: string)

  /** What the delegate reports about one file. */
  datatype Attrs = Attrs(isDirectory: bool, writable: bool, length: int, timestamp: int, crc: int, content: seq<bv8>)

  /** The answers a delegate gives for a file it does not have. */
  const Missing := Attrs(false, false, 0, 0, 0, [])

  datatype Delegate = Delegate(files: map<Path, Attrs>, listings: map<Path, seq<string>>) {

    predicate Exists(p: Path) {
      p in files
    }

    function Attr(p: Path): Attrs {
      if p in files then files[p] else Missing
    }

    /** The delegate's listing of a directory, in the delegate's order. */
    function List(p: Path): seq<string> {
      if p in listings then listings[p] else []
    }
  }

  /** The registry key `protocol + "://" + basePath` of a root. */
  function RootUrl(protocol: string, basePath: string): string {
    protocol + "://" + basePath
  }
}

/** The part of the filesystem the installer queries: which path strings
    exist and what kind of object each names (after following links). */
module FileSystem {

  datatype Kind = Directory | RegularFile | Other

  /** A snapshot of the filesystem: every existing path and its kind. */
  type Fs = map<string, Kind>

  /** `os.path.exists` */
  predicate Exists(fs: Fs, path: string) {
    path in fs
  }

  /** `os.path.isdir` */
  predicate IsDir(fs: Fs, path: string) {
    path in fs && fs[path] == Directory
  }

  /** `os.path.isfile` */
  predicate IsFile(fs: Fs, path: string) {
    path in fs && fs[path] == RegularFile
  }
}

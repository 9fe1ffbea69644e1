/**
  Paths inside a mounted pool. A path is the sequence of its name
  components, so the pool root `/` is the empty sequence and parent,
  file name and join are sequence operations.
 */
module Paths {

  type Name = string

  type Path = seq<Name>

  /** The root of the mount, `/`. */
  const Root: Path := []

  /** `Path::parent` followed by `unwrap_or("/")`: the root is its own parent. */
  function Parent(p: Path): (r: Path)
    ensures p == Root ==> r == Root
    ensures p != Root ==> |r| == |p| - 1 && r + [FileName(p)] == p
  {
    if p == Root then Root else p[..|p| - 1]
  }

  /** `Path::file_name` followed by `unwrap_or_default`: the root has the empty name. */
  function FileName(p: Path): (n: Name)
    ensures p != Root ==> n == p[|p| - 1]
  {
    if p == Root then "" else p[|p| - 1]
  }

  /** `PathBuf::join` with one name component. */
  function Join(p: Path, name: Name): (r: Path)
    ensures r != Root && |r| == |p| + 1
    ensures Parent(r) == p && FileName(r) == name
  {
    p + [name]
  }
}

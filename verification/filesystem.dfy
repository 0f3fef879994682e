/**
  An abstract file system: each existing file is a path mapped to its lines.
  Only the three operations the tagger performs on `java.io.File` are modelled:
  reading, `delete` and `renameTo`.
 */
module FileSystem {

  type Path = string

  type Fs = map<Path, seq<string>>

  /** `File.delete`: the file is gone afterwards, and no other file is touched. */
  function Delete(fs: Fs, p: Path): (r: Fs)
    ensures p !in r
    ensures forall q :: q != p ==> (q in r <==> q in fs)
    ensures forall q :: q != p && q in r ==> r[q] == fs[q]
  {
    fs - {p}
  }

  /**
    `File.renameTo`: a missing source leaves everything as it is; otherwise the
    content moves to the target (replacing it, as POSIX rename does) and the
    source disappears.
   */
  function Rename(fs: Fs, from: Path, to: Path): (r: Fs)
    requires from != to
    ensures from !in fs ==> r == fs
    ensures from in fs ==> from !in r && to in r && r[to] == fs[from]
    ensures forall q :: q != from && q != to ==> (q in r <==> q in fs)
    ensures forall q :: q != from && q != to && q in r ==> r[q] == fs[q]
  {
    if from in fs then (fs - {from})[to := fs[from]] else fs
  }

  /** Two file systems agree on one path: both lack it, or both hold the same lines. */
  predicate SameFile(a: Fs, b: Fs, p: Path) {
    (p in a <==> p in b) && (p in a ==> a[p] == b[p])
  }
}

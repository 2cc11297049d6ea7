/** The value types every component shares: machine integers as ranges of `int`,
    byte strings, and the per-file metadata a manifest records. */
module Types {
  const MOD16 := 0x1_0000
  const MOD32 := 0x1_0000_0000
  const MOD64 := 0x1_0000_0000_0000_0000

  type byte = x: int | 0 <= x < 0x100
  type u16 = x: int | 0 <= x < 0x1_0000
  type u32 = x: int | 0 <= x < 0x1_0000_0000
  type u64 = x: int | 0 <= x < 0x1_0000_0000_0000_0000
  type i64 = x: int | -0x8000_0000_0000_0000 <= x < 0x8000_0000_0000_0000

  type Bytes = seq<byte>

  /** POSIX relative path, as bytes. */
  type Path = seq<byte>

  /** SHA-256 of a file, and its first 16 bytes. */
  type Hash = h: seq<byte> | |h| == 32 witness seq(32, _ => 0)
  type Strong = h: seq<byte> | |h| == 16 witness seq(16, _ => 0)

  datatype Option<+T> = None | Some(value: T)

  datatype FileMeta = FileMeta(size: u64, mtime: i64, mode: u32, hash: Hash) {
    /** Same content: a touched file, or one whose mode moved, is still the same. */
    predicate SameContent(o: FileMeta) {
      size == o.size && hash == o.hash
    }
  }

  /** A directory tree as a manifest describes it. */
  type Tree = map<Path, FileMeta>

  function Find(t: Tree, p: Path): Option<FileMeta> {
    if p in t then Some(t[p]) else None
  }

  /** The part of a tree a receiver is willing to know about. */
  function Safe(t: Tree, safe: Path -> bool): Tree {
    map p | p in t && safe(p) :: t[p]
  }
}

/** Characters and sizes that many parts of the program share. */
module Common {

  const NUL := '\0'
  const CR := '\r'
  const LF := '\n'

  predicate IsEnd(c: char) { c == '\r' || c == '\n' }

  type Byte = x: int | 0 <= x < 0x100

  predicate Distinct<T(==)>(s: seq<T>) {
    forall i, j :: 0 <= i < j < |s| ==> s[i] != s[j]
  }

  /** The size of a buffer for a path, and of a table of entries. */
  const MAX_PATH := 1025
  const MAX_ENTRY := 2048
}

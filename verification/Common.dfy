/** Types shared by every unit of the model. */
module Common {

  /** An unsigned 8-bit value. */
  type Byte = b: int | 0 <= b < 256

  type Bytes = seq<Byte>

  datatype Option<+T> = None | Some(value: T)

  const INT64_MAX: int := 0x7FFF_FFFF_FFFF_FFFF
  const INT64_MIN: int := -0x8000_0000_0000_0000
  const UINT64_LIMIT: int := 0x1_0000_0000_0000_0000
  const UINT32_LIMIT: int := 0x1_0000_0000

  predicate IsInt64(x: int) {
    INT64_MIN <= x <= INT64_MAX
  }

  ghost predicate NoDup(xs: seq<nat>) {
    forall i, j :: 0 <= i < j < |xs| ==> xs[i] != xs[j]
  }

  /** A cache entry: the fields a record of src/pogocache.c carries. */
  datatype Entry = Entry(key: Bytes, val: Bytes, expires: int, flags: nat, cas: nat, time: int)
}

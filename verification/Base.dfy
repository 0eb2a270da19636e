/** Vocabulary shared by every module: bytes, the constants of the C headers,
    SQLite result codes and the environment that decides memory requests. */
module Base {

  type byte = bv8

  const INT_MAX := 0x7FFF_FFFF
  const INT_MIN := -0x8000_0000
  const INT64_MAX := 0x7FFF_FFFF_FFFF_FFFF
  const INT64_MIN := -0x8000_0000_0000_0000

  /** `int` and `sqlite3_int64`: the verifier rejects arithmetic that leaves them. */
  newtype int32 = x: int | INT_MIN <= x <= INT_MAX
  newtype int64 = x: int | INT64_MIN <= x <= INT64_MAX

  const FS_SECTOR_SIZE := 4096
  const INITIAL_BUF_DATA_SIZE := 2 * FS_SECTOR_SIZE
  const MAX_PATHNAME := 512
  const SIZEOF_INT := 4
  /** `sizeof(struct fs_file)` on a 64-bit machine. */
  const SIZEOF_FS_FILE := 48

  const SQLITE_OK := 0
  const SQLITE_IOERR := 10
  const SQLITE_NOTFOUND := 12
  const SQLITE_IOERR_READ := 266
  const SQLITE_IOERR_SHORT_READ := 522
  const SQLITE_IOERR_WRITE := 778
  const SQLITE_IOERR_TRUNCATE := 1546
  const SQLITE_IOERR_DELETE := 2570

  const SQLITE_OPEN_DELETEONCLOSE: bv32 := 0x08
  const SQLITE_OPEN_EXCLUSIVE: bv32 := 0x10
  const SQLITE_OPEN_CREATE: bv32 := 0x04

  const SQLITE_FCNTL_SIZE_HINT := 5

  function Max(a: int, b: int): int {
    if a > b then a else b
  }

  /** Conversion to a 32-bit `int`: wraps modulo 2^32. */
  function ToInt32(x: int): (r: int)
    ensures INT_MIN <= r <= INT_MAX
    ensures INT_MIN <= x <= INT_MAX ==> r == x
    ensures (x - r) % 0x1_0000_0000 == 0
  {
    var m := x % 0x1_0000_0000;
    if m <= INT_MAX then m else m - 0x1_0000_0000
  }

  /** What the surroundings decide: whether the n-th memory request is granted,
      and what bytes a granted region holds before anything is written to it.
      Every theorem holds for every environment, so for every pattern of
      allocation failures and every initial content of fresh memory. */
  datatype Env = Env(grants: nat -> bool, junk: (nat, nat) -> byte)
  {
    function Fresh(request: nat, size: nat): (r: seq<byte>)
      ensures |r| == size && forall i :: 0 <= i < size ==> r[i] == junk(request, i)
    {
      seq(size, (i: nat) => junk(request, i))
    }
  }
}

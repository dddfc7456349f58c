/** Error numbers (inc/error.h); operations return them negated. */
module Errors {
  const E_BAD_ENV: int := 2
  const E_INVAL: int := 3
  const E_NO_MEM: int := 4
  const E_NO_FREE_ENV: int := 5
  const E_IPC_NOT_RECV: int := 7
  const E_NO_DISK: int := 9
  const E_NOT_FOUND: int := 11
  const E_BAD_PATH: int := 12
  const E_FILE_EXISTS: int := 13

  /** The messages of lib/printfmt.c, by error number. */
  const ERROR_STRINGS: seq<string> := [
    "", "unspecified error", "bad environment", "invalid parameter", "out of memory", "out of environments",
    "segmentation fault", "env is not recving", "unexpected end of file", "no free space on disk",
    "too many files are open", "file or block not found", "invalid path", "file already exists",
    "file is not a valid executable", "operation not supported"
  ]

  /** The numbers are in step with that list, as inc/error.h asks. */
  lemma NumbersMatchMessages()
    ensures |ERROR_STRINGS| == 16
    ensures ERROR_STRINGS[E_BAD_ENV] == "bad environment" && ERROR_STRINGS[E_INVAL] == "invalid parameter"
    ensures ERROR_STRINGS[E_NO_MEM] == "out of memory" && ERROR_STRINGS[E_NO_FREE_ENV] == "out of environments"
    ensures ERROR_STRINGS[E_IPC_NOT_RECV] == "env is not recving"
    ensures ERROR_STRINGS[E_NO_DISK] == "no free space on disk"
    ensures ERROR_STRINGS[E_NOT_FOUND] == "file or block not found" && ERROR_STRINGS[E_BAD_PATH] == "invalid path"
    ensures ERROR_STRINGS[E_FILE_EXISTS] == "file already exists"
  {
  }
}

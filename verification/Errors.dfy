/**
  The error codes of inc/error.h.
 */
module Errors {
  const E_UNSPECIFIED := 1
  const E_BAD_ENV := 2
  const E_INVAL := 3
  const E_NO_MEM := 4
  const E_NO_FREE_ENV := 5
  const E_FAULT := 6
  const MAXERROR := 7
}

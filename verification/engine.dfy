/**
  The return codes of the TLS engine (GnuTLS) that the record layer
  distinguishes. Only their values matter here; the engine is otherwise
  an input to the model.
 */
module Engine {

  const E_AGAIN: int := -28
  const E_INTERRUPTED: int := -52
  const E_CERTIFICATE_ERROR: int := -43
  const E_INTERNAL_ERROR: int := -59

  /** A result after which the caller should simply call again. */
  predicate Retryable(ret: int) {
    ret < 0 && (ret == E_INTERRUPTED || ret == E_AGAIN)
  }

  /** A negative result that ends the connection. */
  predicate Fatal(ret: int) {
    ret < 0 && ret != E_AGAIN && ret != E_INTERRUPTED
  }
}

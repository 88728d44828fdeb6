/**
  The accept/reject decision taken after the engine has validated the
  client's certificate chain (`verify_certificate_cb`), and the later
  question whether a session was authenticated by certificate
  (`tls_has_session_cert`).

  The engine calls the decision depends on are inputs: the return code of
  `gnutls_certificate_verify_peers2`, the status bitmask it produced (0 for
  a valid chain), the return code of printing that status, and whether the
  engine holds peer certificates for the session.
 */
module VerifyPolicy {
  import opened Engine
  import opened Wrappers

  /** The per-connection state the decision reads and writes. */
  datatype Worker = Worker(certAuthOk: bool, ciscoClientCompat: bool)

  datatype PeerCheck = PeerCheck(verifyRet: int, status: nat, printRet: int)

  /** The callback's return code and the connection state afterwards
      (None when the session carries no connection state). */
  datatype Verdict = Verdict(ret: int, worker: Option<Worker>)

  /** The engine's validation found the chain valid. */
  predicate ChainValid(check: PeerCheck) {
    check.verifyRet >= 0 && check.status == 0
  }

  /** `verify_certificate_cb`. */
  function VerifyCertificate(ws: Option<Worker>, isDtlsSession: bool, check: PeerCheck): (v: Verdict)
    ensures ws.None? ==> v == Verdict(-1, None)
    // the DTLS session is not checked and its state is left alone
    ensures ws.Some? && isDtlsSession ==> v == Verdict(0, ws)
    ensures ws.Some? && !isDtlsSession ==>
              && v.worker.Some?
              && v.worker.value.ciscoClientCompat == ws.value.ciscoClientCompat
              // authenticated exactly when the chain is valid
              && (v.worker.value.certAuthOk <==> ChainValid(check))
              // the handshake fails exactly when the chain is not valid and compat is off
              && (v.ret == E_CERTIFICATE_ERROR <==> !ChainValid(check) && !ws.value.ciscoClientCompat)
              && (v.ret == 0 || v.ret == E_CERTIFICATE_ERROR)
  {
    match ws
    case None => Verdict(-1, None)
    case Some(w) =>
      if isDtlsSession then Verdict(0, ws)
      else
        var w0 := w.(certAuthOk := false);
        var failed := Verdict(if !w.ciscoClientCompat then E_CERTIFICATE_ERROR else 0, Some(w0));
        if check.verifyRet < 0 then failed
        // a non-zero status fails whether or not printing it succeeds
        else if check.status != 0 then failed
        else Verdict(0, Some(w0.(certAuthOk := true)))
  }

  /** `tls_has_session_cert`: `peersPresent` is whether the engine returns
      a peer certificate list for the session. */
  function HasSessionCert(ws: Worker, peersPresent: bool): (r: bool)
    ensures r ==> ws.certAuthOk || peersPresent
    ensures ws.certAuthOk ==> r
    ensures ws.ciscoClientCompat && peersPresent ==> r
    ensures !ws.ciscoClientCompat ==> (r <==> ws.certAuthOk)
  {
    if ws.certAuthOk then true
    else if !ws.ciscoClientCompat then false
    else peersPresent
  }

  /** After a primary handshake the gate let through, a session counts as
      certificate-authenticated when its chain was valid, or, in
      compatibility mode only, when the client merely presented
      certificates. */
  lemma {:induction false} SessionCertAfterHandshake(w: Worker, check: PeerCheck, peersPresent: bool)
    ensures var v := VerifyCertificate(Some(w), false, check);
            v.ret == 0 ==> (HasSessionCert(v.worker.value, peersPresent)
                            <==> ChainValid(check) || (w.ciscoClientCompat && peersPresent))
  {
  }

  /** A handshake that proceeds has either a valid chain or compatibility
      mode on; without compatibility mode, proceeding means authenticated. */
  lemma HandshakeProceedsOnlyIfValidOrCompat(w: Worker, check: PeerCheck)
    ensures var v := VerifyCertificate(Some(w), false, check);
            v.ret == 0 ==> ChainValid(check) || w.ciscoClientCompat
    ensures var v := VerifyCertificate(Some(w), false, check);
            v.ret == 0 && !w.ciscoClientCompat ==> v.worker.value.certAuthOk
  {
  }

  /** The return code of printing the status never changes the decision. */
  lemma StatusPrintIsIrrelevant(ws: Option<Worker>, isDtlsSession: bool, check: PeerCheck, printRet: int)
    ensures VerifyCertificate(ws, isDtlsSession, check)
         == VerifyCertificate(ws, isDtlsSession, check.(printRet := printRet))
  {
  }
}

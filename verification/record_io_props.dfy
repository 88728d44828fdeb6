/**
  Properties that relate runs of the record-layer loops to each other.
 */
module RecordIoProperties {
  import opened CTypes
  import opened Engine
  import opened RecordIo

  /** The script with the results `idle` holds of removed. */
  function Without(s: seq<int32>, idle: int32 -> bool): seq<int32> {
    if |s| == 0 then []
    else (if idle(s[0]) then [] else [s[0]]) + Without(s[1..], idle)
  }

  /** Results that do not move the `tls_send` loop: AGAIN, INTERRUPTED, 0. */
  predicate SendIdle(ret: int32) {
    ret == 0 || Retryable(ret)
  }

  /** Results after which `tls_recv` calls again: AGAIN, INTERRUPTED. */
  predicate RecvIdle(ret: int32) {
    Retryable(ret)
  }

  /** Results that do not move the `tls_send_nb` loop: INTERRUPTED, 0. */
  predicate SendNbIdle(ret: int32) {
    ret == 0 || ret == E_INTERRUPTED
  }

  lemma {:induction false} SendFromIgnoresIdle(dataSize: size_t, s: seq<int32>, left: int32, sent: int, sent': int)
    ensures SendFrom(dataSize, s, left, sent).status == SendFrom(dataSize, Without(s, SendIdle), left, sent').status
  {
    if left > 0 && |s| > 0 {
      var w := Without(s, SendIdle);
      var ret := s[0];
      if SendIdle(ret) {
        assert w == Without(s[1..], SendIdle);
        SendFromIgnoresIdle(dataSize, s[1..], left, sent, sent');
      } else {
        assert w == [ret] + Without(s[1..], SendIdle);
        assert w[0] == ret && w[1..] == Without(s[1..], SendIdle);
        if ret > 0 {
          SendFromIgnoresIdle(dataSize, s[1..], left - ret, sent + ret, sent' + ret);
        }
      }
    }
  }

  /** AGAIN, INTERRUPTED and 0 never change what `tls_send` returns: the run
      ends the same way on the script with them removed. */
  lemma SendIgnoresIdle(dataSize: size_t, script: seq<int32>)
    ensures Send(dataSize, script).status == Send(dataSize, Without(script, SendIdle)).status
  {
    SendFromIgnoresIdle(dataSize, script, IntOfSize(dataSize), 0, 0);
  }

  lemma {:induction false} SendNbFromIgnoresIdle(dataSize: size_t, s: seq<int32>, left: int32, sent: int, sent': int)
    ensures SendNbFrom(dataSize, s, left, sent).status == SendNbFrom(dataSize, Without(s, SendNbIdle), left, sent').status
  {
    if left > 0 && |s| > 0 {
      var w := Without(s, SendNbIdle);
      var ret := s[0];
      if SendNbIdle(ret) {
        assert w == Without(s[1..], SendNbIdle);
        SendNbFromIgnoresIdle(dataSize, s[1..], left, sent, sent');
      } else {
        assert w == [ret] + Without(s[1..], SendNbIdle);
        assert w[0] == ret && w[1..] == Without(s[1..], SendNbIdle);
        if ret > 0 {
          SendNbFromIgnoresIdle(dataSize, s[1..], left - ret, sent + ret, sent' + ret);
        }
      }
    }
  }

  /** INTERRUPTED and 0 never change what `tls_send_nb` returns. */
  lemma SendNbIgnoresIdle(dataSize: size_t, script: seq<int32>)
    ensures SendNb(dataSize, script).status == SendNb(dataSize, Without(script, SendNbIdle)).status
  {
    SendNbFromIgnoresIdle(dataSize, script, IntOfSize(dataSize), 0, 0);
  }

  lemma {:induction false} SendNbFromMatchesSendFrom(dataSize: size_t, s: seq<int32>, left: int32, sent: int)
    requires forall j :: 0 <= j < |s| ==> s[j] != E_AGAIN
    ensures SendNbFrom(dataSize, s, left, sent) == SendFrom(dataSize, s, left, sent)
  {
    if left > 0 && |s| > 0 {
      var ret := s[0];
      if ret >= 0 || ret == E_INTERRUPTED {
        if ret > 0 {
          SendNbFromMatchesSendFrom(dataSize, s[1..], left - ret, sent + ret);
        } else {
          SendNbFromMatchesSendFrom(dataSize, s[1..], left, sent);
        }
      }
    }
  }

  /** The two send loops differ only in how they treat AGAIN: on an engine
      that never answers AGAIN they make the same calls and return the same. */
  lemma SendNbMatchesSendWithoutAgain(dataSize: size_t, script: seq<int32>)
    requires forall j :: 0 <= j < |script| ==> script[j] != E_AGAIN
    ensures SendNb(dataSize, script) == Send(dataSize, script)
  {
    SendNbFromMatchesSendFrom(dataSize, script, IntOfSize(dataSize), 0);
  }

  /** Where `tls_send` would block on AGAIN, `tls_send_nb` stops at that very
      call and reports the whole size, even if nothing was accepted. */
  lemma {:induction false} SendNbStopsAtFirstAgain(dataSize: size_t, script: seq<int32>, k: nat)
    requires k < |script| && k < |Send(dataSize, script).offers| && script[k] == E_AGAIN
    requires forall j :: 0 <= j < k ==> script[j] != E_AGAIN
    ensures SendNb(dataSize, script) == SendRun(Returned(dataSize), Send(dataSize, script).offers[..k + 1])
  {
    SendNbPrefix(dataSize, script, IntOfSize(dataSize), 0, k);
  }

  lemma {:induction false} SendNbPrefix(dataSize: size_t, s: seq<int32>, left: int32, sent: int, k: nat)
    requires k < |s| && k < |SendFrom(dataSize, s, left, sent).offers| && s[k] == E_AGAIN
    requires forall j :: 0 <= j < k ==> s[j] != E_AGAIN
    ensures SendNbFrom(dataSize, s, left, sent) == SendRun(Returned(dataSize), SendFrom(dataSize, s, left, sent).offers[..k + 1])
  {
    var ret := s[0];
    if k > 0 {
      assert forall j :: 0 <= j < k - 1 ==> s[1..][j] == s[j + 1];
      if ret > 0 {
        SendNbPrefix(dataSize, s[1..], left - ret, sent + ret, k - 1);
      } else {
        SendNbPrefix(dataSize, s[1..], left, sent, k - 1);
      }
    }
  }

  lemma {:induction false} RecvIgnoresRetryableFrom(s: seq<int32>)
    ensures Recv(s).status == Recv(Without(s, RecvIdle)).status
    ensures Recv(s).status.Returned? ==> Recv(Without(s, RecvIdle)).calls == 1
  {
    if |s| > 0 {
      var w := Without(s, RecvIdle);
      if Retryable(s[0]) {
        assert w == Without(s[1..], RecvIdle);
        RecvIgnoresRetryableFrom(s[1..]);
      } else {
        assert w == [s[0]] + Without(s[1..], RecvIdle);
        assert w[0] == s[0];
      }
    }
  }

  /** `tls_recv` returns the first result that is neither INTERRUPTED nor
      AGAIN: the same one the engine would give first if it never
      answered those, and then on the first call. */
  lemma RecvIgnoresRetryable(script: seq<int32>)
    ensures Recv(script).status == Recv(Without(script, RecvIdle)).status
    ensures Recv(script).status.Returned? ==> Recv(Without(script, RecvIdle)).calls == 1
  {
    RecvIgnoresRetryableFrom(script);
  }
}

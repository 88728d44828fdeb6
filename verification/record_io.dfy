/**
  The retry loops around the engine's record send and receive primitives
  (`tls_send`, `tls_send_nb`, `tls_recv`).

  The engine is a script: `script[j]` is what the engine returns on the
  j-th call. A run records every call the loop makes (as the region of the
  caller's buffer it offered) and how it ended: `Returned(v)` when the loop
  returns `v`, `Exhausted` when the script ran out while the loop would call
  the engine once more.
 */
module RecordIo {
  import opened CTypes
  import opened Engine

  function Positive(ret: int): nat {
    if ret > 0 then ret else 0
  }

  /** Total of the positive counts in a run of engine results: how far the
      loop has advanced its buffer pointer. */
  function Accepted(s: seq<int32>): nat {
    if |s| == 0 then 0 else Positive(s[0]) + Accepted(s[1..])
  }

  predicate NoFatal(s: seq<int32>) {
    forall j :: 0 <= j < |s| ==> !Fatal(s[j])
  }

  datatype Status = Returned(value: int) | Exhausted

  /** One call of the send primitive: it was handed the `len` bytes that
      start `start` bytes into the caller's buffer. */
  datatype Offer = Offer(start: int, len: int)

  datatype SendRun = SendRun(status: Status, offers: seq<Offer>)

  datatype RecvRun = RecvRun(status: Status, calls: nat)

  /** An offer that stays inside a buffer of `size` bytes. */
  predicate WithinBuffer(o: Offer, size: nat) {
    0 <= o.start && 0 <= o.len && o.start + o.len <= size
  }

  lemma AcceptedStep(s: seq<int32>)
    requires |s| > 0
    ensures forall j :: 1 <= j <= |s| ==> Accepted(s[..j]) == Positive(s[0]) + Accepted(s[1..][..j - 1])
  {
    forall j | 1 <= j <= |s|
      ensures Accepted(s[..j]) == Positive(s[0]) + Accepted(s[1..][..j - 1])
    {
      assert s[..j][1..] == s[1..][..j - 1];
    }
  }

  // ---------------------------------------------------------------------
  // tls_send
  // ---------------------------------------------------------------------

  /** The loop of `tls_send` from a state where `left` bytes remain by its
      count and the pointer has advanced `sent` bytes. Every call offers the
      whole `dataSize`, wherever the pointer stands. */
  function SendFrom(dataSize: size_t, script: seq<int32>, left: int32, sent: int): SendRun
  {
    if left <= 0 then SendRun(Returned(dataSize), [])
    else if |script| == 0 then SendRun(Exhausted, [])
    else
      var ret := script[0];
      var offer := Offer(sent, dataSize);
      if ret < 0 && ret != E_AGAIN && ret != E_INTERRUPTED then
        SendRun(Returned(ret), [offer])
      else
        var rest := if ret > 0 then SendFrom(dataSize, script[1..], left - ret, sent + ret)
                    else SendFrom(dataSize, script[1..], left, sent);
        SendRun(rest.status, [offer] + rest.offers)
  }

  /** One turn of the `tls_send` loop that does not end it. */
  lemma SendStep(dataSize: size_t, script: seq<int32>, left: int32, sent: int,
                  next: seq<int32>, left': int32, sent': int)
    requires left > 0 && |script| > 0 && !Fatal(script[0])
    requires next == script[1..] && left' == left - Positive(script[0]) && sent' == sent + Positive(script[0])
    ensures var rest := SendFrom(dataSize, next, left', sent');
            SendFrom(dataSize, script, left, sent) == SendRun(rest.status, [Offer(sent, dataSize)] + rest.offers)
  {
  }

  /** The calls of a send loop that offers `len` bytes every time: the j-th
      call is made while the counts so far leave something to send, and
      offers `len` bytes from where the pointer then stands. */
  predicate OffersFrom(script: seq<int32>, left: int, sent: int, offers: seq<Offer>, len: int) {
    && |offers| <= |script|
    && forall j :: 0 <= j < |offers| ==>
         offers[j] == Offer(sent + Accepted(script[..j]), len) && left - Accepted(script[..j]) > 0
  }

  lemma NoFatalStep(s: seq<int32>, k: nat)
    requires k < |s|
    ensures NoFatal(s[..k + 1]) <==> !Fatal(s[0]) && NoFatal(s[1..][..k])
  {
    var a, b := s[..k + 1], s[1..][..k];
    assert forall j :: 0 <= j < k ==> a[j + 1] == b[j];
    if !Fatal(s[0]) && NoFatal(b) {
      forall j | 0 <= j < |a|
        ensures !Fatal(a[j])
      {
        if j > 0 {
          assert a[j] == b[j - 1];
        }
      }
    }
  }

  /** Prepending one call to a run whose calls fit `OffersFrom`. */
  lemma OffersStep(script: seq<int32>, left: int, sent: int, restOffers: seq<Offer>, len: int)
    requires |script| > 0 && left > 0
    requires OffersFrom(script[1..], left - Positive(script[0]), sent + Positive(script[0]), restOffers, len)
    ensures OffersFrom(script, left, sent, [Offer(sent, len)] + restOffers, len)
  {
    var offers := [Offer(sent, len)] + restOffers;
    AcceptedStep(script);
    forall j | 0 <= j < |offers|
      ensures offers[j] == Offer(sent + Accepted(script[..j]), len) && left - Accepted(script[..j]) > 0
    {
      if j == 0 {
        assert script[..0] == [];
      } else {
        assert offers[j] == restOffers[j - 1];
      }
    }
  }

  /** The outcome of a `tls_send` run, given its calls. */
  predicate SendEnding(dataSize: size_t, script: seq<int32>, left: int, r: SendRun)
    requires |r.offers| <= |script|
  {
    match r.status
    case Exhausted =>
      |r.offers| == |script| && NoFatal(script) && left - Accepted(script) > 0
    case Returned(v) =>
      if v < 0 then
        |r.offers| > 0 && v == script[|r.offers| - 1] && Fatal(v)
      else
        v == dataSize && NoFatal(script[..|r.offers|]) && left - Accepted(script[..|r.offers|]) <= 0
  }

  lemma {:induction false} SendFromRun(dataSize: size_t, script: seq<int32>, left: int32, sent: int)
    ensures var r := SendFrom(dataSize, script, left, sent);
            && OffersFrom(script, left, sent, r.offers, dataSize)
            && (forall j :: 0 <= j < |r.offers| - 1 ==> !Fatal(script[j]))
            && SendEnding(dataSize, script, left, r)
  {
    var r := SendFrom(dataSize, script, left, sent);
    if left > 0 && |script| > 0 {
      var ret := script[0];
      if !(ret < 0 && ret != E_AGAIN && ret != E_INTERRUPTED) {
        var left' := left - Positive(ret);
        var sent' := sent + Positive(ret);
        var rest := SendFrom(dataSize, script[1..], left', sent');
        SendStep(dataSize, script, left, sent, script[1..], left', sent');
        SendFromRun(dataSize, script[1..], left', sent');
        OffersStep(script, left, sent, rest.offers, dataSize);
        var k := |rest.offers|;
        NoFatalStep(script, k);
        assert Accepted(script) == Positive(ret) + Accepted(script[1..]);
        AcceptedStep(script);
      } else {
        assert script[..0] == [];
      }
    }
  }

  /** `tls_send`: blocking send of `dataSize` bytes. */
  function Send(dataSize: size_t, script: seq<int32>): (r: SendRun)
    ensures |r.offers| <= |script|
    // the first fatal result is returned unchanged and is the last call made
    ensures r.status.Returned? && r.status.value < 0 ==>
              |r.offers| > 0 && r.status.value == script[|r.offers| - 1] && Fatal(r.status.value)
              && NoFatal(script[..|r.offers| - 1])
    // otherwise the full size is reported, and only once the counts cover it
    ensures r.status.Returned? && r.status.value >= 0 ==>
              r.status.value == dataSize && NoFatal(script[..|r.offers|])
              && Accepted(script[..|r.offers|]) >= IntOfSize(dataSize)
    // every call is made while the counts leave something to send
    ensures forall j :: 0 <= j < |r.offers| ==> Accepted(script[..j]) < IntOfSize(dataSize)
    // each call is handed `data_size` bytes from where the counts moved the pointer
    ensures forall j :: 0 <= j < |r.offers| ==> r.offers[j] == Offer(Accepted(script[..j]), dataSize)
    ensures NoFatal(script) && Accepted(script) >= IntOfSize(dataSize) ==> r.status == Returned(dataSize)
    ensures r.status.Exhausted? ==> |r.offers| == |script| && NoFatal(script) && Accepted(script) < IntOfSize(dataSize)
  {
    var r := SendFrom(dataSize, script, IntOfSize(dataSize), 0);
    SendFromRun(dataSize, script, IntOfSize(dataSize), 0);
    assert r.status.Returned? && r.status.value < 0 ==> NoFatal(script[..|r.offers| - 1]);
    r
  }

  /** The `tls_send` loop as written, with the engine calls read from the script. */
  method SendLoop(dataSize: size_t, script: seq<int32>) returns (r: SendRun)
    ensures r == Send(dataSize, script)
  {
    var left: int32 := IntOfSize(dataSize);
    r := SendLoopFrom(dataSize, script, left);
  }

  /** The `while (left > 0)` loop of `tls_send`, from the initial `left`. */
  method SendLoopFrom(dataSize: size_t, script: seq<int32>, left0: int32) returns (r: SendRun)
    ensures r == SendFrom(dataSize, script, left0, 0)
  {
    var left := left0;
    var sent: int := 0;
    var i := 0;
    var offers: seq<Offer> := [];
    ghost var whole := SendFrom(dataSize, script, left0, 0);
    assert script[0..] == script;
    while left > 0
      invariant 0 <= i <= |script|
      invariant var tail := SendFrom(dataSize, script[i..], left, sent);
                whole == SendRun(tail.status, offers + tail.offers)
      decreases |script| - i
    {
      if i == |script| {
        assert script[i..] == [];
        return SendRun(Exhausted, offers);
      }
      var ret := script[i];
      var offer := Offer(sent, dataSize);
      assert script[i..][0] == ret && script[i..][1..] == script[i + 1..];
      if ret < 0 && ret != E_AGAIN && ret != E_INTERRUPTED {
        return SendRun(Returned(ret), offers + [offer]);
      }
      ghost var before, leftBefore, sentBefore, iBefore := offers, left, sent, i;
      offers := offers + [offer];
      i := i + 1;
      if ret > 0 {
        left := left - ret;
        sent := sent + ret;
      }
      SendStep(dataSize, script[iBefore..], leftBefore, sentBefore, script[i..], left, sent);
      ghost var tail := SendFrom(dataSize, script[i..], left, sent);
      assert before + ([offer] + tail.offers) == offers + tail.offers;
    }
    return SendRun(Returned(dataSize), offers);
  }

  // ---------------------------------------------------------------------
  // tls_send_nb
  // ---------------------------------------------------------------------

  /** A result that makes `tls_send_nb` return: any negative other than
      INTERRUPTED. */
  predicate StopsNb(ret: int) {
    ret < 0 && ret != E_INTERRUPTED
  }

  function SendNbFrom(dataSize: size_t, script: seq<int32>, left: int32, sent: int): SendRun
  {
    if left <= 0 then SendRun(Returned(dataSize), [])
    else if |script| == 0 then SendRun(Exhausted, [])
    else
      var ret := script[0];
      var offer := Offer(sent, dataSize);
      if ret < 0 && ret != E_INTERRUPTED then
        SendRun(Returned(if ret == E_AGAIN then dataSize else ret), [offer])
      else
        var rest := if ret > 0 then SendNbFrom(dataSize, script[1..], left - ret, sent + ret)
                    else SendNbFrom(dataSize, script[1..], left, sent);
        SendRun(rest.status, [offer] + rest.offers)
  }

  /** One turn of the `tls_send_nb` loop that does not end it. */
  lemma SendNbStep(dataSize: size_t, script: seq<int32>, left: int32, sent: int,
                  next: seq<int32>, left': int32, sent': int)
    requires left > 0 && |script| > 0 && !StopsNb(script[0])
    requires next == script[1..] && left' == left - Positive(script[0]) && sent' == sent + Positive(script[0])
    ensures var rest := SendNbFrom(dataSize, next, left', sent');
            SendNbFrom(dataSize, script, left, sent) == SendRun(rest.status, [Offer(sent, dataSize)] + rest.offers)
  {
  }

  /** The outcome of a `tls_send_nb` run, given its calls. */
  predicate SendNbEnding(dataSize: size_t, script: seq<int32>, left: int, r: SendRun)
    requires |r.offers| <= |script|
  {
    match r.status
    case Exhausted =>
      |r.offers| == |script| && (forall j :: 0 <= j < |script| ==> !StopsNb(script[j]))
      && left - Accepted(script) > 0
    case Returned(v) =>
      if |r.offers| > 0 && StopsNb(script[|r.offers| - 1]) then
        v == (if script[|r.offers| - 1] == E_AGAIN then dataSize else script[|r.offers| - 1])
      else
        v == dataSize && left - Accepted(script[..|r.offers|]) <= 0
  }

  lemma {:induction false} SendNbFromRun(dataSize: size_t, script: seq<int32>, left: int32, sent: int)
    ensures var r := SendNbFrom(dataSize, script, left, sent);
            && OffersFrom(script, left, sent, r.offers, dataSize)
            && (forall j :: 0 <= j < |r.offers| - 1 ==> !StopsNb(script[j]))
            && SendNbEnding(dataSize, script, left, r)
  {
    var r := SendNbFrom(dataSize, script, left, sent);
    if left > 0 && |script| > 0 {
      var ret := script[0];
      if !(ret < 0 && ret != E_INTERRUPTED) {
        var left' := left - Positive(ret);
        var sent' := sent + Positive(ret);
        var rest := SendNbFrom(dataSize, script[1..], left', sent');
        SendNbStep(dataSize, script, left, sent, script[1..], left', sent');
        SendNbFromRun(dataSize, script[1..], left', sent');
        OffersStep(script, left, sent, rest.offers, dataSize);
        assert Accepted(script) == Positive(ret) + Accepted(script[1..]);
        AcceptedStep(script);
      } else {
        assert script[..0] == [];
      }
    }
  }

  /** `tls_send_nb`: like `tls_send`, but AGAIN ends the loop and reports
      the whole size as sent. */
  function SendNb(dataSize: size_t, script: seq<int32>): (r: SendRun)
    ensures |r.offers| <= |script|
    // AGAIN reports full success, however little was accepted
    ensures |r.offers| > 0 && script[|r.offers| - 1] == E_AGAIN ==> r.status == Returned(dataSize)
    // no call is made after an AGAIN or a fatal result; INTERRUPTED is retried
    ensures forall j :: 0 <= j < |r.offers| - 1 ==> !StopsNb(script[j])
    // every other negative result that ends the loop is returned unchanged
    ensures |r.offers| > 0 && Fatal(script[|r.offers| - 1]) ==> r.status == Returned(script[|r.offers| - 1])
    ensures r.status.Returned? && r.status.value < 0 ==>
              |r.offers| > 0 && r.status.value == script[|r.offers| - 1] && Fatal(r.status.value)
    ensures r.status.Returned? ==> r.status.value < 0 || r.status.value == dataSize
    // without an AGAIN at the end, the full size is reported only once the counts cover it
    ensures r.status == Returned(dataSize) && !(|r.offers| > 0 && script[|r.offers| - 1] == E_AGAIN) ==>
              Accepted(script[..|r.offers|]) >= IntOfSize(dataSize)
    // every call is made while the counts leave something to send
    ensures forall j :: 0 <= j < |r.offers| ==> Accepted(script[..j]) < IntOfSize(dataSize)
    ensures forall j :: 0 <= j < |r.offers| ==> r.offers[j] == Offer(Accepted(script[..j]), dataSize)
    // an engine that never stops the loop and accepts enough gets the full size reported
    ensures (forall j :: 0 <= j < |script| ==> !StopsNb(script[j])) && Accepted(script) >= IntOfSize(dataSize) ==>
              r.status == Returned(dataSize)
    ensures r.status.Exhausted? ==>
              |r.offers| == |script| && (forall j :: 0 <= j < |script| ==> !StopsNb(script[j]))
              && Accepted(script) < IntOfSize(dataSize)
  {
    SendNbFromRun(dataSize, script, IntOfSize(dataSize), 0);
    SendNbFrom(dataSize, script, IntOfSize(dataSize), 0)
  }

  /** The `tls_send_nb` loop as written. */
  method SendNbLoop(dataSize: size_t, script: seq<int32>) returns (r: SendRun)
    ensures r == SendNb(dataSize, script)
  {
    var left: int32 := IntOfSize(dataSize);
    r := SendNbLoopFrom(dataSize, script, left);
  }

  /** The `while (left > 0)` loop of `tls_send_nb`, from the initial `left`. */
  method SendNbLoopFrom(dataSize: size_t, script: seq<int32>, left0: int32) returns (r: SendRun)
    ensures r == SendNbFrom(dataSize, script, left0, 0)
  {
    var left := left0;
    var sent: int := 0;
    var i := 0;
    var offers: seq<Offer> := [];
    ghost var whole := SendNbFrom(dataSize, script, left0, 0);
    assert script[0..] == script;
    while left > 0
      invariant 0 <= i <= |script|
      invariant var tail := SendNbFrom(dataSize, script[i..], left, sent);
                whole == SendRun(tail.status, offers + tail.offers)
      decreases |script| - i
    {
      if i == |script| {
        assert script[i..] == [];
        return SendRun(Exhausted, offers);
      }
      var ret := script[i];
      var offer := Offer(sent, dataSize);
      assert script[i..][0] == ret && script[i..][1..] == script[i + 1..];
      if ret < 0 && ret != E_INTERRUPTED {
        var value := if ret == E_AGAIN then dataSize else ret;
        return SendRun(Returned(value), offers + [offer]);
      }
      ghost var before, leftBefore, sentBefore, iBefore := offers, left, sent, i;
      offers := offers + [offer];
      i := i + 1;
      if ret > 0 {
        left := left - ret;
        sent := sent + ret;
      }
      SendNbStep(dataSize, script[iBefore..], leftBefore, sentBefore, script[i..], left, sent);
      ghost var tail := SendNbFrom(dataSize, script[i..], left, sent);
      assert before + ([offer] + tail.offers) == offers + tail.offers;
    }
    return SendRun(Returned(dataSize), offers);
  }

  // ---------------------------------------------------------------------
  // tls_recv
  // ---------------------------------------------------------------------

  /** `tls_recv`: call the receive primitive until it returns something
      other than INTERRUPTED or AGAIN, and return that. */
  function Recv(script: seq<int32>): (r: RecvRun)
    ensures r.calls <= |script|
    ensures forall j :: 0 <= j < r.calls - 1 ==> Retryable(script[j])
    ensures r.status.Returned? ==>
              r.calls > 0 && r.status.value == script[r.calls - 1] && !Retryable(r.status.value)
    ensures r.status.Exhausted? ==>
              r.calls == |script| && forall j :: 0 <= j < |script| ==> Retryable(script[j])
  {
    if |script| == 0 then RecvRun(Exhausted, 0)
    else if script[0] < 0 && (script[0] == E_INTERRUPTED || script[0] == E_AGAIN) then
      var rest := Recv(script[1..]);
      RecvRun(rest.status, rest.calls + 1)
    else RecvRun(Returned(script[0]), 1)
  }

  /** The `tls_recv` do-while loop as written. */
  method RecvLoop(script: seq<int32>) returns (r: RecvRun)
    ensures r == Recv(script)
  {
    var i := 0;
    var ret: int32;
    while true
      invariant 0 <= i <= |script|
      invariant var tail := Recv(script[i..]); Recv(script) == RecvRun(tail.status, tail.calls + i)
      decreases |script| - i
    {
      if i == |script| {
        return RecvRun(Exhausted, i);
      }
      ret := script[i];
      assert script[i..][1..] == script[i + 1..];
      i := i + 1;
      if !(ret < 0 && (ret == E_INTERRUPTED || ret == E_AGAIN)) {
        return RecvRun(Returned(ret), i);
      }
    }
  }
}

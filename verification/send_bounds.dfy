/**
  Where `tls_send` reads outside the caller's buffer, and a corrected loop
  that does not.

  As written, every call of the send primitive is handed `data_size` bytes
  starting at the advanced pointer `p`, so once the engine has accepted some
  bytes the region offered runs past the end of the buffer. The count
  `left` is also a C `int`, holding the low 32 bits of the size: a size
  whose low 32 bits are 2^31 or more wraps to a negative `left` that the
  loop does not enter, so the full size is reported without any call, and
  a larger size is cut to its low 32 bits, so the full size is reported
  once only those have been sent.
  The corrected loop offers the `left` bytes that remain and counts them in
  an integer wide enough for any size.
 */
module SendBounds {
  import opened CTypes
  import opened Engine
  import opened RecordIo

  // ---------------------------------------------------------------------
  // The code as written
  // ---------------------------------------------------------------------

  /** After a partial first write, the second call of `tls_send` is handed a
      region that ends past the caller's buffer. */
  lemma SendOverreadsAfterPartialWrite(dataSize: size_t, script: seq<int32>)
    requires dataSize < 0x8000_0000 && |script| >= 2
    requires 0 < script[0] < dataSize
    ensures |Send(dataSize, script).offers| >= 2
    ensures Send(dataSize, script).offers[1] == Offer(script[0], dataSize)
    ensures !WithinBuffer(Send(dataSize, script).offers[1], dataSize)
  {
    var left := IntOfSize(dataSize);
    assert SendFrom(dataSize, script, left, 0).offers
        == [Offer(0, dataSize)] + SendFrom(dataSize, script[1..], left - script[0], script[0]).offers;
  }

  /** A 10-byte send whose first call is accepted for 4 bytes: the second
      call is handed bytes 4 to 13 of a 10-byte buffer. */
  lemma SendOverreadExample()
    ensures Send(10, [4, 6]).offers == [Offer(0, 10), Offer(4, 10)]
    ensures Send(10, [4, 6]).status == Returned(10)
  {
    assert [4, 6][1..] == [6];
    assert SendFrom(10, [6], 6, 4) == SendRun(Returned(10), [Offer(4, 10)]);
  }

  /** A size whose low 32 bits do not fit a C `int` is reported as sent,
      with no call to the engine at all. */
  lemma SendSkipsSizesAboveIntMax(dataSize: size_t, script: seq<int32>)
    requires 0x8000_0000 <= dataSize % UINT32_MODULUS
    ensures Send(dataSize, script) == SendRun(Returned(dataSize), [])
    ensures Accepted(script[..|Send(dataSize, script).offers|]) < dataSize
  {
    assert IntOfSize(dataSize) < 0;
  }

  /** A size of 2^32 or more whose low 32 bits fit a C `int` is counted by
      those bits alone: once the engine has accepted that many bytes and
      nothing failed, the whole size is reported as sent. */
  lemma SendTruncatesSizesAboveUintMax(dataSize: size_t, script: seq<int32>)
    requires dataSize >= UINT32_MODULUS && dataSize % UINT32_MODULUS < 0x8000_0000
    requires NoFatal(script) && Accepted(script) >= dataSize % UINT32_MODULUS
    ensures IntOfSize(dataSize) == dataSize % UINT32_MODULUS
    ensures Send(dataSize, script).status == Returned(dataSize)
  {
  }

  /** A send of 2^32 + 10 bytes whose first call is accepted for 10 bytes
      reports all 2^32 + 10 as sent after that one call. */
  lemma SendTruncationExample()
    ensures Send(0x1_0000_000A, [10]) == SendRun(Returned(0x1_0000_000A), [Offer(0, 0x1_0000_000A)])
    ensures Accepted([10]) == 10
  {
    assert IntOfSize(0x1_0000_000A) == 10;
    assert [10][1..] == [];
  }

  // ---------------------------------------------------------------------
  // The corrected loop
  // ---------------------------------------------------------------------

  /** The corrected loop from a state where `left` bytes remain and the
      pointer has advanced `sent` bytes: each call is handed exactly the
      remaining `left` bytes. */
  function SendBoundedFrom(dataSize: size_t, script: seq<int32>, left: int, sent: int): SendRun
  {
    if left <= 0 then SendRun(Returned(dataSize), [])
    else if |script| == 0 then SendRun(Exhausted, [])
    else
      var ret := script[0];
      var offer := Offer(sent, left);
      if ret < 0 && ret != E_AGAIN && ret != E_INTERRUPTED then
        SendRun(Returned(ret), [offer])
      else
        var rest := if ret > 0 then SendBoundedFrom(dataSize, script[1..], left - ret, sent + ret)
                    else SendBoundedFrom(dataSize, script[1..], left, sent);
        SendRun(rest.status, [offer] + rest.offers)
  }

  /** One turn of the corrected loop that does not end it. */
  lemma SendBoundedStep(dataSize: size_t, script: seq<int32>, left: int, sent: int,
                        next: seq<int32>, left': int, sent': int)
    requires left > 0 && |script| > 0 && !Fatal(script[0])
    requires next == script[1..] && left' == left - Positive(script[0]) && sent' == sent + Positive(script[0])
    ensures var rest := SendBoundedFrom(dataSize, next, left', sent');
            SendBoundedFrom(dataSize, script, left, sent) == SendRun(rest.status, [Offer(sent, left)] + rest.offers)
  {
  }

  /** The calls of the corrected loop: the j-th call is handed what remains
      after the counts so far, starting where the pointer then stands. */
  predicate RemainderOffers(script: seq<int32>, left: int, sent: int, offers: seq<Offer>) {
    && |offers| <= |script|
    && forall j :: 0 <= j < |offers| ==>
         offers[j] == Offer(sent + Accepted(script[..j]), left - Accepted(script[..j]))
         && left - Accepted(script[..j]) > 0
  }

  lemma RemainderStep(script: seq<int32>, left: int, sent: int, restOffers: seq<Offer>)
    requires |script| > 0 && left > 0
    requires RemainderOffers(script[1..], left - Positive(script[0]), sent + Positive(script[0]), restOffers)
    ensures RemainderOffers(script, left, sent, [Offer(sent, left)] + restOffers)
  {
    var offers := [Offer(sent, left)] + restOffers;
    AcceptedStep(script);
    forall j | 0 <= j < |offers|
      ensures offers[j] == Offer(sent + Accepted(script[..j]), left - Accepted(script[..j]))
              && left - Accepted(script[..j]) > 0
    {
      if j == 0 {
        assert script[..0] == [];
      } else {
        assert offers[j] == restOffers[j - 1];
      }
    }
  }

  lemma {:induction false} SendBoundedFromRun(dataSize: size_t, script: seq<int32>, left: int, sent: int)
    ensures var r := SendBoundedFrom(dataSize, script, left, sent);
            && RemainderOffers(script, left, sent, r.offers)
            && (forall j :: 0 <= j < |r.offers| - 1 ==> !Fatal(script[j]))
            && SendEnding(dataSize, script, left, r)
  {
    var r := SendBoundedFrom(dataSize, script, left, sent);
    if left > 0 && |script| > 0 {
      var ret := script[0];
      if !(ret < 0 && ret != E_AGAIN && ret != E_INTERRUPTED) {
        var left' := left - Positive(ret);
        var sent' := sent + Positive(ret);
        var rest := SendBoundedFrom(dataSize, script[1..], left', sent');
        SendBoundedStep(dataSize, script, left, sent, script[1..], left', sent');
        SendBoundedFromRun(dataSize, script[1..], left', sent');
        RemainderStep(script, left, sent, rest.offers);
        NoFatalStep(script, |rest.offers|);
        assert Accepted(script) == Positive(ret) + Accepted(script[1..]);
        AcceptedStep(script);
      } else {
        assert script[..0] == [];
      }
    }
  }

  /** The corrected `tls_send`. */
  function SendBounded(dataSize: size_t, script: seq<int32>): (r: SendRun)
    ensures |r.offers| <= |script|
    // every call is handed a non-empty region inside the caller's buffer
    ensures forall j :: 0 <= j < |r.offers| ==> WithinBuffer(r.offers[j], dataSize) && r.offers[j].len > 0
    // and the regions follow one another: each starts where the counts so far end
    ensures forall j :: 0 <= j < |r.offers| ==> r.offers[j].start == Accepted(script[..j])
    // and each is handed exactly the bytes that remain
    ensures forall j :: 0 <= j < |r.offers| ==> r.offers[j].len == dataSize - Accepted(script[..j])
    // the first fatal result is returned unchanged and is the last call made
    ensures r.status.Returned? && r.status.value < 0 ==>
              |r.offers| > 0 && r.status.value == script[|r.offers| - 1] && Fatal(r.status.value)
              && NoFatal(script[..|r.offers| - 1])
    // the full size is reported only after fatal-free calls whose counts cover all of it
    ensures r.status.Returned? && r.status.value >= 0 ==>
              r.status.value == dataSize && Accepted(script[..|r.offers|]) >= dataSize
              && NoFatal(script[..|r.offers|])
    ensures NoFatal(script) && Accepted(script) >= dataSize ==> r.status == Returned(dataSize)
    ensures r.status.Exhausted? ==> |r.offers| == |script| && NoFatal(script) && Accepted(script) < dataSize
  {
    var r := SendBoundedFrom(dataSize, script, dataSize, 0);
    SendBoundedFromRun(dataSize, script, dataSize, 0);
    assert r.status.Returned? && r.status.value < 0 ==> NoFatal(script[..|r.offers| - 1]);
    r
  }

  lemma {:induction false} SendBoundedFromMatchesSendFrom(dataSize: size_t, s: seq<int32>, left: int32, sent: int)
    ensures SendBoundedFrom(dataSize, s, left, sent).status == SendFrom(dataSize, s, left, sent).status
    ensures |SendBoundedFrom(dataSize, s, left, sent).offers| == |SendFrom(dataSize, s, left, sent).offers|
  {
    if left > 0 && |s| > 0 {
      var ret := s[0];
      if !(ret < 0 && ret != E_AGAIN && ret != E_INTERRUPTED) {
        if ret > 0 {
          SendBoundedFromMatchesSendFrom(dataSize, s[1..], left - ret, sent + ret);
        } else {
          SendBoundedFromMatchesSendFrom(dataSize, s[1..], left, sent);
        }
      }
    }
  }

  /** For sizes that fit a C `int`, the correction changes only how many
      bytes each call is handed: the same calls are made and the same value
      is returned. */
  lemma SendBoundedMatchesSendOutcome(dataSize: size_t, script: seq<int32>)
    requires dataSize < 0x8000_0000
    ensures SendBounded(dataSize, script).status == Send(dataSize, script).status
    ensures |SendBounded(dataSize, script).offers| == |Send(dataSize, script).offers|
  {
    SendBoundedFromMatchesSendFrom(dataSize, script, dataSize, 0);
  }
}

/** write() of http/http_conn.cpp: the loop that hands the iovec pair
    process_write prepared to writev until everything is sent, the socket
    would block, or it fails, together with the bookkeeping that moves the
    iovecs past what each writev sent.

    The socket is a sequence of answers, one per writev: it accepts some
    number of bytes, or has no room (EAGAIN), or fails. When the answers run
    out the socket has no room. What is sent is recorded by origin: the
    byte at offset i of the write buffer is Hdr(i), the byte at offset i of
    the mapped file is Body(i); an offset outside the header block or the
    file is a byte that is not part of the response. */
module Writer {
  import opened Common
  import opened Response

  datatype Src = Hdr(i: int) | Body(i: int)

  datatype Answer = Accept(n: nat) | WouldBlock | Failed

  /** The fields write() works on: the iovecs, m_iv_count, bytes_to_send,
      bytes_have_send, and m_write_idx. */
  datatype Sending = Sending(iv0: IoVec, iv1: IoVec, ivCount: nat, toSend: int, haveSend: int, writeIdx: nat)

  /** How write() ends: nothing to send (EPOLLIN is armed and the
      connection re-initialised), EAGAIN (EPOLLOUT is armed again), a
      failure (the file is unmapped), everything sent, or a loop that can
      make no progress because every iovec is empty though bytes remain. */
  datatype WriteEnd = Idle | Again | Broken | Finished | Spins

  /** The bytes an iovec covers. */
  function Span(v: IoVec, header: bool): (r: seq<Src>)
    ensures |r| == (if v.len > 0 then v.len else 0)
    ensures forall k :: 0 <= k < |r| ==> r[k] == (if header then Hdr(v.base + k) else Body(v.base + k))
  {
    seq(if v.len > 0 then v.len else 0, k requires 0 <= k => if header then Hdr(v.base + k) else Body(v.base + k))
  }

  /** What writev gathers: m_iv[0], then m_iv[1] when m_iv_count is 2. */
  function Vector(s: Sending): (r: seq<Src>)
    ensures forall i, j :: 0 <= i < j < |r| && r[i].Body? ==> r[j].Body?
    ensures s.ivCount < 2 ==> forall k :: 0 <= k < |r| ==> r[k].Hdr?
  {
    Span(s.iv0, true) + (if s.ivCount >= 2 then Span(s.iv1, false) else [])
  }

  /** The bookkeeping after writev sent `temp` bytes, as written:
      bytes_have_send is the total so far, yet it is compared with, and
      subtracted from, the length m_iv[0] has been shrunk to. */
  function StepAsWritten(s: Sending, temp: nat): (r: Sending)
    ensures r.haveSend == s.haveSend + temp && r.toSend == s.toSend - temp
    ensures r.ivCount == s.ivCount && r.writeIdx == s.writeIdx
  {
    var have := s.haveSend + temp;
    var to := s.toSend - temp;
    if have >= s.iv0.len then
      s.(iv0 := s.iv0.(len := 0), iv1 := IoVec(have - s.writeIdx, to), toSend := to, haveSend := have)
    else
      s.(iv0 := IoVec(have, s.iv0.len - have), toSend := to, haveSend := have)
  }

  /** The bookkeeping measured from the start of the header block: the
      header iovec starts at bytes_have_send and ends at m_write_idx; once
      the headers are out, the file iovec starts where the file part sent
      so far ends. */
  function StepFixed(s: Sending, temp: nat): (r: Sending)
    ensures r.haveSend == s.haveSend + temp && r.toSend == s.toSend - temp
    ensures r.ivCount == s.ivCount && r.writeIdx == s.writeIdx
  {
    var have := s.haveSend + temp;
    var to := s.toSend - temp;
    if have >= s.writeIdx then
      s.(iv0 := s.iv0.(len := 0), iv1 := IoVec(have - s.writeIdx, to), toSend := to, haveSend := have)
    else
      s.(iv0 := IoVec(have, s.writeIdx - have), toSend := to, haveSend := have)
  }

  datatype Bookkeeping = AsWritten | Fixed

  function Step(mode: Bookkeeping, s: Sending, temp: nat): (r: Sending)
    ensures r.haveSend == s.haveSend + temp && r.toSend == s.toSend - temp
    ensures r.ivCount == s.ivCount && r.writeIdx == s.writeIdx
  {
    if mode == AsWritten then StepAsWritten(s, temp) else StepFixed(s, temp)
  }

  /** The while loop of write(). An empty vector makes writev return 0
      whatever the socket would answer. Every writev is counted in full:
      what the loop believes it sent is what it handed over, and what is
      left plus what was sent stays the same. */
  function WriteLoop(mode: Bookkeeping, s: Sending, answers: seq<Answer>): (r: (WriteEnd, Sending, seq<Src>))
    ensures r.1.haveSend == s.haveSend + |r.2| && r.1.toSend == s.toSend - |r.2|
    ensures r.1.ivCount == s.ivCount && r.1.writeIdx == s.writeIdx
    ensures r.0 == Finished ==> r.1.toSend <= 0
    ensures r.0 == Spins ==> r.1.toSend > 0 && |Vector(r.1)| == 0
    ensures r.0 in {Again, Broken, Finished, Spins}
    decreases |answers|, if |Vector(s)| == 0 then 1 else 0
  {
    var v := Vector(s);
    if |v| == 0 then
      var s1 := Step(mode, s, 0);
      if s1.toSend <= 0 then (Finished, s1, [])
      else if |Vector(s1)| == 0 then (Spins, s1, [])
      else WriteLoop(mode, s1, answers)
    else if answers == [] || answers[0] == WouldBlock then (Again, s, [])
    else if answers[0] == Failed then (Broken, s, [])
    else
      var t := Min(answers[0].n, |v|);
      var s1 := Step(mode, s, t);
      if s1.toSend <= 0 then (Finished, s1, v[..t])
      else
        var r1 := WriteLoop(mode, s1, answers[1..]);
        (r1.0, r1.1, v[..t] + r1.2)
  }

  /** write(): nothing to do when bytes_to_send is 0, the loop otherwise. */
  function Write(mode: Bookkeeping, s: Sending, answers: seq<Answer>): (r: (WriteEnd, Sending, seq<Src>))
    ensures s.toSend == 0 <==> r.0 == Idle
    ensures r.0 == Idle ==> r.1 == s && r.2 == []
    ensures r.1.haveSend + r.1.toSend == s.haveSend + s.toSend
  {
    if s.toSend == 0 then (Idle, s, []) else WriteLoop(mode, s, answers)
  }

  // ---------------------------------------------------------------------
  // Delivery with the corrected bookkeeping

  /** The response in order: the header block, then the file when there
      are two iovecs. */
  function Whole(w: nat, f: nat, count: nat): (r: seq<Src>)
    ensures |r| == w + (if count >= 2 then f else 0)
  {
    Span(IoVec(0, w), true) + (if count >= 2 then Span(IoVec(0, f), false) else [])
  }

  /** What process_write hands to write(): both iovecs from their start,
      nothing sent yet, all of the response to send. */
  function Fresh(w: nat, f: nat, count: nat): Sending
  {
    Sending(IoVec(0, w), IoVec(0, f), count, w + (if count >= 2 then f else 0), 0, w)
  }

  /** The state of the corrected loop after `have` bytes of the response:
      the vector is the rest of the response. */
  predicate Sent(s: Sending, w: nat, f: nat)
  {
    var all := Whole(w, f, s.ivCount);
    s.writeIdx == w && 1 <= s.ivCount <= 2 &&
    0 <= s.haveSend <= |all| && s.toSend == |all| - s.haveSend &&
    (s.haveSend < w ==> s.iv0 == IoVec(s.haveSend, w - s.haveSend) && (s.ivCount == 2 ==> s.iv1 == IoVec(0, f))) &&
    (s.haveSend >= w ==> s.iv0.len <= 0 && s.iv1 == IoVec(s.haveSend - w, s.toSend))
  }

  /** In that state writev gathers exactly the rest of the response. */
  lemma VectorIsRest(s: Sending, w: nat, f: nat)
    requires Sent(s, w, f)
    ensures Vector(s) == Whole(w, f, s.ivCount)[s.haveSend..]
  {
    var all := Whole(w, f, s.ivCount);
    var h := s.haveSend;
    var v := Vector(s);
    assert |v| == |all| - h;
    forall k | 0 <= k < |v|
      ensures v[k] == all[h + k]
    {
      if h + k < w {
        assert v[k] == Hdr(h + k);
      } else {
        assert all[h + k] == Body(h + k - w);
      }
    }
  }

  /** A writev of `t` bytes, bookkept the corrected way, keeps the state. */
  lemma StepFixedKeepsSent(s: Sending, w: nat, f: nat, t: nat)
    requires Sent(s, w, f) && t <= s.toSend
    ensures Sent(StepFixed(s, t), w, f)
  {
  }

  lemma SliceJoin<T>(a: seq<T>, i: int, j: int, k: int)
    requires 0 <= i <= j <= k <= |a|
    ensures a[i..k] == a[i..j] + a[j..k]
  {
  }

  /** A writev of `t` bytes sends the next `t` bytes of the response and,
      bookkept the corrected way, keeps the state. */
  lemma FixedRound(s: Sending, w: nat, f: nat, t: nat)
    requires Sent(s, w, f) && t <= |Vector(s)|
    ensures t <= s.toSend && Sent(StepFixed(s, t), w, f)
    ensures Vector(s)[..t] == Whole(w, f, s.ivCount)[s.haveSend..s.haveSend + t]
  {
    VectorIsRest(s, w, f);
    StepFixedKeepsSent(s, w, f, t);
  }

  /** One round of the loop on a non-empty vector whose writev is accepted. */
  lemma AcceptRound(mode: Bookkeeping, s: Sending, answers: seq<Answer>)
    requires |Vector(s)| > 0 && answers != [] && answers[0].Accept?
    ensures var t := Min(answers[0].n, |Vector(s)|);
            var s1 := Step(mode, s, t);
            WriteLoop(mode, s, answers) ==
              if s1.toSend <= 0 then (Finished, s1, Vector(s)[..t])
              else (WriteLoop(mode, s1, answers[1..]).0, WriteLoop(mode, s1, answers[1..]).1,
                    Vector(s)[..t] + WriteLoop(mode, s1, answers[1..]).2)
  {
  }

  /** With the corrected bookkeeping the vector is empty only once the
      whole response is out, and then the loop finishes. */
  lemma FixedEmptyVector(s: Sending, w: nat, f: nat, answers: seq<Answer>)
    requires Sent(s, w, f) && |Vector(s)| == 0
    ensures s.haveSend == |Whole(w, f, s.ivCount)|
    ensures WriteLoop(Fixed, s, answers) == (Finished, StepFixed(s, 0), []) && Sent(StepFixed(s, 0), w, f)
  {
    VectorIsRest(s, w, f);
    StepFixedKeepsSent(s, w, f, 0);
  }

  /** The corrected loop sends the response in order, byte for byte, from
      where it stands: never an iovec of stray bytes and never a stall; and
      when it finishes, it has sent all of it. */
  lemma {:induction false} FixedLoopDelivers(s: Sending, w: nat, f: nat, answers: seq<Answer>)
    requires Sent(s, w, f)
    ensures WriteLoop(Fixed, s, answers).0 != Spins && Sent(WriteLoop(Fixed, s, answers).1, w, f)
    ensures WriteLoop(Fixed, s, answers).2 == Whole(w, f, s.ivCount)[s.haveSend..WriteLoop(Fixed, s, answers).1.haveSend]
    ensures WriteLoop(Fixed, s, answers).0 == Finished ==> WriteLoop(Fixed, s, answers).1.haveSend == |Whole(w, f, s.ivCount)|
    decreases |answers|, 1
  {
    if |Vector(s)| == 0 {
      FixedEmptyVector(s, w, f, answers);
    } else if answers == [] || !answers[0].Accept? {
      assert WriteLoop(Fixed, s, answers) == (if answers == [] || answers[0] == WouldBlock then Again else Broken, s, []);
    } else {
      FixedAcceptDelivers(s, w, f, answers);
    }
  }

  /** One accepted round of the corrected loop, and the rest of the loop
      after it. */
  lemma {:induction false} FixedAcceptDelivers(s: Sending, w: nat, f: nat, answers: seq<Answer>)
    requires Sent(s, w, f) && |Vector(s)| > 0 && answers != [] && answers[0].Accept?
    ensures WriteLoop(Fixed, s, answers).0 != Spins && Sent(WriteLoop(Fixed, s, answers).1, w, f)
    ensures WriteLoop(Fixed, s, answers).2 == Whole(w, f, s.ivCount)[s.haveSend..WriteLoop(Fixed, s, answers).1.haveSend]
    ensures WriteLoop(Fixed, s, answers).0 == Finished ==> WriteLoop(Fixed, s, answers).1.haveSend == |Whole(w, f, s.ivCount)|
    decreases |answers|, 0
  {
    var t := Min(answers[0].n, |Vector(s)|);
    FixedRound(s, w, f, t);
    AcceptRound(Fixed, s, answers);
    var s1 := StepFixed(s, t);
    var all := Whole(w, f, s.ivCount);
    if s1.toSend > 0 {
      FixedLoopDelivers(s1, w, f, answers[1..]);
      var r1 := WriteLoop(Fixed, s1, answers[1..]);
      SliceJoin(all, s.haveSend, s1.haveSend, r1.1.haveSend);
      assert WriteLoop(Fixed, s, answers) == (r1.0, r1.1, all[s.haveSend..s1.haveSend] + r1.2);
    } else {
      assert WriteLoop(Fixed, s, answers) == (Finished, s1, all[s.haveSend..s1.haveSend]);
    }
  }

  /** From what process_write prepares, the corrected write() sends the
      header block and then the file, each exactly once and in order,
      whatever the socket accepts at each call; once write() reports
      everything sent, the client has received the whole response. */
  lemma FixedWriteDelivers(w: nat, f: nat, count: nat, answers: seq<Answer>)
    requires 1 <= count <= 2 && 0 < w
    ensures var r := Write(Fixed, Fresh(w, f, count), answers);
            r.0 != Spins && r.0 != Idle &&
            0 <= r.1.haveSend <= |Whole(w, f, count)| && r.2 == Whole(w, f, count)[..r.1.haveSend] &&
            (r.0 == Finished ==> r.2 == Whole(w, f, count))
  {
    var s := Fresh(w, f, count);
    assert Sent(s, w, f);
    FixedLoopDelivers(s, w, f, answers);
    var r := WriteLoop(Fixed, s, answers);
    assert Whole(w, f, count)[..r.1.haveSend] == Whole(w, f, count)[0..r.1.haveSend];
  }

  // ---------------------------------------------------------------------
  // The bookkeeping as written

  /** A 100-byte header block and a 10-byte file, with the socket taking 40,
      then 30, then all remaining bytes: the second writev leaves
      bytes_have_send at 70, past the shrunk header length 60, so the last
      30 header bytes are never sent, and the third writev starts 30 bytes
      before the mapped file. write() still reports everything sent. */
  lemma AsWrittenSkipsHeaderTail()
    ensures var r := Write(AsWritten, Fresh(100, 10, 2), [Accept(40), Accept(30), Accept(200)]);
            r.0 == Finished && |r.2| == 110 && r.2[70] == Body(-30) &&
            r.2 != Whole(100, 10, 2)
  {
    var s0 := Fresh(100, 10, 2);
    var s1 := StepAsWritten(s0, 40);
    assert s1.iv0 == IoVec(40, 60) && s1.toSend == 70;
    assert Vector(s1)[..30] == Span(IoVec(40, 60), true)[..30];
    var s2 := StepAsWritten(s1, 30);
    assert s2.iv0.len == 0 && s2.iv1 == IoVec(-30, 40) && s2.toSend == 40;
    assert Vector(s2) == Span(IoVec(-30, 40), false);
    var s3 := StepAsWritten(s2, 40);
    assert s3.toSend == 0;
    var r2 := WriteLoop(AsWritten, s2, [Accept(200)]);
    assert r2 == (Finished, s3, Vector(s2)[..40]);
    var r1 := WriteLoop(AsWritten, s1, [Accept(30), Accept(200)]);
    assert r1.2 == Vector(s1)[..30] + Vector(s2)[..40];
    var r := WriteLoop(AsWritten, s0, [Accept(40), Accept(30), Accept(200)]);
    assert r.2 == Vector(s0)[..40] + r1.2;
    assert r.2[70] == Vector(s2)[0] == Body(-30);
    assert Whole(100, 10, 2)[70] == Hdr(70);
  }

  /** An error page of 100 bytes, with the socket taking 40 and then 30:
      the header iovec is emptied though 30 bytes remain, and with one
      iovec there is nothing else to send, so the loop spins. */
  lemma AsWrittenSpinsOnErrorPage()
    ensures Write(AsWritten, Fresh(100, 0, 1), [Accept(40), Accept(30)]).0 == Spins
  {
    var s0 := Fresh(100, 0, 1);
    var s1 := StepAsWritten(s0, 40);
    assert s1.iv0 == IoVec(40, 60) && s1.toSend == 60;
    var s2 := StepAsWritten(s1, 30);
    assert s2.iv0.len == 0 && s2.toSend == 30 && |Vector(s2)| == 0;
    var s3 := StepAsWritten(s2, 0);
    assert |Vector(s3)| == 0 && s3.toSend == 30;
    assert WriteLoop(AsWritten, s2, []).0 == Spins;
  }

  /** A spinning loop is stuck for good: another empty writev and its
      bookkeeping change nothing, in both versions. */
  lemma SpinIsStuck(mode: Bookkeeping, s: Sending, answers: seq<Answer>)
    requires s.haveSend >= 0 && WriteLoop(mode, s, answers).0 == Spins
    ensures var s1 := WriteLoop(mode, s, answers).1;
            |Vector(s1)| == 0 && Step(mode, s1, 0) == s1 && s1.toSend > 0
    decreases |answers|, if |Vector(s)| == 0 then 1 else 0
  {
    var v := Vector(s);
    if |v| == 0 {
      var s1 := Step(mode, s, 0);
      if s1.toSend > 0 && |Vector(s1)| != 0 {
        SpinIsStuck(mode, s1, answers);
      }
    } else if answers != [] && answers[0].Accept? {
      var t := Min(answers[0].n, |v|);
      var s1 := Step(mode, s, t);
      if s1.toSend > 0 {
        SpinIsStuck(mode, s1, answers[1..]);
      }
    }
  }
}

/**
 * robust_send and robust_recv of the branch server: the retry loops around
 * send(2) and recv(2). Each loop is a method proved against a function that
 * follows the same steps over the oracle's script; the lemmas state what the
 * loops promise.
 */
module RobustIo {

  import opened Libc
  import opened Net

  // ---------------------------------------------------------------- robust_send

  /**
   * What robust_send does once `sent` bytes of `data` have been accepted:
   * hand the unsent tail to send(2), retry on EINTR, stop with -1 on any
   * other error, advance the cursor by what was accepted.
   */
  function SendFrom(c: Connection, data: seq<char>, sent: nat): (res: (int, Connection))
    requires sent <= |data|
    ensures res.0 == |data| || res.0 == -1
    ensures res.1.recvSteps == c.recvSteps
    decreases |c.sendSteps|
  {
    if sent == |data| then (sent, c)
    else
      var (ret, next) := Send(c, data[sent..]);
      match ret
      case Fail(e) => if e == EINTR then SendFrom(next, data, sent) else (-1, next)
      case Done(n) => SendFrom(next, data, sent + n)
  }

  /** robust_send(fd, buf, count): the partial-send loop with its cursor `sent`. */
  method RobustSend(c: Connection, buf: seq<char>, count: nat) returns (r: int, c': Connection)
    requires count <= |buf|
    ensures (r, c') == SendFrom(c, buf[..count], 0)
  {
    var sent: nat := 0;
    c' := c;
    while sent < count
      invariant sent <= count
      invariant SendFrom(c', buf[..count], sent) == SendFrom(c, buf[..count], 0)
      decreases |c'.sendSteps|
    {
      assert buf[sent..count] == buf[..count][sent..];
      var (ret, next) := Send(c', buf[sent..count]);
      c' := next;
      match ret
      case Fail(e) =>
        if e == EINTR {
          continue;
        }
        return -1, c';
      case Done(n) =>
        sent := sent + n;
    }
    return sent, c';
  }

  /**
   * robust_send touches only the send side: the recv script is kept, the
   * send script is consumed from the front, and the logs only grow.
   */
  lemma {:induction false} SendFromFrame(c: Connection, data: seq<char>, sent: nat)
    requires sent <= |data|
    ensures var c' := SendFrom(c, data, sent).1;
      && c'.recvSteps == c.recvSteps
      && c.offered <= c'.offered
      && c.delivered <= c'.delivered
      && |c'.sendSteps| <= |c.sendSteps|
      && c'.sendSteps == c.sendSteps[|c.sendSteps| - |c'.sendSteps|..]
    decreases |c.sendSteps|
  {
    if sent < |data| {
      var (ret, next) := Send(c, data[sent..]);
      if !(ret.Fail? && ret.errno != EINTR) {
        var sent' := if ret.Done? then sent + ret.n else sent;
        SendFromFrame(next, data, sent');
      }
    }
  }

  /**
   * The result is the whole count or -1; on success exactly the unsent bytes
   * were delivered, on failure only a proper prefix of them.
   */
  lemma {:induction false} SendFromOutcome(c: Connection, data: seq<char>, sent: nat)
    requires sent <= |data|
    ensures var (r, c') := SendFrom(c, data, sent);
      && (r == |data| || r == -1)
      && (r == |data| ==> c'.delivered == c.delivered + data[sent..])
      && (r == -1 ==> c'.delivered < c.delivered + data[sent..])
    decreases |c.sendSteps|
  {
    if sent < |data| {
      var (ret, next) := Send(c, data[sent..]);
      match ret
      case Fail(e) =>
        if e == EINTR {
          SendFromOutcome(next, data, sent);
        }
      case Done(n) =>
        SendFromOutcome(next, data, sent + n);
        assert next.delivered + data[sent + n..] == c.delivered + data[sent..] by {
          assert data[sent..][..n] + data[sent + n..] == data[sent..];
        }
    }
  }

  /**
   * The buffers robust_send hands to send(2), from position `sent` on: each is
   * a non-empty tail of `data` (they all end at the count), the first is the
   * whole unsent tail, and a later one never starts before an earlier one.
   */
  ghost predicate TailsOf(log: seq<seq<char>>, data: seq<char>, sent: nat)
    requires sent <= |data|
  {
    && (forall i :: 0 <= i < |log| ==> 0 < |log[i]| <= |data| - sent && log[i] == data[|data| - |log[i]|..])
    && (forall i, j :: 0 <= i < j < |log| ==> |log[j]| <= |log[i]|)
    && (log != [] ==> log[0] == data[sent..])
  }

  /** Offering the unsent tail before a run of later tails keeps them consecutive tails. */
  lemma TailsOfCons(log: seq<seq<char>>, data: seq<char>, sent: nat, sent': nat)
    requires sent <= sent' <= |data| && sent < |data|
    requires TailsOf(log, data, sent')
    ensures TailsOf([data[sent..]] + log, data, sent)
  {
    var log' := [data[sent..]] + log;
    forall i, j | 0 <= i < j < |log'| ensures |log'[j]| <= |log'[i]| {
      if i > 0 {
        assert log'[i] == log[i - 1] && log'[j] == log[j - 1];
      } else {
        assert log'[j] == log[j - 1];
      }
    }
  }

  /** robust_send offers send(2) only consecutive tails of its buffer, and none once all is sent. */
  lemma {:induction false} SendFromOffersTails(c: Connection, data: seq<char>, sent: nat)
    requires sent <= |data|
    ensures var c' := SendFrom(c, data, sent).1;
      && c.offered <= c'.offered
      && TailsOf(c'.offered[|c.offered|..], data, sent)
      && (sent < |data| <==> |c'.offered| > |c.offered|)
    decreases |c.sendSteps|
  {
    if sent < |data| {
      var (ret, next) := Send(c, data[sent..]);
      var c' := SendFrom(c, data, sent).1;
      var sent' := if ret.Done? then sent + ret.n else sent;
      if ret.Fail? && ret.errno != EINTR {
        assert c' == next;
        assert c'.offered[|c.offered|..] == [data[sent..]];
      } else {
        assert c' == SendFrom(next, data, sent').1;
        SendFromOffersTails(next, data, sent');
        var rest := c'.offered[|next.offered|..];
        assert c'.offered[|c.offered|..] == [data[sent..]] + rest;
        TailsOfCons(rest, data, sent, sent');
      }
    }
  }

  /** An EINTR answer is retried with the very same slice: the cursor does not move. */
  lemma InterruptRetriesSameSlice(c: Connection, data: seq<char>, sent: nat)
    requires sent < |data|
    requires c.sendSteps != [] && c.sendSteps[0] == SendErr(EINTR)
    ensures var c' := SendFrom(c, data, sent).1;
      && |c'.offered| >= |c.offered| + 2
      && c'.offered[|c.offered|] == data[sent..]
      && c'.offered[|c.offered| + 1] == data[sent..]
  {
    var next := Send(c, data[sent..]).1;
    SendFromOffersTails(next, data, sent);
  }

  /** Any error other than EINTR ends robust_send at once with -1, nothing more sent. */
  lemma ErrorStopsSend(c: Connection, data: seq<char>, sent: nat)
    requires sent < |data|
    requires c.sendSteps != [] && c.sendSteps[0].SendErr? && c.sendSteps[0].errno != EINTR
    ensures SendFrom(c, data, sent)
         == (-1, c.(sendSteps := c.sendSteps[1..], offered := c.offered + [data[sent..]]))
  {
  }

  /** The record of offered buffers plays no part in what robust_send returns or delivers. */
  lemma {:induction false} OfferLogIrrelevant(c: Connection, log: seq<seq<char>>, data: seq<char>, sent: nat)
    requires sent <= |data|
    ensures SendFrom(c.(offered := log), data, sent).0 == SendFrom(c, data, sent).0
    ensures SendFrom(c.(offered := log), data, sent).1.delivered == SendFrom(c, data, sent).1.delivered
    decreases |c.sendSteps|
  {
    if sent < |data| {
      var (ret, next) := Send(c, data[sent..]);
      var (ret', next') := Send(c.(offered := log), data[sent..]);
      assert ret' == ret;
      assert next' == next.(offered := log + [data[sent..]]);
      var sent' := if ret.Done? then sent + ret.n else sent;
      if !(ret.Fail? && ret.errno != EINTR) {
        OfferLogIrrelevant(next, log + [data[sent..]], data, sent');
      }
    }
  }

  /** The connection whose send script has one more EINTR answer, at position `i`. */
  function WithInterruptAt(c: Connection, i: nat): Connection
    requires i <= |c.sendSteps|
  {
    c.(sendSteps := c.sendSteps[..i] + [SendErr(EINTR)] + c.sendSteps[i..])
  }

  /** An EINTR answer queued behind the first one does not change the first send(2). */
  lemma SendBeforeInterrupt(c: Connection, buf: seq<char>, i: nat)
    requires 0 < i <= |c.sendSteps|
    ensures Send(WithInterruptAt(c, i), buf).0 == Send(c, buf).0
    ensures Send(WithInterruptAt(c, i), buf).1 == WithInterruptAt(Send(c, buf).1, i - 1)
  {
    var c2 := WithInterruptAt(c, i);
    assert c2.sendSteps[0] == c.sendSteps[0];
    assert c2.sendSteps[1..] == c.sendSteps[1..][..i - 1] + [SendErr(EINTR)] + c.sendSteps[1..][i - 1..];
  }

  /** When the kernel has room for all of it, one send(2) delivers the whole buffer. */
  lemma RoomForAllSendsOnce(c: Connection, data: seq<char>, room: nat)
    requires c.sendSteps != [] && c.sendSteps[0] == SendRoom(room) && |data| <= room
    ensures SendFrom(c, data, 0).0 == |data|
    ensures SendFrom(c, data, 0).1.delivered == c.delivered + data
    ensures data != [] ==> SendFrom(c, data, 0).1.sendSteps == c.sendSteps[1..]
  {
    if data != [] {
      var (ret, next) := Send(c, data[0..]);
      assert data[0..] == data && ret == Done(|data|);
      assert SendFrom(c, data, 0) == SendFrom(next, data, |data|);
    }
  }

  /** An EINTR answer before the send script only costs one retry of the same slice. */
  lemma LeadingInterruptIsTransparent(c: Connection, data: seq<char>, sent: nat)
    requires sent < |data|
    ensures var c2 := c.(sendSteps := [SendErr(EINTR)] + c.sendSteps);
      && SendFrom(c2, data, sent).0 == SendFrom(c, data, sent).0
      && SendFrom(c2, data, sent).1.delivered == SendFrom(c, data, sent).1.delivered
  {
    var c2 := c.(sendSteps := [SendErr(EINTR)] + c.sendSteps);
    var next2 := Send(c2, data[sent..]).1;
    assert next2 == c.(offered := c.offered + [data[sent..]]);
    assert SendFrom(c2, data, sent) == SendFrom(next2, data, sent);
    OfferLogIrrelevant(c, c.offered + [data[sent..]], data, sent);
  }

  /**
   * Interruptions are transparent: an EINTR answer inserted anywhere in the
   * send script changes neither robust_send's result nor the bytes delivered.
   */
  lemma {:induction false} InterruptIsTransparent(c: Connection, data: seq<char>, sent: nat, i: nat)
    requires sent <= |data| && i <= |c.sendSteps|
    ensures SendFrom(WithInterruptAt(c, i), data, sent).0 == SendFrom(c, data, sent).0
    ensures SendFrom(WithInterruptAt(c, i), data, sent).1.delivered == SendFrom(c, data, sent).1.delivered
    decreases |c.sendSteps|
  {
    var c2 := WithInterruptAt(c, i);
    if sent < |data| && i == 0 {
      assert c2 == c.(sendSteps := [SendErr(EINTR)] + c.sendSteps);
      LeadingInterruptIsTransparent(c, data, sent);
    } else if sent < |data| {
      var (ret, next) := Send(c, data[sent..]);
      SendBeforeInterrupt(c, data[sent..], i);
      var next2 := WithInterruptAt(next, i - 1);
      if !(ret.Fail? && ret.errno != EINTR) {
        var sent' := if ret.Done? then sent + ret.n else sent;
        assert SendFrom(c, data, sent) == SendFrom(next, data, sent');
        assert SendFrom(c2, data, sent) == SendFrom(next2, data, sent');
        InterruptIsTransparent(next, data, sent', i - 1);
      }
    }
  }

  // ---------------------------------------------------------------- robust_recv

  /** How many answers at the front of a recv script are EINTR failures. */
  function LeadingInterrupts(steps: seq<RecvStep>): (k: nat)
    ensures k <= |steps|
    ensures forall i :: 0 <= i < k ==> steps[i] == RecvErr(EINTR)
    ensures k < |steps| ==> steps[k] != RecvErr(EINTR)
  {
    if steps != [] && steps[0] == RecvErr(EINTR) then 1 + LeadingInterrupts(steps[1..]) else 0
  }

  /**
   * What robust_recv returns: the first answer of recv(2) that is not an EINTR
   * failure, unchanged (-1 for an error, else the byte count), the bytes read,
   * and the connection after it.
   */
  function RecvFrom(c: Connection, count: nat): (res: (int, seq<char>, Connection))
    ensures res.0 == -1 || 0 <= res.0 == |res.1| <= count
    ensures res.0 == -1 ==> res.1 == []
  {
    var k := LeadingInterrupts(c.recvSteps);
    var (ret, bytes, next) := Recv(c.(recvSteps := c.recvSteps[k..]), count);
    (if ret.Fail? then -1 else ret.n, bytes, next)
  }

  /** robust_recv(fd, buf, count): retry recv(2) for as long as it is interrupted. */
  method RobustRecv(c: Connection, buf: array<char>, count: nat) returns (r: int, c': Connection)
    requires count <= buf.Length
    modifies buf
    ensures var (r0, bytes, after) := RecvFrom(c, count);
      && r == r0 && c' == after
      && buf[..|bytes|] == bytes
      && buf[|bytes|..] == old(buf[|bytes|..])
  {
    c' := c;
    ghost var i: nat := 0;
    while true
      invariant i <= LeadingInterrupts(c.recvSteps)
      invariant c' == c.(recvSteps := c.recvSteps[i..])
      invariant buf[..] == old(buf[..])
      decreases |c'.recvSteps|
    {
      var (ret, bytes, next) := Recv(c', count);
      if ret.Fail? && ret.errno == EINTR {
        c', i := next, i + 1;
        continue;
      }
      assert i == LeadingInterrupts(c.recvSteps);
      forall j | 0 <= j < |bytes| {
        buf[j] := bytes[j];
      }
      c' := next;
      r := if ret.Fail? then -1 else ret.n;
      return;
    }
  }

  /**
   * robust_recv never returns an EINTR failure: every answer it skipped was
   * EINTR, an error it returns is the first non-EINTR answer, and the bytes it
   * returns come from that answer. The send side is not touched.
   */
  lemma RecvFromIsFirstResult(c: Connection, count: nat)
    ensures var (r, bytes, c') := RecvFrom(c, count);
      var k := LeadingInterrupts(c.recvSteps);
      && (forall i :: 0 <= i < k ==> c.recvSteps[i] == RecvErr(EINTR))
      && (r == -1 || (0 <= r == |bytes| <= count))
      && (r == -1 <==> k < |c.recvSteps| && c.recvSteps[k].RecvErr?)
      && (r == -1 ==> c.recvSteps[k].errno != EINTR)
      && (r >= 0 && k < |c.recvSteps| ==> bytes <= c.recvSteps[k].bytes)
      && (r >= 0 && k == |c.recvSteps| ==> r == 0)
      && c'.sendSteps == c.sendSteps && c'.offered == c.offered && c'.delivered == c.delivered
  {
  }
}

/**
 * handle_client of the branch server: read one request of at most 127 bytes,
 * accept it only if its C string contains REQUEST, summarise the CSV file and
 * send either the fixed error reply or the formatted four-line reply. The
 * branch identifier and the file are the server's arguments; atof and the
 * `%.2f` formatting of the subtotal are parameters.
 */
module Responder {

  import opened Libc
  import opened Net
  import opened RobustIo
  import opened CsvSummary

  /** Size of handle_client's `char req[128]`; one byte is kept for the NUL. */
  const RequestBufferSize: nat := 128
  /** Size of handle_client's `char out[512]`, the snprintf buffer. */
  const OutBufferSize: nat := 512

  const RequestToken: seq<char> := "REQUEST"
  const ErrorReply: seq<char> := "ERROR: cannot read CSV\nEND\n"

  /** Length of the fixed parts of the reply: labels, newlines and the END line. */
  const ReplyFraming: nat := |"BRANCH_ID: "| + |"\nRECORDS: "| + |"\nSUBTOTAL: "| + |"\nEND\n"|

  /** The text `"BRANCH_ID: %s\nRECORDS: %d\nSUBTOTAL: %.2f\nEND\n"` formats to, before any cut. */
  function ReplyText(branchId: seq<char>, t: Totals, fmt: real -> seq<char>): (text: seq<char>)
    ensures |text| == ReplyFraming + |CStr(branchId)| + |FormatInt(t.count)| + |fmt(t.subtotal)|
    ensures "BRANCH_ID: " <= text && text[|text| - 5..] == "\nEND\n"
    ensures NUL !in fmt(t.subtotal) ==> NUL !in text
  {
    var fields := CStr(branchId) + "\nRECORDS: " + FormatInt(t.count) + "\nSUBTOTAL: " + fmt(t.subtotal);
    assert |"BRANCH_ID: " + fields| == |"BRANCH_ID: "| + |fields|;
    "BRANCH_ID: " + fields + "\nEND\n"
  }

  /**
   * The bytes robust_send is asked to send for a reply: snprintf keeps at most
   * 511 characters of the text in `out`, and strlen stops at the first NUL.
   */
  function ReplyWire(text: seq<char>): (wire: seq<char>)
    ensures wire <= text && |wire| < OutBufferSize && NUL !in wire
    ensures NUL !in text ==> wire == text[..Min(|text|, OutBufferSize - 1)]
  {
    CStr(text[..Min(|text|, OutBufferSize - 1)])
  }

  /** A text that fits `out` with its NUL and holds no NUL is sent whole. */
  lemma FittingReplyIsWhole(text: seq<char>)
    requires |text| < OutBufferSize && NUL !in text
    ensures ReplyWire(text) == text
  {
    assert text[..|text|] == text;
    CStrOfNulFree(text);
  }

  /**
   * A reply short enough for `out` goes out whole, so it ends with the END
   * line the collector waits for.
   */
  lemma ShortReplyIsWhole(branchId: seq<char>, t: Totals, fmt: real -> seq<char>)
    requires ReplyFraming + |CStr(branchId)| + |FormatInt(t.count)| + |fmt(t.subtotal)| < OutBufferSize
    requires NUL !in fmt(t.subtotal)
    ensures var text := ReplyText(branchId, t, fmt);
      ReplyWire(text) == text && text[|text| - 5..] == "\nEND\n"
  {
    FittingReplyIsWhole(ReplyText(branchId, t, fmt));
  }

  /**
   * snprintf cuts a reply whose branch identifier is very long: what is sent
   * is the first 511 characters of the BRANCH_ID line, with no RECORDS,
   * SUBTOTAL or END line.
   */
  lemma LongBranchIdCutsReply(branchId: seq<char>, t: Totals, fmt: real -> seq<char>)
    requires |CStr(branchId)| >= OutBufferSize
    ensures ReplyWire(ReplyText(branchId, t, fmt)) == ("BRANCH_ID: " + CStr(branchId))[..OutBufferSize - 1]
  {
    var head := "BRANCH_ID: " + CStr(branchId);
    var text := ReplyText(branchId, t, fmt);
    assert text[..OutBufferSize - 1] == head[..OutBufferSize - 1];
    assert NUL !in head;
    CStrOfNulFree(head[..OutBufferSize - 1]);
  }

  /** strstr(req, "REQUEST") succeeds on the request as received. */
  predicate IsRequest(received: seq<char>): (b: bool)
    ensures b <==> exists j: nat :: OccursAt(CStr(received), RequestToken, j)
  {
    var found := StrStr(CStr(received), RequestToken);
    assert found.Some? ==> OccursAt(CStr(received), RequestToken, found.value);
    found.Some?
  }

  /** The request line the collector sends is accepted. */
  lemma RequestLineAccepted()
    ensures IsRequest("REQUEST\n")
  {
    var line := "REQUEST\n";
    CStrOfNulFree(line);
    assert line[0..|RequestToken|] == RequestToken;
    assert SearchFrom(line, RequestToken, 0) == Some(0);
  }

  /**
   * Nothing after a NUL matters: strstr stops at the end of the C string, so a
   * REQUEST behind the NUL is not seen.
   */
  lemma RequestEndsAtNul(prefix: seq<char>, rest: seq<char>)
    ensures IsRequest(prefix + [NUL] + rest) <==> IsRequest(prefix)
  {
    CStrUpToNul(prefix, rest);
  }

  /** What handle_client returns and leaves on the connection. */
  function ClientOutcome(c: Connection, branchId: seq<char>, csv: Option<seq<char>>,
                         atof: seq<char> -> real, fmt: real -> seq<char>): (res: (int, Connection))
    ensures res.0 == 0 || res.0 == -1
    ensures res.1.recvSteps == RecvFrom(c, RequestBufferSize - 1).2.recvSteps
  {
    var (r, received, c1) := RecvFrom(c, RequestBufferSize - 1);
    if r <= 0 || !IsRequest(received) then (-1, c1)
    else match Summarise(csv, atof)
      case None => (-1, SendFrom(c1, ErrorReply, 0).1)
      case Some(t) => (0, SendFrom(c1, ReplyWire(ReplyText(branchId, t, fmt)), 0).1)
  }

  /**
   * The first half of handle_client: read the request into `req`, put the
   * NUL after it, and look for REQUEST in the C string. `accepted` is false
   * when robust_recv returned -1 or 0 or REQUEST is missing.
   */
  method ReadRequest(c: Connection) returns (accepted: bool, c': Connection)
    ensures var (r, received, c1) := RecvFrom(c, RequestBufferSize - 1);
      c' == c1 && (accepted <==> r > 0 && IsRequest(received))
  {
    var req := new char[RequestBufferSize];
    var r;
    r, c' := RobustRecv(c, req, RequestBufferSize - 1);
    ghost var (_, received, _) := RecvFrom(c, RequestBufferSize - 1);
    if r <= 0 {
      return false, c';
    }
    req[r] := NUL;
    assert req[..] == received + [NUL] + req[r + 1..];
    CStrUpToNul(received, req[r + 1..]);
    accepted := StrStr(CStr(req[..]), RequestToken).Some?;
  }

  /**
   * The reply half of handle_client: snprintf the four lines into `out`
   * (512 bytes) and robust_send strlen(out) bytes of it.
   */
  method SendReply(c: Connection, branchId: seq<char>, t: Totals, fmt: real -> seq<char>)
    returns (c': Connection)
    ensures c' == SendFrom(c, ReplyWire(ReplyText(branchId, t, fmt)), 0).1
  {
    var out := new char[OutBufferSize];
    var text := ReplyText(branchId, t, fmt);
    var k := Min(|text|, OutBufferSize - 1);
    forall i | 0 <= i < k {
      out[i] := text[i];
    }
    out[k] := NUL;
    assert out[..] == text[..k] + [NUL] + out[k + 1..];
    CStrUpToNul(text[..k], out[k + 1..]);
    var len := |CStr(out[..])|;
    assert out[..][..len] == ReplyWire(text);
    var _, after := RobustSend(c, out[..], len);
    return after;
  }

  /** handle_client(cfd, branch_id, csvfile). */
  method HandleClient(c: Connection, branchId: seq<char>, csv: Option<seq<char>>,
                      atof: seq<char> -> real, fmt: real -> seq<char>)
    returns (rc: int, c': Connection)
    ensures (rc, c') == ClientOutcome(c, branchId, csv, atof, fmt)
  {
    var accepted;
    accepted, c' := ReadRequest(c);
    if !accepted {
      return -1, c';
    }
    var subtotal: real := 0.0;
    var count: int := 0;
    var status;
    status, subtotal, count := ComputeSubtotal(csv, atof, subtotal, count);
    if status != 0 {
      assert ErrorReply[..|ErrorReply|] == ErrorReply;
      var _, after := RobustSend(c', ErrorReply, |ErrorReply|);
      return -1, after;
    }
    c' := SendReply(c', branchId, Totals(count, subtotal), fmt);
    return 0, c';
  }

  // ---------------------------------------------------------------- properties

  /**
   * The connection after robust_send has been given `msg` once, reporting
   * `sendResult`: every buffer handed to send(2) was a tail of `msg` (at
   * least one when `msg` is not empty), the peer received a prefix of `msg`,
   * and all of it exactly when robust_send reported the full count.
   */
  ghost predicate SentOnce(c: Connection, c': Connection, msg: seq<char>, sendResult: int)
  {
    && c.offered <= c'.offered
    && TailsOf(c'.offered[|c.offered|..], msg, 0)
    && (msg != [] <==> |c'.offered| > |c.offered|)
    && c.delivered <= c'.delivered <= c.delivered + msg
    && (sendResult == |msg| || sendResult == -1)
    && (c'.delivered == c.delivered + msg <==> sendResult == |msg|)
  }

  lemma SendFromSendsOnce(c: Connection, msg: seq<char>)
    ensures SentOnce(c, SendFrom(c, msg, 0).1, msg, SendFrom(c, msg, 0).0)
    ensures SendFrom(c, msg, 0).1.recvSteps == c.recvSteps
  {
    SendFromOutcome(c, msg, 0);
    SendFromFrame(c, msg, 0);
    SendFromOffersTails(c, msg, 0);
    assert msg[0..] == msg;
  }

  /**
   * When robust_recv returns -1 or 0, or the received C string has no
   * REQUEST, handle_client returns -1 and hands nothing to send(2).
   */
  lemma IgnoredRequestSendsNothing(c: Connection, branchId: seq<char>, csv: Option<seq<char>>,
                                   atof: seq<char> -> real, fmt: real -> seq<char>)
    requires var (r, received, _) := RecvFrom(c, RequestBufferSize - 1); r <= 0 || !IsRequest(received)
    ensures var (rc, c') := ClientOutcome(c, branchId, csv, atof, fmt);
      rc == -1 && c'.sendSteps == c.sendSteps && c'.offered == c.offered && c'.delivered == c.delivered
  {
    RecvFromIsFirstResult(c, RequestBufferSize - 1);
  }

  /**
   * After a valid request, when the CSV cannot be summarised, handle_client
   * sends the error reply (and nothing else) and returns -1.
   */
  lemma UnreadableCsvGetsErrorReply(c: Connection, branchId: seq<char>, csv: Option<seq<char>>,
                                    atof: seq<char> -> real, fmt: real -> seq<char>)
    requires var (r, received, _) := RecvFrom(c, RequestBufferSize - 1); r > 0 && IsRequest(received)
    requires Summarise(csv, atof).None?
    ensures var (rc, c') := ClientOutcome(c, branchId, csv, atof, fmt);
      var c1 := RecvFrom(c, RequestBufferSize - 1).2;
      rc == -1 && SentOnce(c, c', ErrorReply, SendFrom(c1, ErrorReply, 0).0)
  {
    var c1 := RecvFrom(c, RequestBufferSize - 1).2;
    RecvFromIsFirstResult(c, RequestBufferSize - 1);
    SendFromSendsOnce(c1, ErrorReply);
  }

  /**
   * After a valid request with a readable CSV, handle_client sends the
   * formatted reply (cut to what fits `out`) and nothing else, and returns 0
   * whatever robust_send reports.
   */
  lemma ValidRequestGetsReply(c: Connection, branchId: seq<char>, csv: Option<seq<char>>,
                              atof: seq<char> -> real, fmt: real -> seq<char>)
    requires var (r, received, _) := RecvFrom(c, RequestBufferSize - 1); r > 0 && IsRequest(received)
    requires Summarise(csv, atof).Some?
    ensures var (rc, c') := ClientOutcome(c, branchId, csv, atof, fmt);
      var c1 := RecvFrom(c, RequestBufferSize - 1).2;
      var reply := ReplyWire(ReplyText(branchId, Summarise(csv, atof).value, fmt));
      rc == 0 && SentOnce(c, c', reply, SendFrom(c1, reply, 0).0)
  {
    var c1 := RecvFrom(c, RequestBufferSize - 1).2;
    RecvFromIsFirstResult(c, RequestBufferSize - 1);
    SendFromSendsOnce(c1, ReplyWire(ReplyText(branchId, Summarise(csv, atof).value, fmt)));
  }

  /**
   * The return code is decided before anything is sent: 0 exactly for an
   * accepted request with a readable CSV, -1 otherwise, and the same
   * whatever send(2) answers.
   */
  lemma ReturnCodeIgnoresSend(c: Connection, steps: seq<SendStep>, branchId: seq<char>,
                              csv: Option<seq<char>>, atof: seq<char> -> real, fmt: real -> seq<char>)
    ensures var (r, received, _) := RecvFrom(c, RequestBufferSize - 1);
      var rc := ClientOutcome(c, branchId, csv, atof, fmt).0;
      && (rc == 0 || rc == -1)
      && (rc == 0 <==> r > 0 && IsRequest(received) && Summarise(csv, atof).Some?)
      && ClientOutcome(c.(sendSteps := steps), branchId, csv, atof, fmt).0 == rc
  {
    var c2 := c.(sendSteps := steps);
    var k := LeadingInterrupts(c.recvSteps);
    assert c2.(recvSteps := c2.recvSteps[k..]) == c.(recvSteps := c.recvSteps[k..]).(sendSteps := steps);
  }

  /** The request line arriving in one piece is read whole, and leaves nothing queued. */
  lemma RequestLineRead(c: Connection)
    requires c.recvSteps == [RecvData("REQUEST\n")]
    ensures var (r, received, c1) := RecvFrom(c, RequestBufferSize - 1);
      r == 8 && received == "REQUEST\n" && c1 == c.(recvSteps := [])
  {
    assert LeadingInterrupts(c.recvSteps) == 0;
    assert c.recvSteps[0..] == c.recvSteps;
    assert "REQUEST\n"[..8] == "REQUEST\n";
  }

  /**
   * One exchange with the collector: it sends "REQUEST\n" in one piece and
   * the kernel has room for a whole reply; the collector then receives the
   * complete reply and handle_client returns 0.
   */
  lemma CollectorExchange(c: Connection, branchId: seq<char>, csv: Option<seq<char>>,
                          atof: seq<char> -> real, fmt: real -> seq<char>)
    requires c.recvSteps == [RecvData("REQUEST\n")] && c.sendSteps == [SendRoom(OutBufferSize)]
    requires Summarise(csv, atof).Some?
    ensures var (rc, c') := ClientOutcome(c, branchId, csv, atof, fmt);
      rc == 0 && c'.delivered == c.delivered + ReplyWire(ReplyText(branchId, Summarise(csv, atof).value, fmt))
  {
    RequestLineRead(c);
    RequestLineAccepted();
    var c1 := c.(recvSteps := []);
    var reply := ReplyWire(ReplyText(branchId, Summarise(csv, atof).value, fmt));
    RoomForAllSendsOnce(c1, reply, OutBufferSize);
  }
}

/**
 * The connected socket seen from the branch server, as an oracle. The kernel's
 * answers to send(2) and recv(2) are not known to the program: they are given
 * in advance as scripts that each call consumes from the front. errno is
 * folded into the answer. The connection also records every buffer handed to
 * send(2) and the byte stream the kernel accepted for the peer.
 */
module Net {

  import opened Libc

  /** errno for "interrupted by a signal" (Linux value). */
  const EINTR: int := 4
  /** errno for writing to a connection the peer has shut down (Linux value). */
  const EPIPE: int := 32

  /** One answer of send(2): an error, or room for at most `room` bytes. */
  datatype SendStep = SendErr(errno: int) | SendRoom(room: nat)

  /** One answer of recv(2): an error, or bytes from the peer ([] is end of stream). */
  datatype RecvStep = RecvErr(errno: int) | RecvData(bytes: seq<char>)

  /** A system call's result: -1 with errno, or a byte count. */
  datatype SysRet = Fail(errno: int) | Done(n: nat)

  datatype Connection = Connection(
    recvSteps: seq<RecvStep>,   // answers recv(2) will give, in order
    sendSteps: seq<SendStep>,   // answers send(2) will give, in order
    offered: seq<seq<char>>,    // every buffer handed to send(2) so far
    delivered: seq<char>)       // the bytes send(2) accepted so far

  /**
   * send(2): accepts a prefix of `buf` (at most the room the kernel has) or
   * fails and accepts nothing. Once its script is used up the peer is gone
   * and every send fails with EPIPE.
   */
  function Send(c: Connection, buf: seq<char>): (res: (SysRet, Connection))
    ensures res.1.offered == c.offered + [buf]
    ensures res.1.recvSteps == c.recvSteps
    ensures res.0.Done? ==> res.0.n <= |buf| && res.1.delivered == c.delivered + buf[..res.0.n]
    ensures res.0.Fail? ==> res.1.delivered == c.delivered
    ensures c.sendSteps == [] ==> res.0 == Fail(EPIPE) && res.1.sendSteps == []
    ensures c.sendSteps != [] ==> res.1.sendSteps == c.sendSteps[1..]
  {
    var next := c.(offered := c.offered + [buf]);
    if c.sendSteps == [] then (Fail(EPIPE), next)
    else
      var next := next.(sendSteps := c.sendSteps[1..]);
      match c.sendSteps[0]
      case SendErr(e) => (Fail(e), next)
      case SendRoom(room) =>
        var n := Min(room, |buf|);
        (Done(n), next.(delivered := c.delivered + buf[..n]))
  }

  /**
   * recv(2) into a buffer of `count` bytes: at most `count` bytes of the next
   * answer; what does not fit stays queued for the next call. Once its script
   * is used up the peer has closed and recv reports end of stream (0).
   */
  function Recv(c: Connection, count: nat): (res: (SysRet, seq<char>, Connection))
    ensures res.0.Done? ==> |res.1| == res.0.n <= count
    ensures res.0.Fail? ==> res.1 == []
    ensures res.0.Fail? ==> c.recvSteps != [] && c.recvSteps[0] == RecvErr(res.0.errno)
    ensures res.0.Fail? ==> res.2.recvSteps == c.recvSteps[1..]
    ensures res.0.Done? && c.recvSteps != [] ==> c.recvSteps[0].RecvData? && res.1 <= c.recvSteps[0].bytes
    ensures res.2.sendSteps == c.sendSteps && res.2.offered == c.offered && res.2.delivered == c.delivered
  {
    if c.recvSteps == [] then (Done(0), [], c)
    else match c.recvSteps[0]
      case RecvErr(e) => (Fail(e), [], c.(recvSteps := c.recvSteps[1..]))
      case RecvData(bytes) =>
        var n := Min(|bytes|, count);
        var rest := if n < |bytes| then [RecvData(bytes[n..])] + c.recvSteps[1..] else c.recvSteps[1..];
        (Done(n), bytes[..n], c.(recvSteps := rest))
  }
}

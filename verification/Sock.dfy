/** Buffered socket output over a transport that may send any part of what it is given, or fail. */
module Sock {
  import opened Bytes
  import opened Power
  import opened RingQ

  datatype Errno = EINTR | EWOULDBLOCK | EAGAIN | EOTHER

  /** What the operating system answers to one send. */
  datatype SendResult = Sent(n: nat) | Failed(err: Errno)

  datatype Mask = Mask(readable: bool, writable: bool, exception: bool)

  datatype SavedMask = NoMask | Saved(mask: Mask)

  datatype Status = Progress | Blocked | Broken

  /** The answer to send number `i`; after the last one of the script every send fails. */
  function Answer(script: seq<SendResult>, i: nat): SendResult {
    if i < |script| then script[i] else Failed(EOTHER)
  }

  /** What the sending loop makes of an error code. */
  function Meaning(err: Errno): Status {
    if err == EINTR then Progress else if err == EWOULDBLOCK || err == EAGAIN then Blocked else Broken
  }

  /** A send that takes nothing counts as one that would block. */
  function Verdict(answer: SendResult): (v: Status)
    ensures v == Broken <==> answer == Failed(EOTHER)
    ensures v == Progress <==> answer == Failed(EINTR) || (answer.Sent? && answer.n > 0)
  {
    match answer
    case Sent(n) => if n == 0 then Blocked else Progress
    case Failed(err) => Meaning(err)
  }

  function Rest(script: seq<SendResult>, n: nat): seq<SendResult> {
    if n <= |script| then script[n..] else []
  }

  lemma RestNext(script: seq<SendResult>, n: nat)
    ensures Answer(Rest(script, n), 0) == Answer(script, n) && Rest(Rest(script, n), 1) == Rest(script, n + 1)
    ensures Rest(script, n) != [] ==> |Rest(script, n + 1)| < |Rest(script, n)|
  {
  }

  /** The first `n` sends all get something done, or are interrupted. */
  ghost predicate AllProgress(script: seq<SendResult>, n: nat) {
    forall i :: 0 <= i < n ==> Verdict(Answer(script, i)) == Progress
  }

  /** None of the first `n` sends fails for good. */
  ghost predicate NoneBroken(script: seq<SendResult>, n: nat) {
    forall i :: 0 <= i < n ==> Verdict(Answer(script, i)) != Broken
  }

  lemma ProgressMore(script: seq<SendResult>, n: nat)
    ensures AllProgress(script, 0)
    ensures AllProgress(script, n + 1) <==> AllProgress(script, n) && Verdict(Answer(script, n)) == Progress
  {
  }

  /** What the answers to one flush add to those before it. */
  lemma FlushedMore(script: seq<SendResult>, n: nat, more: nat, broken: bool)
    requires NoneBroken(script, n) && 0 < more && AllProgress(Rest(script, n), more - 1)
    requires broken <==> Verdict(Answer(Rest(script, n), more - 1)) == Broken
    ensures Rest(Rest(script, n), more) == Rest(script, n + more)
    ensures NoneBroken(script, n + more - 1) && (broken <==> Verdict(Answer(script, n + more - 1)) == Broken)
    ensures !broken ==> NoneBroken(script, n + more) && |Rest(script, n + more)| < |Rest(script, n)|
  {
    hide Verdict;
    forall i | n <= i < n + more ensures Answer(script, i) == Answer(Rest(script, n), i - n) {
    }
    LastAnswer(Rest(script, n), more - 1);
  }

  lemma PrefixGrows(before: seq<byte>, bs: seq<byte>, n: nat, m: nat)
    requires n + m <= |bs|
    ensures before + bs[..n] + bs[n..n + m] == before + bs[..n + m]
  {
    assert bs[..n + m] == bs[..n] + bs[n..n + m];
  }

  lemma RestAll(script: seq<SendResult>)
    ensures Rest(script, 0) == script && NoneBroken(script, 0)
  {
  }

  lemma LastAnswer(script: seq<SendResult>, i: nat)
    ensures |script| <= i ==> Verdict(Answer(script, i)) == Broken
  {
  }

  class Socket {
    const outBuf: RingQ
    const block: bool
    var flushing: bool
    var saveMask: SavedMask
    var handlerMask: Mask

    // The answers the system has yet to give; a send after the last one fails.
    var script: seq<SendResult>
    // All bytes ever taken from callers, and all bytes handed to the system.
    ghost var accepted: seq<byte>
    ghost var sent: seq<byte>
    // The events the socket's user asked for.
    ghost var userMask: Mask

    ghost predicate Valid()
      reads this, outBuf
    {
      && outBuf.Valid()
      && (saveMask == NoMask ==> handlerMask == userMask)
      && (saveMask != NoMask ==> saveMask == Saved(userMask) && handlerMask == userMask.(writable := true))
    }

    /** Nothing is lost, doubled or reordered on the way out. */
    ghost predicate Conserved()
      reads this, outBuf, outBuf.buf
      requires Valid()
    {
      sent + outBuf.Contents() == accepted
    }

    constructor (block: bool, bufSize: nat, mask: Mask, script: seq<SendResult>)
      ensures Valid() && Conserved() && accepted == [] && this.block == block && userMask == mask
      ensures fresh(outBuf) && fresh(outBuf.buf)
    {
      this.block := block;
      outBuf := new RingQ(bufSize, bufSize);
      flushing, saveMask, handlerMask := false, NoMask, mask;
      this.script := script;
      accepted, sent, userMask := [], [], mask;
    }

    /** One send of up to `toWrite` bytes; `err` says why none were taken. */
    method DoOutput(toWrite: nat) returns (bytesWritten: int, err: Errno)
      requires Valid() && 0 < toWrite && outBuf.servp + toWrite <= outBuf.buf.Length
      modifies this`script, this`sent
      ensures Valid() && script == Rest(old(script), 1)
      ensures match Answer(old(script), 0)
        case Failed(e) => bytesWritten == -1 && err == e && sent == old(sent)
        case Sent(n) =>
          if n == 0 then bytesWritten == -1 && err == EWOULDBLOCK && sent == old(sent)
          else
            && bytesWritten == (if n < toWrite then n else toWrite)
            && sent == old(sent) + outBuf.buf[outBuf.servp..outBuf.servp + bytesWritten]
      ensures Verdict(Answer(old(script), 0)) == if bytesWritten > 0 then Progress else Meaning(err)
    {
      err := EOTHER;
      if script == [] {
        return -1, EOTHER;
      }
      var answer := script[0];
      script := script[1..];
      match answer {
        case Failed(e) =>
          return -1, e;
        case Sent(n) =>
          bytesWritten := if n < toWrite then n else toWrite;
          if bytesWritten == 0 {
            return -1, EWOULDBLOCK;
          }
          sent := sent + outBuf.buf[outBuf.servp..outBuf.servp + bytesWritten];
      }
    }

    /** One send: progress, a system that will take no more for now, or a failure. */
    method SendRun() returns (status: Status)
      requires Valid() && Conserved() && outBuf.Contents() != []
      modifies this`script, this`sent, outBuf`servp
      ensures Valid() && Conserved() && old(sent) <= sent
      ensures status == Verdict(Answer(old(script), 0)) && script == Rest(old(script), 1)
      ensures Answer(old(script), 0).Failed? || status == Blocked ==> outBuf.Contents() == old(outBuf.Contents())
      ensures Answer(old(script), 0).Sent? && status == Progress ==> |outBuf.Contents()| < |old(outBuf.Contents())|
    {
      hide Window, Pow2, Verdict, Answer, Rest;
      var n := outBuf.GetBlkMax();
      var bytesWritten, err := DoOutput(n);
      if bytesWritten < 0 {
        return if err == EINTR then Progress else if err == EWOULDBLOCK || err == EAGAIN then Blocked else Broken;
      }
      Consume(old(sent), n, bytesWritten);
      status := Progress;
    }

    /** Drops the `k` bytes a send took from a straight run of `n` at the front. */
    method Consume(ghost before: seq<byte>, ghost n: nat, k: nat)
      requires Valid() && 0 < k <= n <= |outBuf.Contents()| && outBuf.servp + n <= outBuf.buf.Length
      requires outBuf.buf[outBuf.servp..outBuf.servp + n] == outBuf.Contents()[..n]
      requires sent == before + outBuf.buf[outBuf.servp..outBuf.servp + k] && before + outBuf.Contents() == accepted
      modifies outBuf`servp
      ensures Valid() && Conserved() && |outBuf.Contents()| < |old(outBuf.Contents())|
    {
      hide Window, Pow2, Slot;
      Dispatched(before, n, k);
      outBuf.GetBlkAdj(k);
    }

    /** What is at the front of the buffer is what the send took. */
    lemma Dispatched(sent: seq<byte>, n: nat, k: nat)
      requires outBuf.Valid() && k <= n <= |outBuf.Contents()| && outBuf.servp + n <= outBuf.buf.Length
      requires outBuf.buf[outBuf.servp..outBuf.servp + n] == outBuf.Contents()[..n]
      ensures sent + outBuf.buf[outBuf.servp..outBuf.servp + k] + outBuf.Contents()[k..] == sent + outBuf.Contents()
    {
      hide Window, Pow2;
      var run := outBuf.buf[outBuf.servp..outBuf.servp + n];
      assert outBuf.buf[outBuf.servp..outBuf.servp + k] == run[..k];
      Handover(sent, run, outBuf.Contents(), n, k);
    }

    lemma Handover(sent: seq<byte>, run: seq<byte>, rest: seq<byte>, n: nat, k: nat)
      requires |run| == n <= |rest| && run == rest[..n] && k <= n
      ensures sent + run[..k] + rest[k..] == sent + rest
    {
      assert run[..k] == rest[..k];
    }

    /** Asks for the writable event, keeping the user's own mask to put back later. */
    method AwaitWritable()
      requires Valid()
      modifies this`saveMask, this`handlerMask
      ensures Valid() && saveMask != NoMask
    {
      if saveMask == NoMask {
        saveMask := Saved(handlerMask);
        handlerMask := handlerMask.(writable := true);
      }
    }

    method RestoreMask()
      requires Valid()
      modifies this`saveMask, this`handlerMask
      ensures Valid() && saveMask == NoMask
    {
      if saveMask != NoMask {
        handlerMask := saveMask.mask;
        saveMask := NoMask;
      }
    }

    /**
     Sends until the buffer is empty or the system will take no more. Success with
     bytes left over means the socket is registered for the writable event; success
     with none left restores the user's own events. It fails exactly if the last of
     its `sends` failed for another reason than an interrupt or a full system.
     */
    method Flush() returns (rc: int, ghost sends: nat)
      requires Valid() && Conserved()
      modifies this`flushing, this`saveMask, this`handlerMask, this`script, this`sent
      modifies outBuf`servp, outBuf`endp, outBuf.buf
      ensures Valid() && Conserved() && old(sent) <= sent
      ensures rc == 0 || rc == -1
      ensures rc == 0 && outBuf.Contents() == [] ==> saveMask == NoMask && !flushing
      ensures rc == 0 && outBuf.Contents() != [] ==> saveMask != NoMask && (block || flushing)
      ensures script == Rest(old(script), sends) && (sends == 0 ==> old(outBuf.Contents()) == [] && rc == 0)
      ensures sends > 0 ==> AllProgress(old(script), sends - 1) && Verdict(Answer(old(script), sends - 1))
                            == if rc == -1 then Broken else if outBuf.Contents() != [] then Blocked else Progress
    {
      hide Window, Pow2, Verdict, Answer, Rest, AllProgress;
      RestAll(script);
      ProgressMore(script, 0);
      if !block {
        flushing := true;
      }
      var len := outBuf.Len();
      sends := 0;
      while len > 0
        invariant Valid() && Conserved() && old(sent) <= sent && len == |outBuf.Contents()|
        invariant flushing == (old(flushing) || !block)
        invariant script == Rest(old(script), sends) && (sends == 0 ==> outBuf.Contents() == old(outBuf.Contents()))
        invariant AllProgress(old(script), sends)
        decreases |script|, len
      {
        RestNext(old(script), sends);
        LastAnswer(script, 0);
        ProgressMore(old(script), sends);
        var status := SendRun();
        sends := sends + 1;
        if status == Blocked {
          AwaitWritable();
          return 0, sends;
        }
        if status == Broken {
          return -1, sends;
        }
        len := outBuf.Len();
      }
      if sends > 0 {
        ProgressMore(old(script), sends - 1);
      }
      Settle();
      rc := 0;
    }

    /** Everything has been sent: the buffer starts over and the user's own events are back. */
    method Settle()
      requires Valid() && Conserved() && outBuf.Contents() == []
      modifies this`flushing, this`saveMask, this`handlerMask, outBuf`servp, outBuf`endp, outBuf.buf
      ensures Valid() && Conserved() && outBuf.Contents() == [] && saveMask == NoMask && !flushing
    {
      hide Window, Pow2;
      outBuf.Flush();
      RestoreMask();
      flushing := false;
    }

    /**
     Buffers as many bytes as it can, flushing when full. A result k >= 0 means
     exactly the first k bytes were accepted; on -1 the prefix `took` was. It fails
     exactly if one of its `sends`, then the last, is answered by a real failure.
     */
    method Write(buf: array<byte>, bufSize: nat) returns (rc: int, ghost took: nat, ghost sends: nat)
      requires Valid() && Conserved() && bufSize <= buf.Length && buf != outBuf.buf
      modifies this, outBuf, outBuf.buf
      ensures Valid() && Conserved() && userMask == old(userMask) && outBuf.buf == old(outBuf.buf)
      ensures took <= bufSize && accepted == old(accepted) + buf[..took] && buf[..] == old(buf[..])
      ensures rc == -1 || rc == took
      ensures 0 <= rc < bufSize ==> !block && outBuf.Room() == 0 && saveMask != NoMask
      ensures script == Rest(old(script), sends) && (rc >= 0 ==> NoneBroken(old(script), sends))
      ensures rc == -1 ==>
                sends > 0 && NoneBroken(old(script), sends - 1) && Verdict(Answer(old(script), sends - 1)) == Broken
    {
      hide Window, Pow2, Verdict, Answer, Rest, NoneBroken, AllProgress;
      RestAll(script);
      took, sends := 0, 0;
      var bytesWritten := 0;
      while bytesWritten < bufSize
        invariant Valid() && Conserved() && userMask == old(userMask) && outBuf.buf == old(outBuf.buf)
        invariant took == bytesWritten <= bufSize && accepted == old(accepted) + buf[..took] && buf[..] == old(buf[..])
        invariant script == Rest(old(script), sends) && NoneBroken(old(script), sends)
        decreases |script|, bufSize - bytesWritten
      {
        var room := outBuf.PutBlkMax();
        if room == 0 {
          var flushed, more := Flush();
          FlushedMore(old(script), sends, more, flushed < 0);
          sends := sends + more;
          if flushed < 0 {
            return -1, took, sends;
          }
          room := outBuf.PutBlkMax();
          if room == 0 {
            if block {
              continue;
            }
            break;
          }
          continue;
        }
        var len := if room < bufSize - bytesWritten then room else bufSize - bytesWritten;
        Accept(buf, bytesWritten, len);
        PrefixGrows(old(accepted), buf[..], took, len);
        bytesWritten := bytesWritten + len;
        took := bytesWritten;
      }
      rc := bytesWritten;
    }

    /** Buffers bytes for which there is room without growing. */
    method Accept(buf: array<byte>, off: nat, len: nat)
      requires Valid() && Conserved() && off + len <= buf.Length && buf != outBuf.buf && len <= outBuf.Room()
      modifies this`accepted, outBuf, outBuf.buf
      ensures Valid() && Conserved() && outBuf.buf == old(outBuf.buf)
      ensures accepted == old(accepted) + buf[off..off + len] && buf[..] == old(buf[..])
    {
      hide Window, Pow2;
      var n := outBuf.PutBlk(buf, off, len);
      accepted := accepted + buf[off..off + len];
    }
  }
}

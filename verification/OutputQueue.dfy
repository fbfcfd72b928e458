/** The connection object's output side: a queue of chunks that conn_output fills and conn_drain empties. */
module OutputQueue {
  import opened Bytes
  import opened Wire
  import opened Protocol

  const MAX_BUF_SPACE := 8192

  class Chunk {
    var next: Chunk?
    const buf: seq<byte>
    var used: nat

    constructor (buf: seq<byte>)
      ensures next == null && this.buf == buf && used == 0
    {
      next, this.buf, used := null, buf, 0;
    }
  }

  datatype Written = Wrote(n: nat) | Again | Failed

  /** One call of write(2): how many bytes it was offered, and what came of it. */
  datatype Attempt = Attempt(offered: nat, answer: Written)

  predicate FellShort(a: Attempt) { a.answer.Wrote? ==> a.answer.n < a.offered }

  class Conn {
    var outQueue: Chunk?
    /** out_queue_tail: the chunk whose `next` it addresses, null when it addresses out_queue itself. */
    var tail: Chunk?
    var wroteEof: bool
    var wroteErr: bool
    /** Copies handed to conn_send, in order. */
    var sent: seq<Seg>
    ghost var chunks: seq<Chunk>
    ghost var accepted: seq<byte>
    /** Everything write(2) has taken on stdout, changed by Write alone. */
    ghost var written: seq<byte>
    /** The latest call of write(2), likewise. */
    ghost var last: Attempt

    /** write(2): takes some prefix of the bytes, refuses for now (EAGAIN), or fails for good. */
    method Write(buf: seq<byte>) returns (r: Written)
      modifies this`written, this`last
      ensures r.Wrote? ==> r.n <= |buf| && written == old(written) + buf[..r.n]
      ensures !r.Wrote? ==> written == old(written)
      ensures last == Attempt(|buf|, r)
    {
      r :| r.Wrote? ==> r.n <= |buf|;
      last := Attempt(|buf|, r);
      if r.Wrote? {
        written := written + buf[..r.n];
      }
    }

    static ghost function Nth(s: seq<Chunk>, i: int): Chunk? { if 0 <= i < |s| then s[i] else null }

    static ghost predicate Chained(s: seq<Chunk>)
      reads s
    {
      && (forall i, j :: 0 <= i < j < |s| ==> s[i] != s[j])
      && (forall i {:trigger s[i].next} :: 0 <= i < |s| ==> s[i].next == Nth(s, i + 1))
      && (forall i {:trigger s[i].used} :: 0 <= i < |s| ==> s[i].used <= |s[i].buf|)
    }

    /** The bytes of the queue that write() has not taken. */
    static ghost function Unwritten(s: seq<Chunk>): seq<byte>
      requires forall i :: 0 <= i < |s| ==> s[i].used <= |s[i].buf|
      reads s`used
    {
      if s == [] then [] else s[0].buf[s[0].used..] + Unwritten(s[1..])
    }

    /** The tail pointer addresses the null end of the queue, and no accepted byte is lost, doubled or reordered. */
    ghost predicate Valid()
      reads this`outQueue, this`tail, this`chunks, this`accepted, this`written, chunks
    {
      && Chained(chunks) && outQueue == Nth(chunks, 0) && tail == Nth(chunks, |chunks| - 1)
      && accepted == written + Unwritten(chunks)
    }

    ghost function Out(): Output
      reads this`accepted, this`wroteEof, this`wroteErr
    {
      Output(accepted, wroteEof, wroteErr)
    }

    constructor ()
      ensures Valid() && Out() == Output([], false, false) && sent == [] && fresh(chunks)
    {
      outQueue, tail, wroteEof, wroteErr, sent := null, null, false, false, [];
      chunks, accepted, written := [], [], [];
    }

    ghost function Room(): (r: nat)
      requires Valid()
      reads this`outQueue, this`tail, this`chunks, this`accepted, this`written, chunks
    {
      var u := |Unwritten(chunks)|;
      if u > MAX_BUF_SPACE then 0 else MAX_BUF_SPACE - u
    }

    method BufSpace() returns (r: nat)
      requires Valid()
      ensures r == Room()
      ensures r == if |Unwritten(chunks)| > 8192 then 0 else 8192 - |Unwritten(chunks)|
    {
      var used, chunk := 0, outQueue;
      ghost var i := 0;
      while chunk != null
        invariant 0 <= i <= |chunks| && chunk == Nth(chunks, i)
        invariant used + |Unwritten(chunks[i..])| == |Unwritten(chunks)|
        decreases |chunks| - i
      {
        assert chunks[i..][1..] == chunks[i + 1..];
        used := used + (|chunk.buf| - chunk.used);
        chunk, i := chunk.next, i + 1;
      }
      r := if used > MAX_BUF_SPACE then 0 else MAX_BUF_SPACE - used;
    }

    static lemma {:induction false} UnwrittenAppend(s: seq<Chunk>, c: Chunk)
      requires forall i :: 0 <= i < |s| ==> s[i].used <= |s[i].buf|
      requires c.used == 0
      ensures Unwritten(s + [c]) == Unwritten(s) + c.buf
    {
      if s == [] {
        assert s + [c] == [c] && [c][1..] == [];
      } else {
        assert (s + [c])[1..] == s[1..] + [c];
        UnwrittenAppend(s[1..], c);
      }
    }

    /** Links a new chunk through the tail pointer. */
    method Enqueue(buf: seq<byte>)
      requires Chained(chunks) && outQueue == Nth(chunks, 0) && tail == Nth(chunks, |chunks| - 1)
      modifies this`outQueue, this`tail, this`chunks, chunks`next
      ensures Chained(chunks) && outQueue == Nth(chunks, 0) && tail == Nth(chunks, |chunks| - 1)
      ensures forall c :: c in chunks ==> c in old(chunks) || fresh(c)
      ensures Unwritten(chunks) == old(Unwritten(chunks)) + buf
    {
      hide Unwritten;
      var chunk := new Chunk(buf);
      if tail == null {
        outQueue := chunk;
      } else {
        tail.next := chunk;
      }
      tail := chunk;
      ghost var was := chunks;
      chunks := was + [chunk];
      ChainedAppend(was, chunk, chunks);
      UnwrittenAppend(was, chunk);
    }

    static lemma ChainedAppend(s: seq<Chunk>, c: Chunk, r: seq<Chunk>)
      requires r == s + [c] && c !in s && c.next == null && c.used <= |c.buf|
      requires forall i, j :: 0 <= i < j < |s| ==> s[i] != s[j]
      requires forall i {:trigger s[i].next} :: 0 <= i < |s| ==> s[i].next == Nth(r, i + 1)
      requires forall i {:trigger s[i].used} :: 0 <= i < |s| ==> s[i].used <= |s[i].buf|
      ensures Chained(r)
    {
      forall i | 0 <= i < |r|
        ensures r[i].next == Nth(r, i + 1) && r[i].used <= |r[i].buf|
      {
        assert i == |s| || r[i] == s[i];
      }
    }

    /** conn_output; `writeFails` reports whether write() failed for good. */
    method ConnOutput(buf: seq<byte>) returns (r: int, ghost writeFails: bool)
      requires Valid()
      modifies this`outQueue, this`tail, this`wroteEof, this`wroteErr, this`chunks, this`accepted, this`written, this`last
      modifies chunks`next
      ensures Valid() && Out() == Accept(old(Out()), buf, old(Room()), writeFails)
      ensures forall c :: c in chunks ==> c in old(chunks) || fresh(c)
      ensures old(written) <= written
      ensures r == if old(wroteEof) || buf == [] then 0 else if wroteErr then -1 else if old(Room()) == 0 then 0 else |buf|
    {
      assert outQueue == null ==> Unwritten(chunks) == [];
      hide Chained;
      hide Unwritten;
      writeFails := false;
      if wroteEof {
        return 0, false;
      }
      if |buf| == 0 {
        wroteEof := true;
        return 0, false;
      }
      if wroteErr {
        return -1, false;
      }
      var room := BufSpace();
      if room == 0 {
        return 0, false;
      }
      var left := buf;
      if outQueue == null {
        var w := Write(buf);
        if w.Failed? {
          wroteErr := true;
          return -1, true;
        }
        if w.Wrote? {
          left := buf[w.n..];
        }
      }
      accepted := accepted + buf;
      QueueRest(left);
      return |buf|, false;
    }

    /** Puts what write() did not take in the queue. */
    method QueueRest(left: seq<byte>)
      requires Chained(chunks) && outQueue == Nth(chunks, 0) && tail == Nth(chunks, |chunks| - 1)
      requires accepted == written + Unwritten(chunks) + left
      modifies this`outQueue, this`tail, this`chunks, chunks`next
      ensures Valid()
      ensures forall c :: c in chunks ==> c in old(chunks) || fresh(c)
    {
      if left != [] {
        Enqueue(left);
      }
    }

    static lemma FirstChunk(s: seq<Chunk>)
      requires Chained(s) && s != []
      ensures Chained(s[1..]) && s[0].next == Nth(s[1..], 0) && Nth(s[1..], |s[1..]| - 1) == (if |s| == 1 then null else s[|s| - 1])
      ensures s[0].used <= |s[0].buf| && Unwritten(s) == s[0].buf[s[0].used..] + Unwritten(s[1..])
    {
    }

    /** conn_drain, before its call of ctcp_output: it writes as far as write() lets it. */
    method Drain()
      requires Valid()
      modifies this`outQueue, this`tail, this`wroteErr, this`chunks, this`written, this`last, chunks`used
      ensures Valid() && Out() == old(Out()).(err := wroteErr)
      ensures old(wroteErr) ==> wroteErr && chunks == old(chunks) && written == old(written)
      ensures !old(wroteErr) ==>
        if chunks != [] then FellShort(last) && (wroteErr <==> last.answer.Failed?) else wroteErr <==> wroteEof
      ensures old(written) <= written
      ensures forall c :: c in chunks ==> c in old(chunks)
    {
      hide Chained;
      hide Unwritten;
      if wroteErr {
        return;
      }
      while outQueue != null
        invariant Valid() && !wroteErr && wroteEof == old(wroteEof) && old(written) <= written
        invariant forall c: Chunk :: c in chunks ==> c in old(chunks)
        decreases |chunks|
      {
        var chunk: Chunk := outQueue;
        FirstChunk(chunks);
        assert chunk in chunks;
        var w := WriteFrom(chunk);
        if !w.Wrote? {
          wroteErr := w.Failed?;
          break;
        }
        if chunk.used < |chunk.buf| {
          break;
        }
        Dequeue(chunk);
      }
      if wroteEof && !wroteErr && outQueue == null {
        wroteErr := true;
      }
    }

    /** The first chunk has been written in full. */
    method Dequeue(c: Chunk)
      requires Valid() && chunks != [] && c == chunks[0] && c.used == |c.buf|
      modifies this`outQueue, this`tail, this`chunks
      ensures Valid() && chunks == old(chunks)[1..]
    {
      FirstChunk(chunks);
      outQueue := c.next;
      if outQueue == null {
        tail := null;
      }
      chunks := chunks[1..];
    }

    /** Offers the rest of the first chunk to write(). */
    method WriteFrom(c: Chunk) returns (w: Written)
      requires Valid() && chunks != [] && c == chunks[0] && c.used <= |c.buf|
      modifies this`written, this`last, c`used
      ensures last == Attempt(|c.buf| - old(c.used), w)
      ensures Valid() && old(written) <= written && c.used == old(c.used) + (if w.Wrote? then w.n else 0) <= |c.buf|
    {
      w := Write(c.buf[c.used..]);
      if w.Wrote? {
        c.used := c.used + w.n;
      }
    }
  }
}

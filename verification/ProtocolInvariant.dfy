/** What one endpoint keeps at every event boundary, whatever segments reach it. */
module ProtocolInvariant {
  import opened Bytes
  import opened Wire
  import opened Protocol

  /** Segments laid end to end over the sequence numbers lo .. hi. */
  predicate Contiguous(q: seq<Seg>, lo: int, hi: int)
  {
    if q == [] then lo == hi else q[0].seqno == lo && Contiguous(q[1..], End(q[0]), hi)
  }

  /** The payload is the stretch of the input that the sequence number names; byte 0 of the input has number 1. */
  predicate Quotes(s: Seg, input: seq<byte>)
  {
    |s.data| <= MAX_SEG_DATA_SIZE && 1 <= s.seqno && End(s) <= 1 + |input| && s.data == input[s.seqno - 1..End(s) - 1]
  }

  ghost predicate AllQuote(q: seq<Seg>, input: seq<byte>)
  {
    forall i :: 0 <= i < |q| ==> Quotes(q[i], input)
  }

  predicate SameBytes(s: Seg, t: Seg) { s.seqno == t.seqno && s.data == t.data }

  ghost predicate AllSame(q: seq<Seg>, r: seq<Seg>)
  {
    |q| == |r| && forall i :: 0 <= i < |q| ==> SameBytes(q[i], r[i])
  }

  function Last(first: seq<Seg>, n: nat): seq<Seg>
    requires n <= |first|
  {
    first[|first| - n..]
  }

  function Unacknowledged(sw: Sender): int { if sw.queue == [] then sw.seqno else sw.queue[0].seqno }

  const LIMIT := 0x8000_0000

  /** ctcp_send has transmitted, once each and in order, segments that partition the bytes read. */
  ghost predicate Numbered(sw: Sender)
  {
    && 1 <= sw.seqno < LIMIT && |sw.input| == sw.seqno - 1
    && Contiguous(sw.first, 1, sw.seqno) && AllQuote(sw.first, sw.input)
  }

  /** The queue is the last of those segments, apart from header fields, and none of it is unsent. */
  ghost predicate Queued(sw: Sender)
  {
    && |sw.queue| <= |sw.first| && AllSame(sw.queue, Last(sw.first, |sw.queue|))
    && (forall i :: 0 <= i < |sw.queue| ==> sw.queue[i].cksum != 0)
  }

  predicate Windowed(sw: Sender)
  {
    && sw.size == sw.seqno - Unacknowledged(sw) && 0 <= sw.size <= sw.maxSize
    && 0 <= sw.recvWin < 0x1_0000
  }

  predicate Timed(sw: Sender)
  {
    (sw.timer == -1 <==> sw.queue == []) && -1 <= sw.timer && 0 <= sw.counter <= MAX_RETRANSMISSIONS
  }

  ghost predicate SenderInv(sw: Sender) { Numbered(sw) && Queued(sw) && Windowed(sw) && Timed(sw) }

  ghost predicate Inv(e: Endpoint) { SenderInv(e.sw) && 1 <= e.rw.ackno < LIMIT }

  lemma InitInv(host: Host, sendWindow: u16, recvWindow: u16, timeout: int)
    ensures Inv(Init(host, sendWindow, recvWindow, timeout))
  {
  }

  // ---------- Contiguous segments ----------

  lemma {:induction false} ContiguousAppend(q: seq<Seg>, lo: int, hi: int, s: Seg)
    requires Contiguous(q, lo, hi) && s.seqno == hi
    ensures Contiguous(q + [s], lo, End(s))
  {
    if q == [] {
      assert q + [s] == [s];
    } else {
      assert (q + [s])[1..] == q[1..] + [s];
      ContiguousAppend(q[1..], End(q[0]), hi, s);
    }
  }

  lemma {:induction false} ContiguousFrom(q: seq<Seg>, lo: int, hi: int, k: nat)
    requires Contiguous(q, lo, hi) && k <= |q|
    ensures var mid := if k == |q| then hi else q[k].seqno;
      lo <= mid <= hi && Contiguous(q[k..], mid, hi)
      && (forall i :: 0 <= i < k ==> lo <= q[i].seqno && End(q[i]) <= mid)
      && (forall i :: k <= i < |q| ==> mid <= q[i].seqno && End(q[i]) <= hi)
  {
    if q == [] {
      assert q[k..] == q;
    } else if k == 0 {
      assert q[k..] == q;
      ContiguousFrom(q[1..], End(q[0]), hi, 0);
      assert forall i :: 1 <= i < |q| ==> q[i] == q[1..][i - 1];
    } else {
      assert q[1..][k - 1..] == q[k..];
      ContiguousFrom(q[1..], End(q[0]), hi, k - 1);
      assert forall i :: 1 <= i < |q| ==> q[i] == q[1..][i - 1];
    }
  }

  lemma {:induction false} ContiguousSame(q: seq<Seg>, r: seq<Seg>, lo: int, hi: int)
    requires Contiguous(r, lo, hi) && AllSame(q, r)
    ensures Contiguous(q, lo, hi)
  {
    if q != [] {
      assert SameBytes(q[0], r[0]);
      forall i | 0 <= i < |q[1..]|
        ensures SameBytes(q[1..][i], r[1..][i])
      {
        assert SameBytes(q[i + 1], r[i + 1]);
      }
      ContiguousSame(q[1..], r[1..], End(q[0]), hi);
    }
  }

  lemma QueueContiguous(sw: Sender)
    requires Numbered(sw) && Queued(sw)
    ensures Contiguous(sw.queue, Unacknowledged(sw), sw.seqno)
    ensures 1 <= Unacknowledged(sw) <= sw.seqno
  {
    var k := |sw.first| - |sw.queue|;
    ContiguousFrom(sw.first, 1, sw.seqno, k);
    if sw.queue != [] { assert SameBytes(sw.queue[0], sw.first[k..][0]); }
    ContiguousSame(sw.queue, sw.first[k..], Unacknowledged(sw), sw.seqno);
  }

  /** The payload bytes of a queue, counted one segment at a time as sw->size is. */
  function Total(q: seq<Seg>): nat
  {
    if q == [] then 0 else |q[0].data| + Total(q[1..])
  }

  function Payload(q: seq<Seg>): seq<byte>
  {
    if q == [] then [] else q[0].data + Payload(q[1..])
  }

  lemma {:induction false} ContiguousPayload(q: seq<Seg>, lo: int, hi: int, input: seq<byte>)
    requires Contiguous(q, lo, hi) && AllQuote(q, input) && 1 <= lo && hi <= 1 + |input|
    ensures lo <= hi && Total(q) == hi - lo && Payload(q) == input[lo - 1..hi - 1]
  {
    hide AllQuote;
    if q == [] {
      assert input[lo - 1..hi - 1] == [];
    } else {
      QuoteRest(q, input);
      ContiguousPayload(q[1..], End(q[0]), hi, input);
      TwoSlices(input, lo - 1, End(q[0]) - 1, hi - 1);
    }
  }

  lemma TwoSlices(s: seq<byte>, i: nat, j: nat, k: nat)
    requires i <= j <= k <= |s|
    ensures s[i..j] + s[j..k] == s[i..k]
  {
  }

  lemma QuoteRest(q: seq<Seg>, input: seq<byte>)
    requires AllQuote(q, input) && q != []
    ensures Quotes(q[0], input) && AllQuote(q[1..], input)
  {
    hide Quotes;
    assert Quotes(q[0], input);
    forall i | 0 <= i < |q[1..]|
      ensures Quotes(q[1..][i], input)
    {
      assert Quotes(q[i + 1], input);
    }
  }

  /** The send queue holds exactly the bytes read from the first unacknowledged one on, and sw->size counts them. */
  lemma QueueHoldsTheRest(sw: Sender)
    requires SenderInv(sw)
    ensures Payload(sw.queue) == sw.input[Unacknowledged(sw) - 1..] && Total(sw.queue) == sw.size
  {
    hide Contiguous;
    hide AllQuote;
    hide AllSame;
    QueueContiguous(sw);
    QueueQuotes(sw);
    ContiguousPayload(sw.queue, Unacknowledged(sw), sw.seqno, sw.input);
    assert sw.input[Unacknowledged(sw) - 1..sw.seqno - 1] == sw.input[Unacknowledged(sw) - 1..];
  }

  lemma QueueQuotes(sw: Sender)
    requires Numbered(sw) && Queued(sw)
    ensures AllQuote(sw.queue, sw.input)
  {
    hide Contiguous;
    forall i | 0 <= i < |sw.queue|
      ensures Quotes(sw.queue[i], sw.input)
    {
      assert SameBytes(sw.queue[i], Last(sw.first, |sw.queue|)[i]);
      assert Quotes(sw.first[|sw.first| - |sw.queue| + i], sw.input);
    }
  }

  // ---------- ctcp_send ----------

  lemma {:induction false} FlushSent(host: Host, q: seq<Seg>, ackno: u32)
    requires forall i :: 0 <= i < |q| ==> q[i].cksum != 0
    ensures Flushed(host, q, ackno) == q && Unsent(host, q, ackno) == []
  {
    hide Stamp;
    if q != [] {
      FlushSent(host, q[1..], ackno);
    }
  }

  lemma {:induction false} FlushedAt(host: Host, q: seq<Seg>, ackno: u32, i: nat)
    requires i < |q|
    ensures Flushed(host, q, ackno)[i] == if q[i].cksum == 0 then Stamp(host, q[i], ackno) else q[i]
  {
    hide Stamp;
    if i > 0 {
      FlushedAt(host, q[1..], ackno, i - 1);
    }
  }

  lemma {:induction false} UnsentOneMore(host: Host, q: seq<Seg>, ackno: u32, i: nat)
    requires i < |q|
    ensures Unsent(host, q[..i + 1], ackno)
      == Unsent(host, q[..i], ackno) + (if q[i].cksum == 0 then [Stamp(host, q[i], ackno)] else [])
  {
    hide Stamp;
    if i == 0 {
      assert q[..1][1..] == [];
    } else {
      assert q[..i + 1][1..] == q[1..][..i] && q[..i][1..] == q[1..][..i - 1];
      UnsentOneMore(host, q[1..], ackno, i - 1);
    }
  }

  /** Only the segment just queued is unsent, so ctcp_send transmits exactly that one. */
  lemma {:induction false} FlushNew(host: Host, q: seq<Seg>, s: Seg, ackno: u32)
    requires forall i :: 0 <= i < |q| ==> q[i].cksum != 0
    requires s.cksum == 0
    ensures Flushed(host, q + [s], ackno) == q + [Stamp(host, s, ackno)]
    ensures Unsent(host, q + [s], ackno) == [Stamp(host, s, ackno)]
  {
    hide Stamp;
    if q == [] {
      assert q + [s] == [s] && [s][1..] == [];
    } else {
      assert (q + [s])[1..] == q[1..] + [s];
      FlushNew(host, q[1..], s, ackno);
    }
  }

  /** The segment SEND_DATA and SEND_FIN transmit. */
  function Transmitted(host: Host, sw: Sender, ackno: int, flags: u32, data: seq<byte>, pad: u16): Seg
  {
    Stamp(host, MakeSeg(sw, ackno, flags, data, pad), ToU32(ackno))
  }

  lemma TransmittedFields(host: Host, sw: Sender, ackno: int, flags: u32, data: seq<byte>, pad: u16)
    requires 0 <= sw.seqno < LIMIT
    ensures var s := Transmitted(host, sw, ackno, flags, data, pad);
      s.seqno == sw.seqno && s.data == data && s.ackno == ToU32(ackno) && s.cksum != 0
  {
  }

  /** A sender that has queued `s` and transmitted it. */
  function Extended(sw: Sender, s: Seg, now: int): Sender
  {
    sw.(queue := sw.queue + [s], first := sw.first + [s], size := sw.size + |s.data|, seqno := sw.seqno + |s.data|,
        input := sw.input + s.data, timer := now, counter := 0)
  }

  /** Queueing a segment and calling ctcp_send transmits that segment, once, and no other. */
  lemma SendNewIsOneTransmission(host: Host, sw: Sender, ackno: int, flags: u32, data: seq<byte>, pad: u16, now: int)
    requires Queued(sw)
    ensures var s := Transmitted(host, sw, ackno, flags, data, pad);
      SendNew(host, sw, ackno, flags, data, pad, now) == Result(Extended(sw, s, now), [s])
  {
    FlushNew(host, sw.queue, MakeSeg(sw, ackno, flags, data, pad), ToU32(ackno));
  }

  lemma ExtendedInv(sw: Sender, s: Seg, now: nat)
    requires SenderInv(sw) && s.seqno == sw.seqno && s.cksum != 0
    requires End(s) < LIMIT && sw.size + |s.data| <= sw.maxSize && |s.data| <= MAX_SEG_DATA_SIZE
    ensures var r := Extended(sw, s, now);
      SenderInv(r) && Unacknowledged(r) == Unacknowledged(sw)
  {
    ContiguousAppend(sw.first, 1, sw.seqno, s);
    QuoteAppend(sw.first, sw.input, s);
    SameAppend(sw.queue, sw.first, s);
  }

  lemma SendNewInv(host: Host, sw: Sender, ackno: int, flags: u32, data: seq<byte>, pad: u16, now: nat)
    requires SenderInv(sw)
    requires sw.seqno + |data| < LIMIT && sw.size + |data| <= sw.maxSize && |data| <= MAX_SEG_DATA_SIZE
    ensures var s := Transmitted(host, sw, ackno, flags, data, pad);
      && SendNew(host, sw, ackno, flags, data, pad, now) == Result(Extended(sw, s, now), [s])
      && SenderInv(Extended(sw, s, now)) && Unacknowledged(Extended(sw, s, now)) == Unacknowledged(sw)
      && s.seqno == sw.seqno && s.data == data && s.ackno == ToU32(ackno)
  {
    var s := Transmitted(host, sw, ackno, flags, data, pad);
    SendNewIsOneTransmission(host, sw, ackno, flags, data, pad, now);
    TransmittedFields(host, sw, ackno, flags, data, pad);
    ExtendedInv(sw, s, now);
  }

  lemma QuoteAppend(q: seq<Seg>, input: seq<byte>, s: Seg)
    requires AllQuote(q, input) && s.seqno == 1 + |input| && |s.data| <= MAX_SEG_DATA_SIZE
    ensures AllQuote(q + [s], input + s.data)
  {
    hide Quotes;
    QuotesEnd(s, input);
    forall i | 0 <= i < |q + [s]|
      ensures Quotes((q + [s])[i], input + s.data)
    {
      if i < |q| {
        assert Quotes(q[i], input);
        QuotesMore(q[i], input, s.data);
      }
    }
  }

  lemma QuotesEnd(s: Seg, input: seq<byte>)
    requires s.seqno == 1 + |input| && |s.data| <= MAX_SEG_DATA_SIZE
    ensures Quotes(s, input + s.data)
  {
    assert (input + s.data)[|input|..] == s.data;
  }

  lemma QuotesMore(s: Seg, input: seq<byte>, more: seq<byte>)
    requires Quotes(s, input)
    ensures Quotes(s, input + more)
  {
    assert (input + more)[s.seqno - 1..End(s) - 1] == input[s.seqno - 1..End(s) - 1];
  }

  lemma SameAppend(q: seq<Seg>, first: seq<Seg>, s: Seg)
    requires |q| <= |first| && AllSame(q, Last(first, |q|))
    ensures AllSame(q + [s], Last(first + [s], |q| + 1))
  {
    var last := Last(first, |q|);
    assert Last(first + [s], |q| + 1) == last + [s];
    forall i | 0 <= i < |q + [s]|
      ensures SameBytes((q + [s])[i], (last + [s])[i])
    {
      if i < |q| { assert SameBytes(q[i], last[i]); }
    }
  }

  // ---------- Acknowledgement ----------

  /** Scanning the whole queue takes away exactly a prefix: every segment that ends at or below `ack`. */
  lemma {:induction false} AckRemovesPrefix(q: seq<Seg>, lo: int, hi: int, ack: int)
    requires Contiguous(q, lo, hi)
    ensures var r := Unacked(q, ack); var k := |q| - |r|;
      && r == q[k..]
      && (forall i :: 0 <= i < k ==> End(q[i]) <= ack) && (forall i :: k <= i < |q| ==> End(q[i]) > ack)
      && AckedBytes(q, ack) == (if r == [] then hi else r[0].seqno) - lo
  {
    if q == [] {
    } else if End(q[0]) > ack {
      ContiguousFrom(q, lo, hi, 1);
      KeepsAll(q, ack);
    } else {
      var rest := q[1..];
      AckRemovesPrefix(rest, End(q[0]), hi, ack);
      var k := |q| - |Unacked(q, ack)|;
      assert rest[k - 1..] == q[k..];
      forall i | 1 <= i < |q|
        ensures if i < k then End(q[i]) <= ack else End(q[i]) > ack
      {
        assert q[i] == rest[i - 1];
      }
    }
  }

  lemma {:induction false} KeepsAll(q: seq<Seg>, ack: int)
    requires forall i :: 0 <= i < |q| ==> End(q[i]) > ack
    ensures Unacked(q, ack) == q && AckedBytes(q, ack) == 0
  {
    if q != [] {
      KeepsAll(q[1..], ack);
    }
  }

  /** With nothing unsent, the ctcp_send at the end of an acknowledgement transmits nothing. */
  lemma AcknowledgeInv(host: Host, sw: Sender, received: u32, ackno: int, now: nat)
    requires SenderInv(sw)
    ensures var r := Acknowledge(host, sw, received, ackno, now);
      && SenderInv(r.s) && r.sent == []
      && r.s == sw.(queue := r.s.queue, size := r.s.size, timer := r.s.timer, counter := r.s.counter)
      && (r.s == sw || Unacknowledged(sw) <= Unacknowledged(r.s) <= ToInt32(received))
  {
    if Acceptable(sw, received) {
      var slid := Slid(sw, ToInt32(received));
      SlidInv(sw, ToInt32(received));
      FlushSent(host, slid.queue, ToU32(ackno));
      SentNothing(host, slid, ackno, now);
    }
  }

  lemma SentNothing(host: Host, sw: Sender, ackno: int, now: nat)
    requires Unsent(host, sw.queue, ToU32(ackno)) == [] && Flushed(host, sw.queue, ToU32(ackno)) == sw.queue
    ensures Send(host, sw, ackno, now)
      == Result(if sw.queue == [] then sw else sw.(timer := now, counter := 0), [])
  {
    assert sw.first + [] == sw.first;
  }

  lemma SlidInv(sw: Sender, ack: int)
    requires SenderInv(sw) && sw.queue != [] && ack >= End(sw.queue[0])
    ensures var r := Slid(sw, ack);
      Numbered(r) && Queued(r) && Windowed(r) && Unacknowledged(sw) <= Unacknowledged(r) <= ack
  {
    hide Contiguous;
    hide AllSame;
    hide AllQuote;
    hide Unacked;
    hide AckedBytes;
    var q, lo, r := sw.queue, Unacknowledged(sw), Slid(sw, ack);
    var k := |q| - |r.queue|;
    QueueContiguous(sw);
    AckRemovesPrefix(q, lo, sw.seqno, ack);
    SameSuffix(q, Last(sw.first, |q|), k);
    assert Last(sw.first, |q|)[k..] == Last(r.first, |r.queue|);
    AckedUpTo(q, lo, sw.seqno, k);
  }

  lemma SameSuffix(q: seq<Seg>, r: seq<Seg>, k: nat)
    requires AllSame(q, r) && k <= |q|
    ensures AllSame(q[k..], r[k..])
  {
    forall i | 0 <= i < |q[k..]|
      ensures SameBytes(q[k..][i], r[k..][i])
    {
      assert SameBytes(q[k + i], r[k + i]);
    }
  }

  /** What is left after the first k segments starts where the k-th of them ended. */
  lemma AckedUpTo(q: seq<Seg>, lo: int, hi: int, k: nat)
    requires Contiguous(q, lo, hi) && 0 < k <= |q|
    ensures lo <= (if k == |q| then hi else q[k].seqno) == End(q[k - 1]) <= hi
  {
    ContiguousFrom(q, lo, hi, k);
    ContiguousFrom(q, lo, hi, k - 1);
    assert q[k - 1..][1..] == q[k..];
  }

  // ---------- Events ----------

  predicate ReadFits(sw: Sender, input: Input)
  {
    input.Data? && ReadSpace(sw) > 0 ==> |input.data| <= ReadSpace(sw) && sw.seqno + |input.data| < LIMIT
  }

  lemma ReadInv(e: Endpoint, input: Input, pad: u16, now: nat)
    requires Inv(e) && ReadFits(e.sw, input)
    ensures Inv(Read(e, input, pad, now).s)
  {
    if ReadSpace(e.sw) > 0 {
      var (flags, data) := if input.Data? then (TH_ACK, input.data) else (TH_FIN, []);
      SendNewInv(e.host, e.sw, e.rw.ackno, flags, data, pad, now);
    }
  }

  /** The receive counter is an int; a segment that would push it past 2^31 is outside the model. */
  predicate ReceiveFits(rw: Receiver, s: Seg)
  {
    s.seqno == rw.ackno ==> End(s) < LIMIT
  }

  lemma ReceiveInv(e: Endpoint, s: Seg, env: Env)
    requires Inv(e) && ReceiveFits(e.rw, s)
    ensures Inv(Receive(e, s, env).s)
  {
    hide SenderInv;
    hide Passes;
    hide MakeControl;
    hide Deliver;
    hide ReceiveControl;
    var e1 := e.(sw := e.sw.(recvWin := s.window));
    AnyWindowInv(e.sw, s.window);
    if s.data == [] {
      ControlInv(e1, s, env);
    }
  }

  lemma AnyWindowInv(sw: Sender, window: u16)
    requires SenderInv(sw)
    ensures SenderInv(sw.(recvWin := window))
  {
    hide AllQuote;
    hide AllSame;
    hide Contiguous;
  }

  lemma FinFits(sw: Sender)
    requires SenderInv(sw)
    ensures 0 <= sw.seqno < LIMIT && sw.size <= sw.maxSize
  {
  }

  /** The FIN an endpoint answers with is one zero-length transmission more. */
  lemma AnswerFinInv(e: Endpoint, flags: u32, env: Env)
    requires SenderInv(e.sw)
    ensures var r := AnswerFin(e, flags, env);
      && SenderInv(r.s) && Unacknowledged(r.s) == Unacknowledged(e.sw)
      && r.s.seqno == e.sw.seqno && r.s.input == e.sw.input && e.sw.first <= r.s.first
      && (forall t :: t in r.sent ==> t.data == [] && t.ackno == ToU32(e.rw.ackno))
  {
    hide SenderInv;
    hide SendNew;
    FinFits(e.sw);
    if HasFin(flags) && e.teardown == -1 {
      var s := Transmitted(e.host, e.sw, e.rw.ackno, TH_FIN, [], env.finPad);
      SendNewInv(e.host, e.sw, e.rw.ackno, TH_FIN, [], env.finPad, env.now);
      assert e.sw.input + s.data == e.sw.input;
      assert AnswerFin(e, flags, env).s == Extended(e.sw, s, env.now);
    }
  }

  lemma ControlInv(e: Endpoint, s: Seg, env: Env)
    requires Inv(e)
    ensures var r := ReceiveControl(e, s, env);
      && Inv(r.s) && r.s.rw == e.rw && r.s.host == e.host
      && r.s.sw.seqno == e.sw.seqno && r.s.sw.input == e.sw.input && e.sw.first <= r.s.sw.first
      && (Unacknowledged(r.s.sw) == Unacknowledged(e.sw)
          || Unacknowledged(e.sw) <= Unacknowledged(r.s.sw) <= ToInt32(s.ackno))
      && (forall t :: t in r.sent ==> t.data == [] && t.ackno == ToU32(e.rw.ackno))
  {
    var r1 := AnswerFin(e, s.flags, env);
    AnswerFinInv(e, s.flags, env);
    AcknowledgeInv(e.host, r1.s, s.ackno, e.rw.ackno, env.now);
  }

  lemma RetransmitInv(host: Host, sw: Sender, counter: nat, ackno: int, now: nat)
    requires SenderInv(sw) && sw.queue != [] && counter <= MAX_RETRANSMISSIONS
    ensures var r := Retransmit(host, sw.(counter := counter, timer := now), ackno, now);
      && SenderInv(r.s) && Unacknowledged(r.s) == Unacknowledged(sw)
      && r.s == sw.(queue := r.s.queue, counter := counter, timer := now)
      && |r.sent| == 1 && r.sent[0].ackno == ToU32(ackno)
      && |sw.queue| <= |sw.first| && SameBytes(r.sent[0], sw.first[|sw.first| - |sw.queue|])
  {
    var r := Retransmit(host, sw.(counter := counter, timer := now), ackno, now);
    forall i | 0 <= i < |r.s.queue|
      ensures SameBytes(r.s.queue[i], Last(sw.first, |sw.queue|)[i])
    {
      assert SameBytes(sw.queue[i], Last(sw.first, |sw.queue|)[i]);
    }
  }

  lemma TimerInv(e: Endpoint, now: nat)
    requires Inv(e)
    ensures Inv(Timer(e, now).s)
  {
    if Expired(e, now) && e.sw.counter < MAX_RETRANSMISSIONS {
      RetransmitInv(e.host, e.sw, e.sw.counter + 1, e.rw.ackno, now);
    }
  }
}

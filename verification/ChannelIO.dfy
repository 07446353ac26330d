/** Bigstrings through buffered channels (bigstring_stubs.c): loops around `writev` and `readv` that survive partial
    results, interrupts and full pipes. The kernel's answers are an arbitrary script; a call that has used up its script
    is still waiting. */
module ChannelIO {
  import opened ChannelPlan
  import opened Octets
  import opened Sequences

  /** A file descriptor: the bytes that went through it, and for the last call how many it asked for. */
  class Descriptor {
    var stream: Bytes
    ghost var asked: nat
  }

  class Channel {
    const buff: array<Byte>
    var curr: nat
    var max: nat
    var offset: int

    /** The physical end of the buffer. */
    function End(): nat { buff.Length }

    predicate ValidOut() reads this { curr <= End() }

    /** What is buffered on an output channel. */
    function Pending(): Bytes
      requires ValidOut()
      reads this, buff
    {
      buff[..curr]
    }

    predicate ValidIn() reads this { curr <= max <= End() }

    /** What is buffered on an input channel. */
    function Ahead(): Bytes
      requires ValidIn()
      reads this, buff
    {
      buff[curr..max]
    }

    constructor (size: nat)
      ensures ValidOut() && ValidIn() && End() == size && fresh(buff) && Pending() == [] && Ahead() == [] && offset == 0
    {
      buff := new Byte[size](_ => 0);
      curr, max, offset := 0, 0, 0;
    }
  }

  lemma ShorterPrefix(s: Bytes, t: Bytes, n: nat)
    requires n <= |s| + |t|
    ensures (s + t)[..n] == if n <= |s| then s[..n] else s + t[..n - |s|]
  {}

  // ----- output -----

  /** `writev` of two pieces: the kernel takes a prefix of both together. */
  method Writev(fd: Descriptor, a: array<Byte>, aBase: nat, aLen: nat, b: array<Byte>, bBase: nat, bLen: nat,
          limit: nat)
    returns (written: nat)
    requires aBase + aLen <= a.Length && bBase + bLen <= b.Length
    modifies fd
    ensures written == Min(limit, aLen + bLen) && fd.asked == aLen + bLen
    ensures fd.stream == old(fd.stream) + (a[aBase..aBase + aLen] + b[bBase..bBase + bLen])[..written]
  {
    written := Min(limit, aLen + bLen);
    fd.stream := fd.stream + (a[aBase..aBase + aLen] + b[bBase..bBase + bLen])[..written];
    fd.asked := aLen + bLen;
  }

  /** What has left the program at some point of the loop: the buffer up to its last `buffLen` bytes, and the bigstring
      up to `bstrBase`, which only moves once the buffer is empty. */
  function SentSoFar(buffered: Bytes, bstr: Bytes, buffLen: nat, count: nat): Bytes
    requires buffLen <= |buffered| && count <= |bstr|
  {
    buffered[..|buffered| - buffLen] + bstr[..count]
  }

  lemma AdvanceBuffer(buffered: Bytes, bstr: Bytes, buffLen: nat, n: nat)
    requires n <= buffLen <= |buffered|
    ensures SentSoFar(buffered, bstr, buffLen, 0) + buffered[|buffered| - buffLen..][..n] ==
            SentSoFar(buffered, bstr, buffLen - n, 0)
  {}

  lemma {:induction false} AdvanceBigstring(buffered: Bytes, bstr: Bytes, buffLen: nat, count: nat, n: nat)
    requires buffLen <= |buffered| && (buffLen > 0 ==> count == 0) && count + n <= |bstr|
    ensures SentSoFar(buffered, bstr, buffLen, count) + (buffered[|buffered| - buffLen..] + bstr[count..][..n]) ==
            SentSoFar(buffered, bstr, 0, count + n)
  {
    var b := buffered;
    assert b[..|b| - buffLen] + b[|b| - buffLen..] == b;
    assert bstr[..count] + bstr[count..][..n] == bstr[..count + n];
  }

  /** The iovecs of a call cover the two remainders, or less: after EAGAIN a single byte is tried, and nothing of the
      bigstring is offered before the whole buffer is. */
  predicate Offers(buffLen: nat, buffIov: nat, bstrLen: nat, bstrIov: nat) {
    buffIov <= buffLen && bstrIov <= bstrLen && (bstrIov > 0 ==> buffIov == buffLen)
  }

  /** One successful `writev`, in terms of what has been sent. */
  lemma {:induction false} SentStep(buffered: Bytes, bstr: Bytes, buffLen: nat, buffIov: nat, count: nat, bstrIov: nat,
          n: nat)
    requires buffLen <= |buffered| && count + bstrIov <= |bstr| && (buffLen > 0 ==> count == 0)
    requires Offers(buffLen, buffIov, |bstr| - count, bstrIov) && n <= buffIov + bstrIov
    ensures var sent := (buffered[|buffered| - buffLen..][..buffIov] + bstr[count..][..bstrIov])[..n];
            SentSoFar(buffered, bstr, buffLen, count) + sent ==
            if n < buffLen then SentSoFar(buffered, bstr, buffLen - n, count)
            else SentSoFar(buffered, bstr, 0, count + (n - buffLen))
    ensures n >= buffLen ==> count + (n - buffLen) <= |bstr|
  {
    var rest, more := buffered[|buffered| - buffLen..], bstr[count..];
    ShorterPrefix(rest[..buffIov], more[..bstrIov], n);
    if n < buffLen {
      assert n <= buffIov;
      assert rest[..buffIov][..n] == rest[..n];
      AdvanceBuffer(buffered, bstr, buffLen, n);
    } else {
      assert n >= buffIov;
      assert buffIov == buffLen;
      assert rest[..buffIov] == rest;
      assert more[..bstrIov][..n - buffLen] == more[..n - buffLen];
      AdvanceBigstring(buffered, bstr, buffLen, count, n - buffLen);
    }
  }

  /** Nothing is lost, duplicated or reordered: what went out and what is still buffered are what was buffered and the
      counted part of the data, on success and on errors. A success counts at least `minLen`. */
  predicate OutputConserves(r: Outcome, minLen: nat, before: Bytes, buffered: Bytes, data: Bytes, stream: Bytes,
          pending: Bytes)
  {
    before <= stream &&
    match r
    case Done(n) => minLen <= n <= |data| && stream + pending == before + buffered + data[..n]
    case IoError(n, _) => n <= |data| && stream + pending == before + buffered + data[..n]
    case Waiting => stream <= before + buffered + data && pending == buffered
    case EofError(_) => false
  }

  /** The state of the loop: `stream` has been sent, `buffLen` bytes of the buffer are left from `buffBase` on, and
      `count` bytes of the bigstring are done, none of them before the buffer is. */
  predicate Sending(stream: Bytes, before: Bytes, buffered: Bytes, data: Bytes, buffBase: nat, buffLen: nat,
          count: nat)
  {
    buffLen <= |buffered| && buffBase <= |buffered| && count <= |data| &&
    (buffLen > 0 ==> buffBase == |buffered| - buffLen && count == 0) &&
    stream == before + SentSoFar(buffered, data, buffLen, count)
  }

  lemma {:induction false} StartSending(before: Bytes, buffered: Bytes, data: Bytes)
    ensures Sending(before, before, buffered, data, 0, |buffered|, 0)
  {
    assert before + [] == before;
    assert SentSoFar(buffered, data, |buffered|, 0) == [];
  }

  /** The channel's buffer while the loop runs. */
  ghost predicate Buffered(chan: Channel, buffered: Bytes)
    reads chan`curr, chan.buff
  {
    chan.curr == |buffered| <= chan.End() && chan.buff[..|buffered|] == buffered
  }

  /** The data to be written, where they stand in the bigstring. */
  ghost predicate Supplies(bstr: array<Byte>, pos: nat, data: Bytes)
    reads bstr
  {
    pos + |data| <= bstr.Length && bstr[pos..pos + |data|] == data
  }

  /** One `writev` of the loop. */
  method WritevOnce(fd: Descriptor, ghost before: Bytes,
        chan: Channel, ghost buffered: Bytes, buffBase: nat, ghost buffLen: nat, buffIov: nat,
        bstr: array<Byte>, ghost data: Bytes, ghost pos: nat, bstrBase: nat, bstrIov: nat, limit: nat)
    returns (written: nat)
    requires Buffered(chan, buffered) && pos <= bstrBase
    requires Supplies(bstr, pos, data)
    requires Sending(fd.stream, before, buffered, data, buffBase, buffLen, bstrBase - pos)
    requires Offers(buffLen, buffIov, pos + |data| - bstrBase, bstrIov)
    modifies fd
    ensures written == Min(limit, buffIov + bstrIov) && fd.asked == buffIov + bstrIov
    ensures |fd.stream| == |old(fd.stream)| + written
    ensures written < buffLen ==>
              Sending(fd.stream, before, buffered, data, buffBase + written, buffLen - written, bstrBase - pos)
    ensures written >= buffLen ==>
              Sending(fd.stream, before, buffered, data, buffBase, 0, bstrBase - pos + (written - buffLen))
  {
    hide SentSoFar;
    ghost var sofar := SentSoFar(buffered, data, buffLen, bstrBase - pos);
    ghost var piece, more := buffered[|buffered| - buffLen..][..buffIov], data[bstrBase - pos..][..bstrIov];
    var buff := chan.buff;
    if buffIov > 0 { PieceOf(buff[..], 0, buffered, buffBase, buffIov); }
    assert buff[buffBase..buffBase + buffIov] == piece;
    PieceOf(bstr[..], pos, data, bstrBase - pos, bstrIov);
    assert bstr[bstrBase..bstrBase + bstrIov] == more;
    written := Writev(fd, buff, buffBase, buffIov, bstr, bstrBase, bstrIov, limit);
    SentStep(buffered, data, buffLen, buffIov, bstrBase - pos, bstrIov, written);
    Assoc(before, sofar, (piece + more)[..written]);
  }

  lemma PieceOf(s: Bytes, at: nat, t: Bytes, from: nat, len: nat)
    requires at + |t| <= |s| && s[at..at + |t|] == t && from + len <= |t|
    ensures s[at + from..at + from + len] == t[from..][..len]
  {}

  /** What a call leaves behind: every byte is accounted for, and outcome and amount are as planned. */
  ghost predicate OutputEnds(r: Outcome, plan: Progress, minLen: nat, before: Bytes, buffered: Bytes, data: Bytes,
          offset: int, chan: Channel, fd: Descriptor)
    reads chan, chan.buff, fd
  {
    (r.IoError? ==> r.cause.Failed? || (r.cause.Eagain? && fd.asked <= 1)) &&
    chan.ValidOut() && chan.offset - offset == |fd.stream| - |before| == plan.sent && plan.outcome == r &&
    OutputConserves(r, minLen, before, buffered, data, fd.stream, chan.Pending())
  }

  /** Leaving the loop: what is left of the buffer moves to its front. */
  method LeaveOutput(r: Outcome, ghost plan: Progress, ghost minLen: nat, ghost before: Bytes, ghost buffered: Bytes,
        ghost data: Bytes, ghost offset: int, buffBase: nat, buffLen: nat, ghost count: nat, chan: Channel,
        ghost fd: Descriptor)
    requires Buffered(chan, buffered)
    requires Sending(fd.stream, before, buffered, data, buffBase, buffLen, count)
    requires (r.Done? && r.count == count && minLen <= count) || (r.IoError? && r.good == count)
    requires r.IoError? ==> r.cause.Failed? || (r.cause.Eagain? && fd.asked <= 1)
    requires plan.outcome == r && chan.offset - offset == |fd.stream| - |before| == plan.sent
    modifies chan`curr, chan.buff
    ensures OutputEnds(r, plan, minLen, before, buffered, data, offset, chan, fd)
  {
    chan.curr := buffLen;
    if buffLen > 0 {
      Memmove(chan.buff, 0, buffBase, buffLen);
      assert chan.Pending() == chan.buff[0..0 + buffLen];
    }
    assert chan.Pending() == buffered[|buffered| - buffLen..];
    LeftOver(minLen, before, buffered, data, buffLen, count, Eintr);
  }

  /** `bigstring_output_stub`. */
  method Output(minLen: nat, chan: Channel, fd: Descriptor, bstr: array<Byte>, pos: nat, len: nat, script: seq<Answer>)
    returns (r: Outcome)
    requires chan.ValidOut() && bstr != chan.buff && minLen <= len && pos + len <= bstr.Length
    modifies chan`curr, chan`offset, chan.buff, fd
    ensures chan.ValidOut()
    ensures OutputConserves(r, minLen, old(fd.stream), old(chan.Pending()), bstr[pos..pos + len], fd.stream,
            chan.Pending())
    ensures chan.offset - old(chan.offset) == |fd.stream| - |old(fd.stream)|
    // data that fits is only buffered
    ensures len <= old(chan.End() - chan.curr) ==> r == Done(len) && fd.stream == old(fd.stream)
    // and else the outcome and what is sent are determined by the kernel's answers
    ensures len > old(chan.End() - chan.curr) ==>
              Progress(r, |fd.stream| - |old(fd.stream)|) ==
              OutputPlan(|old(chan.Pending())|, minLen, len, 0, Everything, script)
    // a call still waiting has used every answer that took something, and sent too little
    ensures r.Waiting? ==>
              Failed !in script && |fd.stream| - |old(fd.stream)| >= PositiveCounts(script) &&
              (AnyCount(script) ==> |fd.stream| - |old(fd.stream)| < |old(chan.Pending())| + minLen)
    // interrupts never fail a call, and EAGAIN only when a single byte could not be written
    ensures r.IoError? ==> r.cause in script && (r.cause.Failed? || (r.cause.Eagain? && fd.asked <= 1))
  {
    if len <= chan.End() - chan.curr {
      ghost var was := chan.Pending();
      forall i | 0 <= i < len { chan.buff[chan.curr + i] := bstr[pos + i]; }
      chan.curr := chan.curr + len;
      assert chan.Pending() == was + bstr[pos..pos + len];
      return Done(len);
    }
    StillBuffered(chan, chan.Pending());
    r := OutputLoop(minLen, chan, fd, bstr, pos, len, script, fd.stream, chan.Pending(), bstr[pos..pos + len]);
    OutputErrors(|old(chan.Pending())|, minLen, len, 0, Everything, script);
    if r.Waiting? { OutputWaits(|old(chan.Pending())|, minLen, len, 0, Everything, script); }
  }

  /** The iovecs, in the terms of the plan. */
  predicate OffersAs(offer: Offer, buffLen: nat, buffIov: nat, bstrLen: nat, bstrIov: nat) {
    match offer
    case Everything => buffIov == buffLen && bstrIov == bstrLen
    case BufferOnly => buffLen > 0 && buffIov == buffLen && bstrIov == 0
    case OneByte => if buffLen > 0 then buffIov == 1 && bstrIov == 0 else buffIov == 0 && bstrIov == 1
  }

  /** With `sent` bytes gone, the loop in this state comes to `plan` on the answers from the k-th on. */
  predicate OnTrack(buffered: nat, minLen: nat, len: nat, plan: Progress, script: seq<Answer>, k: nat, sent: nat,
          offer: Offer, buffLen: nat, buffIov: nat, bstrLen: nat, bstrIov: nat)
  {
    k <= |script| && minLen <= len && sent + buffLen + bstrLen == buffered + len &&
    0 < bstrLen <= len && buffLen <= buffered &&
    (buffLen > 0 ==> bstrLen == len) && OffersAs(offer, buffLen, buffIov, bstrLen, bstrIov) &&
    OutputPlan(buffered, minLen, len, sent, offer, script[k..]) == plan
  }

  /** An interrupt leaves the loop where it is; after EAGAIN a single byte is tried, if more was before. */
  lemma {:induction false} TrackRetry(buffered: nat, minLen: nat, len: nat, plan: Progress, script: seq<Answer>, k: nat,
          sent: nat, offer: Offer, buffLen: nat, buffIov: nat, bstrLen: nat, bstrIov: nat)
    requires OnTrack(buffered, minLen, len, plan, script, k, sent, offer, buffLen, buffIov, bstrLen, bstrIov)
    requires k < |script| && (script[k].Eintr? || script[k].Eagain?)
    ensures script[k].Eintr? ==>
              OnTrack(buffered, minLen, len, plan, script, k + 1, sent, offer, buffLen, buffIov, bstrLen, bstrIov)
    ensures script[k].Eagain? && buffIov + bstrIov > 1 ==>
              var (one, none) := if buffLen > 0 then (1, 0) else (buffIov, 1);
              OnTrack(buffered, minLen, len, plan, script, k + 1, sent, OneByte, buffLen, one, bstrLen, none)
  {
    assert script[k..][1..] == script[k + 1..];
    assert Offered(buffered, len, sent, offer) == buffIov + bstrIov && Good(buffered, sent) == len - bstrLen;
  }

  lemma {:induction false} TrackFails(buffered: nat, minLen: nat, len: nat, plan: Progress, script: seq<Answer>, k: nat,
          sent: nat, offer: Offer, buffLen: nat, buffIov: nat, bstrLen: nat, bstrIov: nat)
    requires OnTrack(buffered, minLen, len, plan, script, k, sent, offer, buffLen, buffIov, bstrLen, bstrIov)
    requires k < |script| && (script[k].Failed? || (script[k].Eagain? && buffIov + bstrIov <= 1))
    ensures bstrLen <= len && plan == Progress(IoError(len - bstrLen, script[k]), sent)
  {
    assert script[k..][1..] == script[k + 1..];
    assert Offered(buffered, len, sent, offer) == buffIov + bstrIov && Good(buffered, sent) == len - bstrLen;
  }

  /** The buffer was written partially only. */
  lemma {:induction false} TrackPartial(buffered: nat, minLen: nat, len: nat, plan: Progress, script: seq<Answer>,
          k: nat, sent: nat, offer: Offer, buffLen: nat, buffIov: nat, bstrLen: nat, bstrIov: nat)
    requires OnTrack(buffered, minLen, len, plan, script, k, sent, offer, buffLen, buffIov, bstrLen, bstrIov)
    requires k < |script| && script[k].Count? && Min(script[k].n, buffIov + bstrIov) < buffLen
    ensures var w := Min(script[k].n, buffIov + bstrIov);
            var next, left := if offer == Everything then offer else BufferOnly, buffLen - w;
            OnTrack(buffered, minLen, len, plan, script, k + 1, sent + w, next, left, left, bstrLen, bstrIov)
  {
    assert script[k..][1..] == script[k + 1..];
    assert Offered(buffered, len, sent, offer) == buffIov + bstrIov && Good(buffered, sent) == len - bstrLen;
  }

  /** The buffer is empty: the call is done, or goes on with the bigstring. */
  lemma {:induction false} TrackWritten(buffered: nat, minLen: nat, len: nat, plan: Progress, script: seq<Answer>,
          k: nat, sent: nat, offer: Offer, buffLen: nat, buffIov: nat, bstrLen: nat, bstrIov: nat)
    requires OnTrack(buffered, minLen, len, plan, script, k, sent, offer, buffLen, buffIov, bstrLen, bstrIov)
    requires k < |script| && script[k].Count? && Min(script[k].n, buffIov + bstrIov) >= buffLen
    ensures var w := Min(script[k].n, buffIov + bstrIov);
            var now := len - bstrLen + (w - buffLen);
            if now >= minLen then now >= 0 && plan == Progress(Done(now), sent + w)
            else
              var left := len - now;
              left > 0 && OnTrack(buffered, minLen, len, plan, script, k + 1, sent + w, Everything, 0, 0, left, left)
  {
    assert script[k..][1..] == script[k + 1..];
    assert Offered(buffered, len, sent, offer) == buffIov + bstrIov && Good(buffered, sent) == len - bstrLen;
  }

  lemma {:induction false} PlanEnd(buffered: nat, minLen: nat, len: nat, plan: Progress, script: seq<Answer>, k: nat,
          sent: nat, offer: Offer, buffLen: nat, buffIov: nat, bstrLen: nat, bstrIov: nat)
    requires OnTrack(buffered, minLen, len, plan, script, k, sent, offer, buffLen, buffIov, bstrLen, bstrIov)
    ensures k <= |script| && (k == |script| ==> plan == Progress(Waiting, sent))
  {
    if k == |script| { assert script[k..] == []; }
  }

  /** The loop around `writev`. */
  method OutputLoop(minLen: nat, chan: Channel, fd: Descriptor, bstr: array<Byte>, pos: nat, len: nat,
          script: seq<Answer>, ghost before: Bytes, ghost buffered: Bytes, ghost data: Bytes)
    returns (r: Outcome)
    requires bstr != chan.buff && minLen <= len == |data| && Supplies(bstr, pos, data) && len > 0
    requires fd.stream == before && Buffered(chan, buffered)
    modifies chan`curr, chan`offset, chan.buff, fd
    ensures var plan := OutputPlan(|buffered|, minLen, len, 0, Everything, script);
            OutputEnds(r, plan, minLen, before, buffered, data, old(chan.offset), chan, fd)
  {
    var at := Iovecs(0, chan.curr, chan.curr, pos, len, len);
    var k := 0;
    r := Waiting;
    StartSending(before, buffered, data);
    BufferedLength(chan, buffered);
    ghost var plan := OutputPlan(|buffered|, minLen, len, 0, Everything, script);
    ghost var offer, offset := Everything, chan.offset;
    assert script[0..] == script;
    hide Sending, OutputEnds, Buffered, Supplies, OutputPlan;
    assert WritingOn(plan, minLen, before, buffered, data, pos, offset, offer, at, script, k, chan, fd, bstr);
    hide WritingOn;
    var ended := false;
    while k < |script| && !ended
      invariant k <= |script|
      invariant if ended then OutputEnds(r, plan, minLen, before, buffered, data, offset, chan, fd)
                else WritingOn(plan, minLen, before, buffered, data, pos, offset, offer, at, script, k, chan, fd, bstr)
      decreases |script| - k
    {
      ended, r, at, offer :=
        WriteTurn(plan, pos + minLen, chan, fd, bstr, pos, minLen, at, before, buffered, data, offset, offer, script,
                  k);
      k := k + 1;
    }
    if !ended {
      StillSending(plan, minLen, before, buffered, data, pos, offset, offer, at, script, k, chan, fd, bstr);
      return Waiting;
    }
  }

  /** The variables of the loop: where the rest of the buffer begins and how long it is, what is left of the bigstring,
      and the lengths of the iovecs. */
  datatype Iovecs =
    Iovecs(buffBase: nat, buffLen: nat, buffIov: nat, bstrBase: nat, bstrLen: nat, bstrIov: nat)

  /** The state of the loop before the k-th answer. */
  ghost predicate WritingOn(plan: Progress, minLen: nat, before: Bytes, buffered: Bytes, data: Bytes, pos: nat,
          offset: int, offer: Offer, at: Iovecs, script: seq<Answer>, k: nat,
          chan: Channel, fd: Descriptor, bstr: array<Byte>)
    reads chan, chan.buff, fd, bstr
  {
    bstr != chan.buff && Buffered(chan, buffered) && Supplies(bstr, pos, data) &&
    pos <= at.bstrBase && at.bstrBase + at.bstrLen == pos + |data| &&
    Sending(fd.stream, before, buffered, data, at.buffBase, at.buffLen, at.bstrBase - pos) &&
    |fd.stream| >= |before| && chan.offset - offset == |fd.stream| - |before| &&
    OnTrack(|buffered|, minLen, |data|, plan, script, k, |fd.stream| - |before|, offer, at.buffLen, at.buffIov,
            at.bstrLen, at.bstrIov)
  }

  /** One turn of the loop: a call of `writev`, and what follows from its answer. */
  method WriteTurn(ghost plan: Progress, bstrMin: nat, chan: Channel, fd: Descriptor, bstr: array<Byte>, pos: nat,
        ghost minLen: nat, was: Iovecs, ghost before: Bytes, ghost buffered: Bytes, ghost data: Bytes,
        ghost offset: int, ghost offered: Offer, script: seq<Answer>, k: nat)
    returns (ended: bool, r: Outcome, at: Iovecs, ghost offer: Offer)
    requires k < |script| && bstrMin == pos + minLen
    requires WritingOn(plan, minLen, before, buffered, data, pos, offset, offered, was, script, k, chan, fd, bstr)
    modifies chan`curr, chan`offset, chan.buff, fd
    ensures if ended then OutputEnds(r, plan, minLen, before, buffered, data, offset, chan, fd)
            else WritingOn(plan, minLen, before, buffered, data, pos, offset, offer, at, script, k + 1, chan, fd, bstr)
  {
    hide Sending, Buffered, Supplies, OnTrack, OutputEnds;
    var answer := script[k];
    ended, r, at, offer := false, Waiting, was, offered;
    ghost var sent, len := |fd.stream| - |before|, |data|;
    var Iovecs(buffBase, buffLen, buffIov, bstrBase, bstrLen, bstrIov) := was;
    if !answer.Count? { fd.asked := buffIov + bstrIov; }
    if answer.Eintr? {
      TrackRetry(|buffered|, minLen, len, plan, script, k, sent, offer, buffLen, buffIov, bstrLen, bstrIov);
      return;
    }
    if answer.Eagain? && buffIov + bstrIov > 1 {
      // the call might have blocked: try a single byte
      TrackRetry(|buffered|, minLen, len, plan, script, k, sent, offer, buffLen, buffIov, bstrLen, bstrIov);
      at := if buffLen > 0 then at.(buffIov := 1, bstrIov := 0) else at.(bstrIov := 1);
      offer := OneByte;
      return;
    }
    if !answer.Count? {
      TrackFails(|buffered|, minLen, len, plan, script, k, sent, offer, buffLen, buffIov, bstrLen, bstrIov);
      ended, r := true, IoError(bstrBase - pos, answer);
      LeaveOutput(r, plan, minLen, before, buffered, data, offset, buffBase, buffLen, bstrBase - pos, chan, fd);
      return;
    }
    TrackOffers(|buffered|, minLen, len, plan, script, k, sent, offer, buffLen, buffIov, bstrLen, bstrIov);
    var written := WritevOnce(fd, before, chan, buffered, buffBase, buffLen, buffIov,
                              bstr, data, pos, bstrBase, bstrIov, answer.n);
    chan.offset := chan.offset + written;
    if buffLen > written {
      TrackPartial(|buffered|, minLen, len, plan, script, k, sent, offer, buffLen, buffIov, bstrLen, bstrIov);
      at := at.(buffBase := buffBase + written, buffLen := buffLen - written, buffIov := buffLen - written);
      if offer != Everything { offer := BufferOnly; }
      return;
    }
    TrackWritten(|buffered|, minLen, len, plan, script, k, sent, offer, buffLen, buffIov, bstrLen, bstrIov);
    var bstrWritten := written - buffLen;
    var newBstr := bstrBase + bstrWritten;
    if newBstr >= bstrMin {
      ended, r := true, Done(newBstr - pos);
      LeaveOutput(r, plan, minLen, before, buffered, data, offset, buffBase, 0, newBstr - pos, chan, fd);
      return;
    }
    at := Iovecs(buffBase, 0, 0, newBstr, bstrLen - bstrWritten, bstrLen - bstrWritten);
    offer := Everything;
  }

  lemma {:induction false} TrackOffers(buffered: nat, minLen: nat, len: nat, plan: Progress, script: seq<Answer>,
          k: nat, sent: nat, offer: Offer, buffLen: nat, buffIov: nat, bstrLen: nat, bstrIov: nat)
    requires OnTrack(buffered, minLen, len, plan, script, k, sent, offer, buffLen, buffIov, bstrLen, bstrIov)
    ensures Offers(buffLen, buffIov, bstrLen, bstrIov)
  {}

  lemma {:induction false} StillSending(plan: Progress, minLen: nat, before: Bytes, buffered: Bytes, data: Bytes,
          pos: nat, offset: int, offer: Offer, at: Iovecs, script: seq<Answer>, k: nat,
          chan: Channel, fd: Descriptor, bstr: array<Byte>)
    requires WritingOn(plan, minLen, before, buffered, data, pos, offset, offer, at, script, k, chan, fd, bstr)
    requires k == |script|
    ensures OutputEnds(Waiting, plan, minLen, before, buffered, data, offset, chan, fd)
  {
    PlanEnd(|buffered|, minLen, |data|, plan, script, k, |fd.stream| - |before|, offer, at.buffLen, at.buffIov,
            at.bstrLen, at.bstrIov);
    SentIsPrefix(before, buffered, data, at.buffLen, at.bstrBase - pos);
  }

  lemma StillBuffered(chan: Channel, buffered: Bytes)
    ensures chan.ValidOut() && chan.Pending() == buffered ==> Buffered(chan, buffered)
    ensures Buffered(chan, buffered) ==> chan.ValidOut()
  {}

  lemma BufferedLength(chan: Channel, buffered: Bytes)
    requires Buffered(chan, buffered)
    ensures chan.curr == |buffered|
  {}

  method Memmove(a: array<Byte>, dst: nat, src: nat, n: nat)
    requires dst + n <= a.Length && src + n <= a.Length
    modifies a
    ensures a[dst..dst + n] == old(a[src..src + n])
    ensures forall i :: 0 <= i < a.Length && !(dst <= i < dst + n) ==> a[i] == old(a[i])
  {
    var copy := a[src..src + n];
    forall i | 0 <= i < n { a[dst + i] := copy[i]; }
  }

  /** What was sent and what is left are the old buffer and the counted part of the bigstring. */
  lemma {:induction false} LeftOver(minLen: nat, before: Bytes, buffered: Bytes, bstr: Bytes, buffLen: nat, count: nat,
          cause: Answer)
    requires buffLen <= |buffered| && count <= |bstr| && (buffLen > 0 ==> count == 0)
    ensures var stream, pending := before + SentSoFar(buffered, bstr, buffLen, count), buffered[|buffered| - buffLen..];
            OutputConserves(IoError(count, cause), minLen, before, buffered, bstr, stream, pending) &&
            (minLen <= count ==> OutputConserves(Done(count), minLen, before, buffered, bstr, stream, pending))
  {
    var stream := before + SentSoFar(buffered, bstr, buffLen, count);
    assert stream + buffered[|buffered| - buffLen..] == before + buffered + bstr[..count];
  }

  lemma {:induction false} SentIsPrefix(before: Bytes, buffered: Bytes, data: Bytes, buffLen: nat, count: nat)
    requires buffLen <= |buffered| && count <= |data| && (buffLen > 0 ==> count == 0)
    ensures before + SentSoFar(buffered, data, buffLen, count) <= before + buffered + data
  {
    var b := buffered;
    assert data == data[..count] + data[count..] && b == b[..|b| - buffLen] + b[|b| - buffLen..];
    if buffLen > 0 {
      var t := before + SentSoFar(buffered, data, buffLen, count);
      assert before + buffered + data == t + (b[|b| - buffLen..] + data);
    } else {
      assert before + buffered + data == before + SentSoFar(buffered, data, buffLen, count) + data[count..];
    }
  }

  // ----- input -----

  /** `readv` into two pieces: the second is used only when the first is full. */
  method Readv(fd: Descriptor, a: array<Byte>, aBase: nat, aLen: nat, b: array<Byte>, bLen: nat, bytes: Bytes)
    returns (n: nat)
    requires a != b && aBase + aLen <= a.Length && bLen <= b.Length
    modifies fd, a, b
    ensures n == Min(|bytes|, aLen + bLen) && fd.stream == old(fd.stream) + bytes[..n]
    ensures a[..] == old(a[..])[..aBase] + bytes[..Min(n, aLen)] + old(a[..])[aBase + Min(n, aLen)..]
    ensures n > aLen ==> b[..n - aLen] == bytes[aLen..n]
    ensures n <= aLen ==> b[..] == old(b[..])
  {
    n := Min(|bytes|, aLen + bLen);
    var first := Min(n, aLen);
    forall i | 0 <= i < first { a[aBase + i] := bytes[i]; }
    forall i | 0 <= i < n - first { b[i] := bytes[first + i]; }
    fd.stream := fd.stream + bytes[..n];
    fd.asked := aLen + bLen;
  }

  /** What was ahead in the buffer and what was read are the counted part of the bigstring and what is ahead now; the
      rest of the bigstring is untouched. A success counts at least `minLen`, and leaves something ahead only when it is
      full. */
  predicate InputConserves(r: Outcome, minLen: nat, len: nat, ahead: Bytes, before: Bytes, stream: Bytes, was: Bytes,
          pos: nat, bstr: Bytes, left: Bytes)
    requires pos + len <= |was|
  {
    before <= stream && var source := ahead + stream[|before|..];
    match r
    case Done(n) => minLen <= n <= len && (left != [] ==> n == len) && Filled(source, was, pos, n, bstr, left)
    case IoError(n, _) => n <= len && left == [] && Filled(source, was, pos, n, bstr, left)
    case EofError(n) => len > 0 && n <= len && left == [] && Filled(source, was, pos, n, bstr, left)
    case Waiting => |source| <= len && Filled(source, was, pos, |source|, bstr, [])
  }

  predicate Filled(source: Bytes, was: Bytes, pos: nat, n: nat, bstr: Bytes, left: Bytes)
    requires pos + n <= |was|
  {
    n <= |source| && source[n..] == left && bstr == was[..pos] + source[..n] + was[pos + n..]
  }

  /** Enough is ahead: its first bytes fill the bigstring, and nothing is read. */
  lemma {:induction false} AheadSuffices(minLen: nat, len: nat, ahead: Bytes, stream: Bytes, was: Bytes, pos: nat)
    requires pos + len <= |was| && minLen <= len <= |ahead|
    ensures InputConserves(Done(len), minLen, len, ahead, stream, stream, was, pos,
                           was[..pos] + ahead[..len] + was[pos + len..], ahead[len..])
  {
    assert stream[|stream|..] == [];
    assert ahead + [] == ahead;
  }

  /** The first bytes that are ahead go to the bigstring. */
  method CopyAhead(chan: Channel, bstr: array<Byte>, pos: nat, n: nat)
    requires chan.ValidIn() && bstr != chan.buff && n <= |chan.Ahead()| && pos + n <= bstr.Length
    modifies bstr
    ensures bstr[..] == old(bstr[..pos]) + chan.Ahead()[..n] + old(bstr[pos + n..])
  {
    forall i | 0 <= i < n { bstr[pos + i] := chan.buff[chan.curr + i]; }
  }

  /** `bigstring_input_stub`, for a channel with one user. */
  method Input(minLen: nat, chan: Channel, fd: Descriptor, bstr: array<Byte>, pos: nat, len: nat,
          script: seq<ReadAnswer>)
    returns (r: Outcome)
    requires chan.ValidIn() && bstr != chan.buff && minLen <= len && pos + len <= bstr.Length
    modifies chan`curr, chan`max, chan`offset, chan.buff, bstr, fd
    ensures chan.ValidIn()
    ensures InputConserves(r, minLen, len, old(chan.Ahead()), old(fd.stream), fd.stream, old(bstr[..]), pos, bstr[..],
            chan.Ahead())
    ensures chan.offset - old(chan.offset) == |fd.stream| - |old(fd.stream)|
    // failures are the kernel's
    ensures r.IoError? ==> ReadFailed in script
    ensures r.EofError? ==> Data([]) in script
    // the kernel's answers determine the outcome and what is read
    ensures var avail := old(chan.max - chan.curr);
            avail == 0 || avail < len ==>
              var p := InputPlan(avail, minLen, len, chan.End(), script);
              r == p.outcome && fd.stream == old(fd.stream) + p.read
    // a call still waiting has read everything that came
    ensures r.Waiting? && (len > 0 || chan.End() > 0) ==> Flows(script) && fd.stream == old(fd.stream) + AllData(script)
    // what is ahead is enough: no system call
    ensures 0 < old(chan.max - chan.curr) && len <= old(chan.max - chan.curr) ==>
              r == Done(len) && fd.stream == old(fd.stream)
  {
    hide InputConserves, InputEnds, InputPlan, Flows, AllData;
    var avail := chan.max - chan.curr;
    var base, rest, least := pos, len, minLen as int;
    ghost var ahead, was := chan.Ahead(), bstr[..];
    if avail > 0 {
      var gotAll := rest <= avail;
      var toWrite := if gotAll then rest else avail;
      CopyAhead(chan, bstr, base, toWrite);
      if gotAll {
        chan.curr := chan.curr + toWrite;
        assert chan.Ahead() == ahead[toWrite..];
        AheadSuffices(minLen, len, ahead, fd.stream, was, pos);
        return Done(len);
      }
      base := base + toWrite;
      rest := rest - toWrite;
      least := least - toWrite;
    }
    assert bstr[..] == was[..pos] + ahead + was[pos + |ahead|..];
    assert |ahead| == avail;
    hide Channel.Ahead;
    r := InputLoop(minLen, chan, fd, bstr, pos, len, base, rest, base + least, fd.stream, ahead, was, script);
    InputEnded(r, minLen, len, ahead, old(fd.stream), was, pos, old(chan.offset), script, chan, fd, bstr);
  }

  /** What a call that has gone to the kernel promises. */
  lemma {:induction false} InputEnded(r: Outcome, minLen: nat, len: nat, ahead: Bytes, before: Bytes, was: Bytes,
          pos: nat, offset: int, script: seq<ReadAnswer>, chan: Channel, fd: Descriptor, bstr: array<Byte>)
    requires minLen <= len && |ahead| <= len && (len > 0 ==> |ahead| < len) && pos + len <= |was|
    requires var p := InputPlan(|ahead|, minLen, len, chan.End(), script);
             var plan := ReadProgress(p.outcome, before + p.read);
             InputEnds(r, plan, minLen, len, ahead, before, was, pos, offset, chan, fd, bstr)
    ensures chan.ValidIn() && chan.offset - offset == |fd.stream| - |before|
    ensures InputConserves(r, minLen, len, ahead, before, fd.stream, was, pos, bstr[..], chan.Ahead())
    ensures var p := InputPlan(|ahead|, minLen, len, chan.End(), script); r == p.outcome && fd.stream == before + p.read
    ensures (r.IoError? ==> ReadFailed in script) && (r.EofError? ==> Data([]) in script)
    ensures r.Waiting? && (len > 0 || chan.End() > 0) ==> Flows(script) && fd.stream == before + AllData(script)
  {
    InputErrors(|ahead|, minLen, len, chan.End(), script);
    if r.Waiting? && (len > 0 || chan.End() > 0) { InputWaits(|ahead|, minLen, len, chan.End(), script); }
  }

  /** What a call leaves behind: every byte is accounted for, and outcome and stream are as planned. */
  ghost predicate InputEnds(r: Outcome, plan: ReadProgress, minLen: nat, len: nat, ahead: Bytes, before: Bytes,
          was: Bytes, pos: nat, offset: int, chan: Channel, fd: Descriptor, bstr: array<Byte>)
    requires pos + len <= |was|
    reads chan, chan.buff, fd, bstr
  {
    chan.ValidIn() && plan == ReadProgress(r, fd.stream) && chan.offset - offset == |fd.stream| - |before| &&
    InputConserves(r, minLen, len, ahead, before, fd.stream, was, pos, bstr[..], chan.Ahead())
  }

  /** The bigstring with `source` put in at `pos`. */
  predicate Holding(text: Bytes, was: Bytes, pos: nat, source: Bytes) {
    pos + |source| <= |was| && text == was[..pos] + source + was[pos + |source|..]
  }

  /** The state of the loop: `source` is what was ahead and what has been read since, and all of it is in the
      bigstring. */
  predicate Reading(stream: Bytes, before: Bytes, ahead: Bytes, source: Bytes, was: Bytes, pos: nat, text: Bytes) {
    before <= stream && source == ahead + stream[|before|..] && Holding(text, was, pos, source)
  }

  /** The same with a full bigstring and the rest of `source` in `left`. */
  predicate Spilled(stream: Bytes, before: Bytes, ahead: Bytes, was: Bytes, pos: nat, len: nat, text: Bytes,
          left: Bytes)
  {
    before <= stream && var source := ahead + stream[|before|..];
    len < |source| && Holding(text, was, pos, source[..len]) && left == source[len..]
  }

  /** One `readv` of the loop: what does not fit the bigstring goes to the buffer. */
  method ReadvOnce(fd: Descriptor, bstr: array<Byte>, ghost before: Bytes, ghost ahead: Bytes, ghost source: Bytes,
        ghost was: Bytes, ghost pos: nat, iovBase: nat, iovLen: nat, buff: array<Byte>, bytes: Bytes)
    returns (n: nat)
    requires bstr != buff && iovBase == pos + |source| && iovBase + iovLen <= bstr.Length
    requires Reading(fd.stream, before, ahead, source, was, pos, bstr[..])
    modifies fd, bstr, buff
    ensures n == Min(|bytes|, iovLen + buff.Length) && fd.stream == old(fd.stream) + bytes[..n]
    ensures n <= iovLen ==> Reading(fd.stream, before, ahead, source + bytes[..n], was, pos, bstr[..])
    ensures n > iovLen ==>
              n - iovLen <= buff.Length &&
              Spilled(fd.stream, before, ahead, was, pos, |source| + iovLen, bstr[..], buff[..n - iovLen])
  {
    hide Reading, Spilled;
    ghost var text, stream := bstr[..], fd.stream;
    ReadingFits(stream, before, ahead, source, was, pos, text);
    n := Readv(fd, bstr, iovBase, iovLen, buff, buff.Length, bytes);
    ghost var m := Min(n, iovLen);
    assert bytes[..n][..m] == bytes[..m];
    if n > iovLen {
      assert buff[..n - iovLen] == bytes[..n][iovLen..];
      ReadSpills(stream, fd.stream, before, ahead, source, was, pos, text, bstr[..], bytes[..n], iovLen);
    } else {
      ReadFits(stream, fd.stream, before, ahead, source, was, pos, text, bstr[..], bytes[..n]);
    }
  }

  lemma ReadingFits(stream: Bytes, before: Bytes, ahead: Bytes, source: Bytes, was: Bytes, pos: nat, text: Bytes)
    requires Reading(stream, before, ahead, source, was, pos, text)
    ensures |text| == |was| >= pos + |source|
  {}

  lemma {:induction false} ReadFits(stream: Bytes, next: Bytes, before: Bytes, ahead: Bytes, source: Bytes, was: Bytes,
          pos: nat, text: Bytes, bstr: Bytes, got: Bytes)
    requires Reading(stream, before, ahead, source, was, pos, text) && next == stream + got
    requires pos + |source| + |got| <= |text|
    requires bstr == text[..pos + |source|] + got[..|got|] + text[pos + |source| + |got|..]
    ensures Reading(next, before, ahead, source + got, was, pos, bstr)
  {
    ReceivedMore(before, stream, next, ahead, source, got);
    ReadMore(was, pos, source, got, |got|, text, bstr);
    assert (source + got)[..|source| + |got|] == source + got;
  }

  lemma {:induction false} ReadSpills(stream: Bytes, next: Bytes, before: Bytes, ahead: Bytes, source: Bytes,
          was: Bytes, pos: nat, text: Bytes, bstr: Bytes, got: Bytes, n: nat)
    requires Reading(stream, before, ahead, source, was, pos, text) && next == stream + got
    requires pos + |source| + n <= |text| && n < |got|
    requires bstr == text[..pos + |source|] + got[..n] + text[pos + |source| + n..]
    ensures Spilled(next, before, ahead, was, pos, |source| + n, bstr, got[n..])
  {
    ReceivedMore(before, stream, next, ahead, source, got);
    ReadMore(was, pos, source, got, n, text, bstr);
    assert (source + got)[|source| + n..] == got[n..];
  }

  lemma ReceivedMore(before: Bytes, stream: Bytes, next: Bytes, ahead: Bytes, source: Bytes, got: Bytes)
    requires before <= stream && source == ahead + stream[|before|..] && next == stream + got
    ensures before <= next && source + got == ahead + next[|before|..]
  {}

  /** The loop around `readv`, with the buffer's contents already in the bigstring. */
  method InputLoop(minLen: nat, chan: Channel, fd: Descriptor, bstr: array<Byte>, pos: nat, len: nat,
        base: nat, rest: nat, bstrMin: int, ghost before: Bytes, ghost ahead: Bytes, ghost was: Bytes,
        script: seq<ReadAnswer>)
    returns (r: Outcome)
    requires fd.stream == before && chan.ValidIn() && bstr != chan.buff && minLen <= len &&
             pos + len <= |was| == bstr.Length
    requires base == pos + |ahead| && base + rest == pos + len && bstrMin == pos + minLen && (len > 0 ==> rest > 0)
    requires Holding(bstr[..], was, pos, ahead)
    modifies chan`curr, chan`max, chan`offset, chan.buff, bstr, fd
    ensures |ahead| <= len && var p := InputPlan(|ahead|, minLen, len, chan.End(), script);
            var plan := ReadProgress(p.outcome, before + p.read);
            InputEnds(r, plan, minLen, len, ahead, before, was, pos, old(chan.offset), chan, fd, bstr)
  {
    ghost var source := ahead;
    var iovBase: nat, iovLen: nat := base, rest;
    var k := 0;
    r := Waiting;
    ghost var p := InputPlan(|ahead|, minLen, len, chan.End(), script);
    ghost var plan, offset := ReadProgress(p.outcome, before + p.read), chan.offset;
    assert script[0..] == script;
    hide Holding, InputEnds, Reading, InputPlan;
    StartReading(before, ahead, was, pos, bstr[..]);
    assert ReadingOn(plan, minLen, len, ahead, before, source, was, pos, offset, iovBase, iovLen, script, k,
                     chan, fd, bstr);
    hide ReadingOn;
    var ended := false;
    while k < |script| && !ended
      invariant k <= |script|
      invariant if ended then InputEnds(r, plan, minLen, len, ahead, before, was, pos, offset, chan, fd, bstr)
                else ReadingOn(plan, minLen, len, ahead, before, source, was, pos, offset, iovBase, iovLen, script, k,
                               chan, fd, bstr)
      decreases |script| - k
    {
      ended, r, iovBase, iovLen, source :=
        ReadTurn(plan, minLen, chan, fd, bstr, pos, len, bstrMin, iovBase, iovLen, before, ahead, source, was, offset,
                 script, k);
      k := k + 1;
    }
    if !ended {
      StillReading(plan, minLen, len, ahead, before, source, was, pos, offset, iovBase, iovLen, script, k,
                   chan, fd, bstr);
      return Waiting;
    }
  }

  /** The state of the loop before the k-th answer. */
  ghost predicate ReadingOn(plan: ReadProgress, minLen: nat, len: nat, ahead: Bytes, before: Bytes, source: Bytes,
          was: Bytes, pos: nat, offset: int, iovBase: nat, iovLen: nat, script: seq<ReadAnswer>, k: nat,
          chan: Channel, fd: Descriptor, bstr: array<Byte>)
    reads chan, fd, bstr
  {
    chan.ValidIn() && bstr != chan.buff && minLen <= len && pos + len <= |was| == bstr.Length &&
    iovBase == pos + |source| && iovBase + iovLen == pos + len && (len > 0 ==> iovLen > 0) &&
    chan.offset - offset == |fd.stream| - |before| &&
    Reading(fd.stream, before, ahead, source, was, pos, bstr[..]) &&
    OnPlan(|source|, minLen, len, chan.End(), script, k, fd.stream, plan)
  }

  /** One turn of the loop: a call of `readv`, and what follows from its answer. */
  method ReadTurn(ghost plan: ReadProgress, ghost minLen: nat, chan: Channel, fd: Descriptor, bstr: array<Byte>,
        pos: nat, len: nat, bstrMin: int, base: nat, rest: nat, ghost before: Bytes, ghost ahead: Bytes,
        ghost had: Bytes, ghost was: Bytes, ghost offset: int, script: seq<ReadAnswer>, k: nat)
    returns (ended: bool, r: Outcome, iovBase: nat, iovLen: nat, ghost source: Bytes)
    requires k < |script| && bstrMin == pos + minLen
    requires ReadingOn(plan, minLen, len, ahead, before, had, was, pos, offset, base, rest, script, k, chan, fd, bstr)
    modifies chan`curr, chan`max, chan`offset, chan.buff, bstr, fd
    ensures if ended then
              pos + len <= |was| && InputEnds(r, plan, minLen, len, ahead, before, was, pos, offset, chan, fd, bstr)
            else
              ReadingOn(plan, minLen, len, ahead, before, source, was, pos, offset, iovBase, iovLen, script, k + 1,
                        chan, fd, bstr)
  {
    hide Reading, InputEnds, OnPlan, Spilled;
    var answer := script[k];
    ended, r, iovBase, iovLen, source := false, Waiting, base, rest, had;
    if answer.Interrupted? {
      PlanInterrupted(|had|, minLen, len, chan.End(), script, k, fd.stream, plan);
      return;
    }
    if answer.ReadFailed? {
      PlanStops(|had|, minLen, len, chan.End(), script, k, fd.stream, plan);
      ended, r := true, IoError(iovBase - pos, Failed);
      LeaveEmpty(r, plan, minLen, len, ahead, before, had, was, pos, offset, chan, fd, bstr);
      return;
    }
    ghost var stream := fd.stream;
    var nRead := ReadvOnce(fd, bstr, before, ahead, had, was, pos, iovBase, iovLen, chan.buff, answer.bytes);
    if nRead == 0 {
      PlanStops(|had|, minLen, len, chan.End(), script, k, stream, plan);
      assert stream + answer.bytes[..0] == stream && had + answer.bytes[..0] == had;
      ended, r := true, if len == 0 then Done(0) else EofError(iovBase - pos);
      LeaveEmpty(r, plan, minLen, len, ahead, before, had, was, pos, offset, chan, fd, bstr);
      return;
    }
    PlanReads(|had|, minLen, len, chan.End(), script, k, stream, plan);
    chan.offset := chan.offset + nRead;
    source := had + answer.bytes[..nRead];
    var newBstr := iovBase + nRead;
    if newBstr >= bstrMin {
      ended := true;
      r := LeaveEnough(newBstr, pos + len, plan, minLen, len, ahead, before, source, was, pos, offset, chan, fd, bstr);
      return;
    }
    iovBase := newBstr;
    iovLen := iovLen - nRead;
  }

  /** With `got` read and `count` bytes in the bigstring, the call comes to `plan` on the answers from the k-th on. */
  predicate OnPlan(count: nat, minLen: nat, len: nat, size: nat, script: seq<ReadAnswer>, k: nat, got: Bytes,
          plan: ReadProgress)
  {
    minLen <= len && count <= len && k <= |script| &&
    var p := InputPlan(count, minLen, len, size, script[k..]);
    plan == ReadProgress(p.outcome, got + p.read)
  }

  lemma {:induction false} PlanInterrupted(count: nat, minLen: nat, len: nat, size: nat, script: seq<ReadAnswer>,
          k: nat, got: Bytes, plan: ReadProgress)
    requires k < |script| && OnPlan(count, minLen, len, size, script, k, got, plan)
    requires script[k].Interrupted?
    ensures OnPlan(count, minLen, len, size, script, k + 1, got, plan)
  {
    assert script[k..][1..] == script[k + 1..];
  }

  /** The last turn, without bytes. */
  lemma {:induction false} PlanStops(count: nat, minLen: nat, len: nat, size: nat, script: seq<ReadAnswer>, k: nat,
          got: Bytes, plan: ReadProgress)
    requires k < |script| && OnPlan(count, minLen, len, size, script, k, got, plan)
    requires script[k].ReadFailed? ||
             (script[k].Data? && count <= len && Min(|script[k].bytes|, len - count + size) == 0)
    ensures plan == ReadProgress(if script[k].ReadFailed? then IoError(count, Failed)
                                 else if len == 0 then Done(0) else EofError(count), got)
  {
    assert got + [] == got;
  }

  /** Bytes have come: the call is done, or goes on. */
  lemma {:induction false} PlanReads(count: nat, minLen: nat, len: nat, size: nat, script: seq<ReadAnswer>, k: nat,
          got: Bytes, plan: ReadProgress)
    requires k < |script| && OnPlan(count, minLen, len, size, script, k, got, plan)
    requires script[k].Data? && count <= len
    ensures var n := Min(|script[k].bytes|, len - count + size);
            n > 0 ==>
              var now := got + script[k].bytes[..n];
              if count + n >= minLen then plan == ReadProgress(Done(Min(len, count + n)), now)
              else OnPlan(count + n, minLen, len, size, script, k + 1, now, plan)
  {
    assert script[k..][1..] == script[k + 1..];
    var bytes := script[k].bytes;
    var n := Min(|bytes|, len - count + size);
    if n > 0 && count + n < minLen {
      Assoc(got, bytes[..n], InputPlan(count + n, minLen, len, size, script[k + 1..]).read);
    }
  }

  lemma {:induction false} ReadPlanEnd(count: nat, minLen: nat, len: nat, size: nat, script: seq<ReadAnswer>, k: nat,
          got: Bytes, plan: ReadProgress)
    requires OnPlan(count, minLen, len, size, script, k, got, plan)
    ensures k <= |script| && (k == |script| ==> plan == ReadProgress(Waiting, got))
  {
    if k == |script| {
      assert script[k..] == [];
      assert got + [] == got;
    }
  }

  lemma StartReading(before: Bytes, ahead: Bytes, was: Bytes, pos: nat, text: Bytes)
    requires Holding(text, was, pos, ahead)
    ensures Reading(before, before, ahead, ahead, was, pos, text)
  {}

  lemma {:induction false} StillReading(plan: ReadProgress, minLen: nat, len: nat, ahead: Bytes, before: Bytes,
          source: Bytes, was: Bytes, pos: nat, offset: int, iovBase: nat, iovLen: nat, script: seq<ReadAnswer>, k: nat,
          chan: Channel, fd: Descriptor, bstr: array<Byte>)
    requires ReadingOn(plan, minLen, len, ahead, before, source, was, pos, offset, iovBase, iovLen, script, k,
                       chan, fd, bstr)
    requires k == |script| && pos + len <= |was|
    ensures InputEnds(Waiting, plan, minLen, len, ahead, before, was, pos, offset, chan, fd, bstr)
  {
    ReadPlanEnd(|source|, minLen, len, chan.End(), script, k, fd.stream, plan);
    assert source[..|source|] == source && source[|source|..] == [];
  }

  /** Leaving the loop with an empty buffer. */
  method LeaveEmpty(r: Outcome, ghost plan: ReadProgress, ghost minLen: nat, ghost len: nat, ghost ahead: Bytes,
        ghost before: Bytes, ghost source: Bytes, ghost was: Bytes, ghost pos: nat, ghost offset: int,
        chan: Channel, ghost fd: Descriptor, ghost bstr: array<Byte>)
    requires chan.ValidIn() && |source| <= len && pos + len <= |was|
    requires Reading(fd.stream, before, ahead, source, was, pos, bstr[..])
    requires match r
             case Done(n) => n == |source| && minLen <= n
             case IoError(n, _) => n == |source|
             case EofError(n) => n == |source| && len > 0
             case Waiting => false
    requires plan == ReadProgress(r, fd.stream) && chan.offset - offset == |fd.stream| - |before|
    modifies chan`curr
    ensures InputEnds(r, plan, minLen, len, ahead, before, was, pos, offset, chan, fd, bstr)
  {
    chan.curr := chan.max;
    assert chan.Ahead() == [];
    assert source[..|source|] == source && source[|source|..] == [];
  }

  /** Leaving the loop with something ahead. */
  method LeaveAhead(n: nat, ghost plan: ReadProgress, ghost minLen: nat, ghost len: nat, ghost ahead: Bytes,
        ghost before: Bytes, ghost was: Bytes, ghost pos: nat, ghost offset: int,
        chan: Channel, ghost fd: Descriptor, ghost bstr: array<Byte>)
    requires n <= chan.End() && Spilled(fd.stream, before, ahead, was, pos, len, bstr[..], chan.buff[..n])
    requires minLen <= len && pos + len <= |was|
    requires plan == ReadProgress(Done(len), fd.stream) && chan.offset - offset == |fd.stream| - |before|
    modifies chan`curr, chan`max
    ensures InputEnds(Done(len), plan, minLen, len, ahead, before, was, pos, offset, chan, fd, bstr)
  {
    chan.max := n;
    chan.curr := 0;
    assert chan.Ahead() == chan.buff[..n];
  }

  /** Enough has been read: what is beyond the bigstring stays ahead. */
  method LeaveEnough(newBstr: nat, bstrMax: nat, ghost plan: ReadProgress, ghost minLen: nat, len: nat,
        ghost ahead: Bytes, ghost before: Bytes, ghost source: Bytes, ghost was: Bytes, pos: nat, ghost offset: int,
        chan: Channel, ghost fd: Descriptor, ghost bstr: array<Byte>)
    returns (r: Outcome)
    requires chan.ValidIn() && bstrMax == pos + len && newBstr == pos + |source| && minLen <= len && pos + len <= |was|
    requires newBstr <= bstrMax ==>
               minLen <= |source| && Reading(fd.stream, before, ahead, source, was, pos, bstr[..])
    requires newBstr > bstrMax ==>
               newBstr - bstrMax <= chan.End() &&
               Spilled(fd.stream, before, ahead, was, pos, len, bstr[..], chan.buff[..newBstr - bstrMax])
    requires plan == ReadProgress(Done(Min(len, |source|)), fd.stream)
    requires chan.offset - offset == |fd.stream| - |before|
    modifies chan`curr, chan`max
    ensures InputEnds(r, plan, minLen, len, ahead, before, was, pos, offset, chan, fd, bstr)
  {
    hide Reading, Spilled, InputEnds;
    if newBstr > bstrMax {
      LeaveAhead(newBstr - bstrMax, plan, minLen, len, ahead, before, was, pos, offset, chan, fd, bstr);
      return Done(len);
    }
    r := Done(newBstr - pos);
    LeaveEmpty(r, plan, minLen, len, ahead, before, source, was, pos, offset, chan, fd, bstr);
  }

  /** One more read behind what is already there. */
  lemma {:induction false} ReadMore(was: Bytes, pos: nat, source: Bytes, got: Bytes, n: nat, text: Bytes, bstr: Bytes)
    requires pos + |source| + n <= |was| && n <= |got|
    requires text == was[..pos] + source + was[pos + |source|..]
    requires bstr == text[..pos + |source|] + got[..n] + text[pos + |source| + n..]
    ensures bstr == was[..pos] + (source + got)[..|source| + n] + was[pos + |source| + n..]
  {
    assert (source + got)[..|source| + n] == source + got[..n];
  }
}

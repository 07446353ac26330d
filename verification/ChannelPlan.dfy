/** What channel calls make of the kernel's answers. */
module ChannelPlan {
  import opened Octets

  // Counting machines, without buffers and iovecs.

  function Min(a: nat, b: nat): nat { if a <= b then a else b }

  // ----- output -----

  /** One answer of the kernel to `writev`: an error, or how much was transferred at most. */
  datatype Answer = Eintr | Eagain | Failed | Count(n: nat)

  datatype Outcome =
    | Done(count: nat)
    | IoError(good: nat, cause: Answer)
    | EofError(good: nat)
    | Waiting

  /** How much the next call offers: all that is left, the rest of the buffer, or a single byte. */
  datatype Offer = Everything | BufferOnly | OneByte

  /** What a call comes to: its outcome, and how many bytes have left. */
  datatype Progress = Progress(outcome: Outcome, sent: nat)

  function Offered(buffered: nat, len: nat, sent: nat, offer: Offer): nat
    requires sent <= buffered + len
  {
    match offer
    case Everything => buffered + len - sent
    case BufferOnly => if sent <= buffered then buffered - sent else 0
    case OneByte => Min(1, buffered + len - sent)
  }

  /** The bytes of the bigstring that have left. */
  function Good(buffered: nat, sent: nat): nat { if sent <= buffered then 0 else sent - buffered }

  /** Interrupts are ignored; a call that might block is repeated with one byte, and fails if it might block again; the
      call ends when the buffer and `minLen` bytes have left. After a single byte only the buffer is offered, until it
      is empty. */
  function OutputPlan(buffered: nat, minLen: nat, len: nat, sent: nat, offer: Offer, script: seq<Answer>): (p: Progress)
    requires sent <= buffered + len
    ensures p.sent <= buffered + len
    decreases |script|
  {
    if script == [] then Progress(Waiting, sent)
    else
      var offered := Offered(buffered, len, sent, offer);
      match script[0]
      case Eintr => OutputPlan(buffered, minLen, len, sent, offer, script[1..])
      case Eagain =>
        if offered > 1 then OutputPlan(buffered, minLen, len, sent, OneByte, script[1..])
        else Progress(IoError(Good(buffered, sent), Eagain), sent)
      case Failed => Progress(IoError(Good(buffered, sent), Failed), sent)
      case Count(n) =>
        var now := sent + Min(n, offered);
        if now >= buffered + minLen then Progress(Done(now - buffered), now)
        else
          var next := if now < buffered && offer != Everything then BufferOnly else Everything;
          OutputPlan(buffered, minLen, len, now, next, script[1..])
  }

  function SumOfCounts(script: seq<Answer>): nat {
    if script == [] then 0 else (if script[0].Count? then script[0].n else 0) + SumOfCounts(script[1..])
  }

  /** The answers that took something. */
  function PositiveCounts(script: seq<Answer>): nat {
    if script == [] then 0
    else (if script[0].Count? && script[0].n > 0 then 1 else 0) + PositiveCounts(script[1..])
  }

  predicate AnyCount(script: seq<Answer>) { script != [] && (script[0].Count? || AnyCount(script[1..])) }

  /** A call that is still waiting has met no failure, has moved at least a byte for every answer that took something,
      and has not sent enough unless the kernel has not taken anything yet. */
  lemma {:induction false} OutputWaits(buffered: nat, minLen: nat, len: nat, sent: nat, offer: Offer,
          script: seq<Answer>)
    requires minLen <= len && sent < buffered + len && (offer.BufferOnly? ==> sent < buffered)
    requires OutputPlan(buffered, minLen, len, sent, offer, script).outcome.Waiting?
    ensures var p := OutputPlan(buffered, minLen, len, sent, offer, script);
            Failed !in script && p.sent >= sent + PositiveCounts(script) &&
            (AnyCount(script) ==> p.sent < buffered + minLen)
    decreases |script|
  {
    if script != [] {
      var offered, rest := Offered(buffered, len, sent, offer), script[1..];
      assert script == [script[0]] + rest;
      match script[0]
      case Eintr => OutputWaits(buffered, minLen, len, sent, offer, rest);
      case Eagain => OutputWaits(buffered, minLen, len, sent, OneByte, rest);
      case Failed =>
      case Count(n) =>
        var now := sent + Min(n, offered);
        var next := if now < buffered && offer != Everything then BufferOnly else Everything;
        OutputWaits(buffered, minLen, len, now, next, rest);
        OutputGrows(buffered, minLen, len, now, next, rest);
        if !AnyCount(rest) { NothingMoves(buffered, minLen, len, now, next, rest); }
    }
  }

  lemma {:induction false} OutputGrows(buffered: nat, minLen: nat, len: nat, sent: nat, offer: Offer,
          script: seq<Answer>)
    requires sent <= buffered + len
    ensures OutputPlan(buffered, minLen, len, sent, offer, script).sent >= sent
    decreases |script|
  {
    if script != [] {
      var offered, rest := Offered(buffered, len, sent, offer), script[1..];
      match script[0]
      case Eintr => OutputGrows(buffered, minLen, len, sent, offer, rest);
      case Eagain => OutputGrows(buffered, minLen, len, sent, OneByte, rest);
      case Failed =>
      case Count(n) =>
        var now := sent + Min(n, offered);
        var next := if now < buffered && offer != Everything then BufferOnly else Everything;
        OutputGrows(buffered, minLen, len, now, next, rest);
    }
  }

  lemma {:induction false} NothingMoves(buffered: nat, minLen: nat, len: nat, sent: nat, offer: Offer,
          script: seq<Answer>)
    requires sent <= buffered + len && !AnyCount(script)
    ensures OutputPlan(buffered, minLen, len, sent, offer, script).sent == sent
    decreases |script|
  {
    if script != [] {
      var rest := script[1..];
      assert !script[0].Count?;
      match script[0]
      case Eintr => NothingMoves(buffered, minLen, len, sent, offer, rest);
      case Eagain => NothingMoves(buffered, minLen, len, sent, OneByte, rest);
      case _ =>
    }
  }

  /** A kernel that neither fails nor would block: the call has succeeded exactly when something was taken and the
      buffer and `minLen` bytes have been, and is waiting otherwise; a waiting call has sent all that was taken. */
  lemma {:induction false} OutputSteady(buffered: nat, minLen: nat, len: nat, sent: nat, script: seq<Answer>)
    requires minLen <= len && sent <= buffered + len && (AnyCount(script) ==> sent < buffered + len)
    requires Failed !in script && Eagain !in script
    ensures var p := OutputPlan(buffered, minLen, len, sent, Everything, script);
            (p.outcome.Done? <==> AnyCount(script) && sent + SumOfCounts(script) >= buffered + minLen) &&
            (p.outcome.Done? ==> p.sent == buffered + p.outcome.count >= buffered + minLen) &&
            (!p.outcome.Done? ==> p == Progress(Waiting, sent + SumOfCounts(script)))
    decreases |script|
  {
    if script != [] {
      var rest := script[1..];
      assert script == [script[0]] + rest;
      match script[0]
      case Eintr => OutputSteady(buffered, minLen, len, sent, rest);
      case Count(n) =>
        assert AnyCount(script);
        var now := sent + Min(n, buffered + len - sent);
        if now < buffered + minLen {
          assert now == sent + n;
          OutputSteady(buffered, minLen, len, now, rest);
          if !AnyCount(rest) { NoSum(rest); }
        }
    }
  }

  lemma {:induction false} NoSum(script: seq<Answer>)
    requires !AnyCount(script)
    ensures SumOfCounts(script) == 0
    decreases |script|
  {
    if script != [] {
      NoSum(script[1..]);
    }
  }

  /** Failures are the kernel's. */
  lemma {:induction false} OutputErrors(buffered: nat, minLen: nat, len: nat, sent: nat, offer: Offer,
          script: seq<Answer>)
    requires sent <= buffered + len
    ensures var r := OutputPlan(buffered, minLen, len, sent, offer, script).outcome; r.IoError? ==> r.cause in script
    decreases |script|
  {
    if script != [] {
      var offered, rest := Offered(buffered, len, sent, offer), script[1..];
      assert script == [script[0]] + rest;
      match script[0]
      case Eintr => OutputErrors(buffered, minLen, len, sent, offer, rest);
      case Eagain => OutputErrors(buffered, minLen, len, sent, OneByte, rest);
      case Failed =>
      case Count(n) =>
        var now := sent + Min(n, offered);
        var next := if now < buffered && offer != Everything then BufferOnly else Everything;
        OutputErrors(buffered, minLen, len, now, next, rest);
    }
  }

  /** A single EAGAIN is survived: the next byte goes alone, and the call goes on from there. */
  lemma {:induction false} OneEagain(buffered: nat, minLen: nat, len: nat, sent: nat, n: nat, script: seq<Answer>)
    requires minLen <= len && sent + 1 < buffered + len && sent + 1 < buffered + minLen && n > 0
    ensures OutputPlan(buffered, minLen, len, sent, Everything, [Eagain, Count(n)] + script) ==
            OutputPlan(buffered, minLen, len, sent + 1, if sent + 1 < buffered then BufferOnly else Everything, script)
    ensures OutputPlan(buffered, minLen, len, sent, Everything, [Eagain, Eagain] + script) ==
            Progress(IoError(Good(buffered, sent), Eagain), sent)
  {
    var s, t := [Eagain, Count(n)] + script, [Eagain, Eagain] + script;
    assert s[1..] == [Count(n)] + script && s[1..][1..] == script;
    assert t[1..] == [Eagain] + script;
  }

  // ----- input -----

  /** An answer to `readv`; no bytes at all is the end of the file. */
  datatype ReadAnswer = Interrupted | ReadFailed | Data(bytes: Bytes)

  datatype ReadProgress = ReadProgress(outcome: Outcome, read: Bytes)

  /** With `got` bytes in the bigstring and an empty buffer of `size`: a call reads into the rest of the bigstring and
      the buffer behind it, and ends when `minLen` bytes are there. */
  function InputPlan(got: nat, minLen: nat, len: nat, size: nat, script: seq<ReadAnswer>): ReadProgress
    requires minLen <= len && got <= len
    decreases |script|
  {
    if script == [] then ReadProgress(Waiting, [])
    else
      match script[0]
      case Interrupted => InputPlan(got, minLen, len, size, script[1..])
      case ReadFailed => ReadProgress(IoError(got, Failed), [])
      case Data(bytes) =>
        var n := Min(|bytes|, len - got + size);
        if n == 0 then ReadProgress(if len == 0 then Done(0) else EofError(got), [])
        else if got + n >= minLen then ReadProgress(Done(Min(len, got + n)), bytes[..n])
        else
          var rest := InputPlan(got + n, minLen, len, size, script[1..]);
          ReadProgress(rest.outcome, bytes[..n] + rest.read)
  }

  /** All the bytes of the answers. */
  function AllData(script: seq<ReadAnswer>): Bytes {
    if script == [] then [] else (if script[0].Data? then script[0].bytes else []) + AllData(script[1..])
  }

  predicate AnyData(script: seq<ReadAnswer>) { script != [] && (script[0].Data? || AnyData(script[1..])) }

  /** No failure and no end of the file. */
  predicate Flows(script: seq<ReadAnswer>) {
    script != [] ==> !script[0].ReadFailed? && script[0] != Data([]) && Flows(script[1..])
  }

  /** A call that is still waiting has met no failure and no end of file, has read everything that came, and has too
      little unless nothing came. */
  lemma {:induction false} InputWaits(got: nat, minLen: nat, len: nat, size: nat, script: seq<ReadAnswer>)
    requires minLen <= len && got <= len && got < len + size
    requires InputPlan(got, minLen, len, size, script).outcome.Waiting?
    ensures Flows(script) && InputPlan(got, minLen, len, size, script).read == AllData(script)
    ensures AnyData(script) ==> got + |AllData(script)| < minLen
    decreases |script|
  {
    if script != [] {
      var rest := script[1..];
      match script[0]
      case Interrupted => InputWaits(got, minLen, len, size, rest);
      case ReadFailed =>
      case Data(bytes) =>
        assert bytes[..|bytes|] == bytes;
        InputWaits(got + |bytes|, minLen, len, size, rest);
        if !AnyData(rest) { NoData(rest); }
    }
  }

  lemma {:induction false} NoData(script: seq<ReadAnswer>)
    requires !AnyData(script)
    ensures AllData(script) == []
    decreases |script|
  {
    if script != [] {
      NoData(script[1..]);
    }
  }

  /** Failures and the end of the file are the kernel's. */
  lemma {:induction false} InputErrors(got: nat, minLen: nat, len: nat, size: nat, script: seq<ReadAnswer>)
    requires minLen <= len && got <= len && (len > 0 ==> got < len)
    ensures var r := InputPlan(got, minLen, len, size, script).outcome;
            (r.IoError? ==> ReadFailed in script) && (r.EofError? ==> Data([]) in script)
    decreases |script|
  {
    if script != [] {
      var rest := script[1..];
      assert script == [script[0]] + rest;
      match script[0]
      case Interrupted => InputErrors(got, minLen, len, size, rest);
      case ReadFailed =>
      case Data(bytes) =>
        var n := Min(|bytes|, len - got + size);
        if n > 0 && got + n < minLen { InputErrors(got + n, minLen, len, size, rest); }
    }
  }

  /** Bytes are read in the order in which they come. */
  lemma {:induction false} InputReadsPrefix(got: nat, minLen: nat, len: nat, size: nat, script: seq<ReadAnswer>)
    requires minLen <= len && got <= len
    ensures InputPlan(got, minLen, len, size, script).read <= AllData(script)
    decreases |script|
  {
    if script != [] {
      var rest := script[1..];
      if script[0].Interrupted? { InputReadsPrefix(got, minLen, len, size, rest); }
      if script[0].Data? {
        var bytes := script[0].bytes;
        var n := Min(|bytes|, len - got + size);
        assert bytes[..|bytes|] == bytes;
        if n > 0 && got + n < minLen { InputReadsPrefix(got + n, minLen, len, size, rest); }
      }
    }
  }

  /** Without failures and the end of the file: the call has succeeded exactly when something came and is enough;
      otherwise it has read everything and waits. */
  lemma {:induction false} InputSteady(got: nat, minLen: nat, len: nat, size: nat, script: seq<ReadAnswer>)
    requires minLen <= len && got <= len && got < len + size && Flows(script)
    ensures var p := InputPlan(got, minLen, len, size, script);
            (p.outcome.Done? <==> AnyData(script) && got + |AllData(script)| >= minLen) &&
            (p.outcome.Done? ==> p.outcome.count == Min(len, got + |p.read|) >= minLen) &&
            (!p.outcome.Done? ==> p == ReadProgress(Waiting, AllData(script)))
    decreases |script|
  {
    if script != [] {
      var rest := script[1..];
      if script[0].Interrupted? {
        InputSteady(got, minLen, len, size, rest);
      } else {
        var bytes := script[0].bytes;
        assert AnyData(script) && |AllData(script)| == |bytes| + |AllData(rest)|;
        var n := Min(|bytes|, len - got + size);
        if got + n < minLen {
          assert n == |bytes| && bytes[..n] == bytes;
          InputSteady(got + n, minLen, len, size, rest);
          if !AnyData(rest) { NoData(rest); }
        }
      }
    }
  }
}

/**
 * The two log handlers that forward warnings to a Telegram chat. Both cut
 * a formatted log entry into pieces of at most 4000 characters; the
 * current handler appends the pieces to its send queue, the legacy one
 * starts one send per message, numbering the pieces "[i/n] " when there
 * is more than one.
 */
module TelegramLog {
  import opened Wrappers
  import opened Seqs
  import opened Text

  /** `MAX_MESSAGE_LENGTH` of both handlers. */
  const MaxMessageLength := 4000

  // ---------------------------------------------------------------------
  // `_split_message`
  // ---------------------------------------------------------------------

  /** Consecutive slices of 4000 characters, the last one possibly shorter. */
  function Chunks(message: string): seq<string>
    decreases |message|
  {
    if message == [] then []
    else
      var end := if |message| < MaxMessageLength then |message| else MaxMessageLength;
      [message[..end]] + Chunks(message[end..])
  }

  /**
   * The chunks concatenate back to the message; none is empty and none
   * is longer than the limit; all but the last are exactly at the limit;
   * there are as many as the limit divides into the length, rounded up.
   */
  lemma {:induction false} ChunksSound(message: string)
    ensures Concat(Chunks(message)) == message
    ensures forall i :: 0 <= i < |Chunks(message)| ==> 1 <= |Chunks(message)[i]| <= MaxMessageLength
    ensures forall i :: 0 <= i < |Chunks(message)| - 1 ==> |Chunks(message)[i]| == MaxMessageLength
    ensures |Chunks(message)| == (|message| + MaxMessageLength - 1) / MaxMessageLength
    decreases |message|
  {
    if message != [] {
      var end := if |message| < MaxMessageLength then |message| else MaxMessageLength;
      var rest := message[end..];
      ChunksSound(rest);
      ConcatCons(message[..end], Chunks(rest));
      assert message == message[..end] + rest;
      assert Chunks(message) == [message[..end]] + Chunks(rest);
      forall i | 1 <= i < |Chunks(message)| ensures Chunks(message)[i] == Chunks(rest)[i - 1] {
      }
      if end < MaxMessageLength {
        assert rest == [];
      }
    }
  }

  /** An empty entry has no chunks; a non-empty one within the limit is its only chunk. */
  lemma ChunksShort(message: string)
    requires |message| <= MaxMessageLength
    ensures message == [] ==> Chunks(message) == []
    ensures message != [] ==> Chunks(message) == [message]
  {
    if message != [] {
      assert message[|message|..] == [];
      assert message[..|message|] == message;
    }
  }

  /** `_split_message`: `start` advances by the limit while it is inside the message. */
  method SplitMessage(message: string) returns (chunks: seq<string>)
    ensures chunks == Chunks(message)
  {
    chunks := [];
    var start := 0;
    while start < |message|
      invariant 0 <= start <= |message| || (start > |message| && chunks == Chunks(message))
      invariant start <= |message| ==> chunks + Chunks(message[start..]) == Chunks(message)
      decreases |message| - start
    {
      var end := start + MaxMessageLength;
      var rest := message[start..];
      var stop := if end < |message| then end else |message|;
      var chunk := message[start..stop];
      assert chunk == rest[..stop - start];
      assert Chunks(rest) == [chunk] + Chunks(rest[stop - start..]);
      assert rest[stop - start..] == message[stop..];
      chunks := chunks + [chunk];
      if end >= |message| {
        assert Chunks(message[stop..]) == [];
      }
      start := end;
    }
    if start == |message| {
      assert Chunks(message[start..]) == [];
    }
  }

  // ---------------------------------------------------------------------
  // Numbering
  // ---------------------------------------------------------------------

  /** `f"[{idx}/{total}] "`. */
  function Label(idx: nat, total: nat): string
  {
    "[" + NatToString(idx) + "/" + NatToString(total) + "] "
  }

  /** Every chunk behind its label, counting from 1. */
  function Numbered(chunks: seq<string>): (r: seq<string>)
    ensures |r| == |chunks|
  {
    seq(|chunks|, i requires 0 <= i < |chunks| => Label(i + 1, |chunks|) + chunks[i])
  }

  /** A label reads back as its index and total, and ends in "] ". */
  lemma LabelParts(idx: nat, total: nat)
    ensures var l := Label(idx, total);
      l[0] == '[' && l[|l| - 2..] == "] "
      && l[1..1 + |NatToString(idx)|] == NatToString(idx) && ParseDigits(NatToString(idx)) == idx
      && l[1 + |NatToString(idx)|] == '/'
      && ParseDigits(l[2 + |NatToString(idx)|..|l| - 2]) == total
  {
    var l := Label(idx, total);
    var a, b := NatToString(idx), NatToString(total);
    assert l == "[" + a + "/" + b + "] ";
    assert l[2 + |a|..|l| - 2] == b;
  }

  // ---------------------------------------------------------------------
  // The current handler: `emit` appends to the send queue
  // ---------------------------------------------------------------------

  /** What `emit` queues for one entry: the chunks, numbered when there are several. */
  function Queued(entry: string): seq<string>
  {
    var chunks := Chunks(entry);
    if |chunks| > 1 then Numbered(chunks) else chunks
  }

  /** An entry over the limit has at least two chunks. */
  lemma ChunksLong(message: string)
    requires |message| > MaxMessageLength
    ensures |Chunks(message)| >= 2
  {
    var rest := message[MaxMessageLength..];
    assert Chunks(message) == [message[..MaxMessageLength]] + Chunks(rest);
    assert |Chunks(rest)| >= 1;
  }

  /**
   * An empty entry queues nothing; an entry within the limit is queued
   * unchanged; a longer one is queued as at least two messages, the i-th
   * being "[i/n] " and the i-th chunk, the chunks together giving back
   * the entry.
   */
  lemma QueuedSound(entry: string)
    ensures entry == [] ==> Queued(entry) == []
    ensures 0 < |entry| <= MaxMessageLength ==> Queued(entry) == [entry]
    ensures |entry| > MaxMessageLength ==>
      var q := Queued(entry);
      |q| >= 2 && |q| == |Chunks(entry)|
      && (forall i :: 0 <= i < |q| ==> q[i] == Label(i + 1, |q|) + Chunks(entry)[i])
      && Concat(Chunks(entry)) == entry
  {
    if |entry| <= MaxMessageLength {
      ChunksShort(entry);
    } else {
      ChunksLong(entry);
      QueuedAt(entry);
      ChunksConcat(entry);
    }
  }

  /** The chunks concatenate back to the message. */
  lemma {:induction false} ChunksConcat(message: string)
    ensures Concat(Chunks(message)) == message
    decreases |message|
  {
    if message != [] {
      var end := if |message| < MaxMessageLength then |message| else MaxMessageLength;
      ChunksConcat(message[end..]);
      ConcatCons(message[..end], Chunks(message[end..]));
      assert message == message[..end] + message[end..];
    }
  }

  /** The i-th queued message is the i-th chunk, behind its label when there are several. */
  lemma QueuedAt(entry: string)
    ensures var chunks := Chunks(entry);
      |Queued(entry)| == |chunks|
      && forall i :: 0 <= i < |chunks| ==>
        Queued(entry)[i] == if |chunks| > 1 then Label(i + 1, |chunks|) + chunks[i] else chunks[i]
  {
  }

  /** The handler with its queue of messages waiting for the worker. */
  class TelegramLogHandler {
    /** `_queue`, oldest first. */
    var queue: seq<string>
    /** How many records were handed to `handleError`. */
    var errors: nat

    constructor ()
      ensures queue == [] && errors == 0
    {
      queue := [];
      errors := 0;
    }

    /**
     * `emit`. `entry` is what `self.format(record)` gave, or the error it
     * raised; an error goes to `handleError` and queues nothing. Otherwise
     * the messages for the entry are appended behind what was queued.
     */
    method Emit(entry: Result<string>)
      modifies this
      ensures entry.Failure? ==> queue == old(queue) && errors == old(errors) + 1
      ensures entry.Success? ==> queue == old(queue) + Queued(entry.value) && errors == old(errors)
    {
      if entry.Failure? {
        errors := errors + 1;
        return;
      }
      var messages := SplitMessage(entry.value);
      ghost var start := queue;
      ghost var q := Queued(entry.value);
      QueuedAt(entry.value);
      for idx := 0 to |messages|
        invariant queue == start + q[..idx]
        invariant errors == old(errors)
      {
        var chunk := messages[idx];
        if |messages| > 1 {
          chunk := Label(idx + 1, |messages|) + chunk;
        }
        assert chunk == q[idx];
        TakeSnoc(q, idx);
        queue := queue + [chunk];
      }
      assert q[..|messages|] == q;
    }
  }

  // ---------------------------------------------------------------------
  // The legacy handler: `emit` starts the sends itself
  // ---------------------------------------------------------------------

  /** What the legacy `emit` sends for one entry. */
  function LegacySent(entry: string): seq<string>
  {
    if |entry| <= MaxMessageLength then [entry] else Numbered(Chunks(entry))
  }

  /**
   * The legacy handler sends what the current one queues, except for an
   * empty entry: that one is sent as an empty message where the current
   * handler queues nothing.
   */
  lemma LegacySentAgrees(entry: string)
    ensures entry != [] ==> LegacySent(entry) == Queued(entry)
    ensures entry == [] ==> LegacySent(entry) == [""] && Queued(entry) == []
    ensures |entry| > MaxMessageLength ==> |LegacySent(entry)| >= 2
  {
    QueuedSound(entry);
  }

  /** The legacy handler with the sends it has started. */
  class LegacyTelegramLogHandler {
    /** The texts of the `send_message` tasks created so far. */
    var outbox: seq<string>
    /** How many records were handed to `handleError`. */
    var errors: nat

    constructor ()
      ensures outbox == [] && errors == 0
    {
      outbox := [];
      errors := 0;
    }

    /**
     * `emit`. `entry` is the formatted record or the error formatting
     * raised, and `loopRunning` says whether an event loop runs, without
     * which `asyncio.create_task` raises before the first send. Either
     * error goes to `handleError` and sends nothing.
     */
    method Emit(entry: Result<string>, loopRunning: bool)
      modifies this
      ensures entry.Failure? || !loopRunning ==> outbox == old(outbox) && errors == old(errors) + 1
      ensures entry.Success? && loopRunning ==> outbox == old(outbox) + LegacySent(entry.value) && errors == old(errors)
    {
      if entry.Failure? || !loopRunning {
        errors := errors + 1;
        return;
      }
      var logEntry := entry.value;
      if |logEntry| <= MaxMessageLength {
        outbox := outbox + [logEntry];
      } else {
        var chunks := SplitMessage(logEntry);
        var total := |chunks|;
        ghost var start := outbox;
        for idx := 0 to total
          invariant outbox == start + Numbered(chunks)[..idx]
          invariant errors == old(errors)
        {
          var numbered := Label(idx + 1, total) + chunks[idx];
          TakeSnoc(Numbered(chunks), idx);
          outbox := outbox + [numbered];
        }
        assert Numbered(chunks)[..total] == Numbered(chunks);
      }
    }
  }
}

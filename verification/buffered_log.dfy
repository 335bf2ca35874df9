/**
 * The in-memory log buffer: the last `capacity` records, kept in a deque
 * with a maximum length, and exported as text or as a UTF-8 file.
 */
module BufferedLog {
  import opened Wrappers
  import opened Seqs
  import opened Text

  /**
   * The record fields the default format prints. `excText` is the
   * traceback text of a record logged with exception information (as
   * `logger.exception` does), `stackInfo` the stack of one logged with
   * `stack_info`; both are None otherwise.
   */
  datatype LogRecord = LogRecord(
    asctime: string, levelName: string, userId: string, username: string, name: string, message: string,
    excText: Option<string>, stackInfo: Option<string>)

  /** The format string: time, level, user id and name, logger name and message. */
  function FormatMessage(r: LogRecord): string
  {
    r.asctime + " [" + r.levelName + "] [u_id=" + r.userId + " u_n=@" + r.username + "] " + r.name + ": " + r.message
  }

  /** Python truthiness of an optional text. */
  predicate Truthy(block: Option<string>)
  {
    block.Some? && block.value != []
  }

  /**
   * How `Formatter.format` adds the traceback or the stack: a truthy block
   * goes after the text, on a new line unless the text already ends with
   * one; a falsy block adds nothing.
   */
  function AppendBlock(s: string, block: Option<string>): (r: string)
    ensures s <= r
    ensures !Truthy(block) ==> r == s
    ensures Truthy(block) ==> '\n' in r && |block.value| <= |r| && r[|r| - |block.value|..] == block.value
  {
    if !Truthy(block) then s
    else
      var sep := if s != [] && s[|s| - 1] == '\n' then "" else "\n";
      var r := s + sep + block.value;
      assert r[|r| - |block.value|..] == block.value;
      assert sep == "" ==> r[|s| - 1] == '\n';
      assert sep != "" ==> r[|s|] == '\n';
      r
  }

  /** `logging.Formatter(...).format`: the format string, then the traceback, then the stack. */
  function DefaultFormat(r: LogRecord): string
  {
    AppendBlock(AppendBlock(FormatMessage(r), r.excText), r.stackInfo)
  }

  /**
   * A record without traceback or stack prints as its format string alone;
   * one with either starts with the format string and spans more than one
   * line, ending with the stack if there is one and else with the
   * traceback.
   */
  lemma DefaultFormatBlocks(r: LogRecord)
    ensures FormatMessage(r) <= DefaultFormat(r)
    ensures !Truthy(r.excText) && !Truthy(r.stackInfo) ==> DefaultFormat(r) == FormatMessage(r)
    ensures Truthy(r.excText) || Truthy(r.stackInfo) ==> '\n' in DefaultFormat(r)
    ensures Truthy(r.excText) && !Truthy(r.stackInfo) ==>
      var out := DefaultFormat(r); out[|out| - |r.excText.value|..] == r.excText.value
    ensures Truthy(r.stackInfo) ==>
      var out := DefaultFormat(r); out[|out| - |r.stackInfo.value|..] == r.stackInfo.value
  {
    var s := FormatMessage(r);
    var withExc := AppendBlock(s, r.excText);
    var out := AppendBlock(withExc, r.stackInfo);
    if '\n' in withExc {
      var i :| 0 <= i < |withExc| && withExc[i] == '\n';
      assert out[i] == '\n';
    }
  }

  /** The last `n` elements of `s`, all of them when there are fewer. */
  function LastN<T>(s: seq<T>, n: nat): seq<T>
  {
    if |s| <= n then s else s[|s| - n..]
  }

  /** `deque.append` on a deque with `maxlen`: a full deque drops its oldest element first. */
  function DequeAppend<T>(buf: seq<T>, x: T, maxlen: nat): seq<T>
  {
    if maxlen == 0 then []
    else if |buf| >= maxlen then buf[|buf| - maxlen + 1..] + [x]
    else buf + [x]
  }

  /**
   * Appending to a deque that holds the last `maxlen` of a history gives
   * the last `maxlen` of the history with the new element.
   */
  lemma LastNAppend<T>(history: seq<T>, x: T, maxlen: nat)
    ensures LastN(history + [x], maxlen) == DequeAppend(LastN(history, maxlen), x, maxlen)
  {
    var h := history + [x];
    if maxlen > 0 && |history| >= maxlen {
      var tail := LastN(history, maxlen);
      assert tail == history[|history| - maxlen..];
      assert tail[1..] + [x] == h[|h| - maxlen..];
    }
  }

  /**
   * The buffer never holds more than `capacity` records, is a suffix of
   * what was emitted, and keeps every one of the last `capacity` records
   * in emission order.
   */
  lemma LastNSound<T>(history: seq<T>, n: nat)
    ensures |LastN(history, n)| == if |history| < n then |history| else n
    ensures LastN(history, n) == history[|history| - |LastN(history, n)|..]
  {
  }

  class BufferedLogHandler {
    /** `capacity`, the deque's `maxlen`. */
    const capacity: nat
    /** `buffer`, oldest record first. */
    var buffer: seq<LogRecord>
    /** Every record emitted so far. */
    ghost var history: seq<LogRecord>

    ghost predicate Valid()
      reads this
    {
      buffer == LastN(history, capacity)
    }

    constructor (capacity: nat)
      ensures Valid() && this.capacity == capacity && buffer == [] && history == []
    {
      this.capacity := capacity;
      buffer := [];
      history := [];
    }

    /**
     * `emit`: the record joins the end of the buffer; when the buffer is
     * full, exactly its oldest record leaves.
     */
    method Emit(record: LogRecord)
      requires Valid()
      modifies this
      ensures Valid() && history == old(history) + [record]
      ensures |buffer| <= capacity
      ensures capacity > 0 && |old(buffer)| < capacity ==> buffer == old(buffer) + [record]
      ensures capacity > 0 && |old(buffer)| == capacity ==> buffer == old(buffer)[1..] + [record]
      ensures capacity == 0 ==> buffer == []
    {
      LastNAppend(history, record, capacity);
      buffer := DequeAppend(buffer, record, capacity);
      history := history + [record];
    }

    /** `get_logs_as_file`: the UTF-8 text in a new file positioned at its start. */
    method GetLogsAsFile(formatter: Option<LogRecord -> string>) returns (file: BytesIO)
      ensures fresh(file)
      ensures file.content == Utf8(LogsText(buffer, formatter)) && file.position == 0
    {
      var bytes := Utf8(LogsText(buffer, formatter));
      file := new BytesIO();
      file.Write(bytes);
      assert file.content == bytes by {
        assert [][..0] + bytes + [] == bytes;
      }
      file.Seek(0);
    }
  }

  /** `formatter or logging.Formatter(...)`: a formatter object is always truthy. */
  function FormatOrDefault(formatter: Option<LogRecord -> string>): LogRecord -> string
  {
    if formatter.Some? then formatter.value else DefaultFormat
  }

  /** `get_logs_as_text`: the formatted records in buffer order, one per line. */
  function LogsText(buffer: seq<LogRecord>, formatter: Option<LogRecord -> string>): string
  {
    Join("\n", Map(buffer, FormatOrDefault(formatter)))
  }

  /**
   * An empty buffer gives empty text; otherwise, when no formatted record
   * holds a newline, cutting the text at its newlines gives back the
   * formatted records one by one, so no newline is added at the end.
   */
  lemma LogsTextLines(buffer: seq<LogRecord>, formatter: Option<LogRecord -> string>)
    ensures buffer == [] ==> LogsText(buffer, formatter) == ""
    ensures var fmt := FormatOrDefault(formatter);
      buffer != [] && (forall i :: 0 <= i < |buffer| ==> '\n' !in fmt(buffer[i])) ==>
      SplitOn(LogsText(buffer, formatter), '\n') == Map(buffer, fmt)
  {
    var fmt := FormatOrDefault(formatter);
    var lines := Map(buffer, fmt);
    if buffer != [] && (forall i :: 0 <= i < |buffer| ==> '\n' !in fmt(buffer[i])) {
      forall p | p in lines ensures '\n' !in p {
        var i :| 0 <= i < |lines| && lines[i] == p;
        assert lines[i] == fmt(buffer[i]);
      }
      SplitOnJoin(lines, '\n');
    }
  }

  /** An in-memory binary file: its bytes and the read/write position. */
  class BytesIO {
    var content: seq<byte>
    var position: nat

    constructor ()
      ensures content == [] && position == 0
    {
      content := [];
      position := 0;
    }

    /** Writes over the bytes at the position, padding with zeros past the end, and moves past them. */
    method Write(bs: seq<byte>)
      modifies this
      ensures var padded := if old(position) <= |old(content)| then old(content) else old(content) + seq(old(position) - |old(content)|, _ => 0 as byte);
        content == padded[..old(position)] + bs + (if old(position) + |bs| < |padded| then padded[old(position) + |bs|..] else [])
      ensures position == old(position) + |bs|
    {
      var padded := if position <= |content| then content else content + seq(position - |content|, _ => 0 as byte);
      content := padded[..position] + bs + (if position + |bs| < |padded| then padded[position + |bs|..] else []);
      position := position + |bs|;
    }

    method Seek(offset: nat)
      modifies this
      ensures position == offset && content == old(content)
    {
      position := offset;
    }
  }
}

/**
 The file-backed audit sink (crates/qfc-audit/src/file.rs): append one JSON line
 per event, recover the chain head on open, replay a file against a key.

 The JSON line format is a parameter with the one law that a written line reads
 back as its event. A failed write either leaves the file alone or leaves the
 whole line behind (`flush` or `sync_all` failed); torn lines are not modelled.
 */
module FileSink {
  import opened Bytes
  import opened Outcomes
  import opened WalletTypes
  import opened AuditChain

  const NEWLINE: byte := 0x0a

  datatype LineCodec = LineCodec(write: AuditEvent -> Bytes, read: Bytes -> Option<AuditEvent>)

  ghost predicate Faithful(codec: LineCodec) {
    forall e {:trigger codec.write(e)} ::
      codec.write(e) != [] && NEWLINE !in codec.write(e) && codec.read(codec.write(e)) == Some(e)
  }

  // ------------------------------------------------------------ lines

  /** Where the first line ends: at the first newline, or at the end. */
  function LineEnd(content: Bytes): (n: nat)
    ensures n <= |content|
    ensures NEWLINE !in content[..n]
    ensures n < |content| ==> content[n] == NEWLINE
  {
    if content == [] || content[0] == NEWLINE then 0
    else
      var n := LineEnd(content[1..]);
      assert content[..n + 1] == [content[0]] + content[1..][..n];
      n + 1
  }

  /** The non-empty lines. */
  function Lines(content: Bytes): seq<Bytes>
    decreases |content|
  {
    if content == [] then []
    else
      var n := LineEnd(content);
      var rest := if n < |content| then Lines(content[n + 1..]) else [];
      if n == 0 then rest else [content[..n]] + rest
  }

  lemma {:induction false} LineEndUnique(line: Bytes, rest: Bytes)
    requires NEWLINE !in line
    ensures LineEnd(line + [NEWLINE] + rest) == |line|
  {
    if line != [] {
      LineEndUnique(line[1..], rest);
      assert (line + [NEWLINE] + rest)[1..] == line[1..] + [NEWLINE] + rest;
    }
  }

  lemma FirstLine(line: Bytes, rest: Bytes)
    requires line != [] && NEWLINE !in line
    ensures Lines(line + [NEWLINE] + rest) == [line] + Lines(rest)
  {
    var content := line + [NEWLINE] + rest;
    LineEndUnique(line, rest);
    assert content[..|line|] == line && content[|line| + 1..] == rest;
  }

  /** A file holding a log. */
  function File(codec: LineCodec, log: seq<AuditEvent>): Bytes {
    if log == [] then [] else codec.write(log[0]) + [NEWLINE] + File(codec, log[1..])
  }

  lemma {:induction false} FileAppend(codec: LineCodec, log: seq<AuditEvent>, e: AuditEvent)
    ensures File(codec, log + [e]) == File(codec, log) + (codec.write(e) + [NEWLINE])
  {
    if log == [] {
      assert (log + [e])[1..] == [];
    } else {
      FileAppend(codec, log[1..], e);
      assert (log + [e])[1..] == log[1..] + [e];
    }
  }

  function Written(codec: LineCodec, log: seq<AuditEvent>): (r: seq<Bytes>)
    ensures |r| == |log| && forall i :: 0 <= i < |log| ==> r[i] == codec.write(log[i])
  {
    seq(|log|, i requires 0 <= i < |log| => codec.write(log[i]))
  }

  lemma {:induction false} LinesOfFile(codec: LineCodec, log: seq<AuditEvent>)
    requires Faithful(codec)
    ensures Lines(File(codec, log)) == Written(codec, log)
  {
    hide Lines;
    if log == [] {
      assert Lines([]) == [] by { NoLines(); }
    } else {
      LinesOfFile(codec, log[1..]);
      FirstLine(codec.write(log[0]), File(codec, log[1..]));
    }
  }

  lemma NoLines()
    ensures Lines([]) == []
  {
  }

  // ------------------------------------------------------------ recovery and replay

  /** `recover_chain_head`: only the last line is read; a file of bare newlines panics. */
  function Recover(c: Crypto, codec: LineCodec, content: Bytes): Outcome<(Hash, nat), AuditError> {
    if content == [] then Ok((ZERO, 0))
    else
      var lines := Lines(content);
      if lines == [] then Panic
      else
        var event := codec.read(lines[|lines| - 1]);
        if event.None? then Err(Serde) else Ok((NextHead(c, event.value), |lines|))
  }

  /** The unwrap in `recover_chain_head` fails exactly on non-empty files of newlines only. */
  lemma RecoverPanicsExactly(c: Crypto, codec: LineCodec, content: Bytes)
    ensures Recover(c, codec, content) == Panic
            <==> content != [] && forall i :: 0 <= i < |content| ==> content[i] == NEWLINE
  {
    NoLinesExactly(content);
  }

  /** A file of one empty line. */
  lemma NewlineFilePanics(c: Crypto, codec: LineCodec)
    ensures Recover(c, codec, [NEWLINE]) == Panic
  {
    RecoverPanicsExactly(c, codec, [NEWLINE]);
  }

  lemma {:induction false} NoLinesExactly(content: Bytes)
    ensures Lines(content) == [] <==> forall i :: 0 <= i < |content| ==> content[i] == NEWLINE
    decreases |content|
  {
    if content != [] {
      var n := LineEnd(content);
      if n == 0 {
        assert content[0] == NEWLINE;
        NoLinesExactly(content[1..]);
        if Lines(content) == [] {
          forall i | 0 <= i < |content| ensures content[i] == NEWLINE {
            if i > 0 { assert content[1..][i - 1] == NEWLINE; }
          }
        }
      } else {
        assert content[..n][0] == content[0];
      }
    }
  }

  function ReplayLines(c: Crypto, codec: LineCodec, vk: Bytes, lines: seq<Bytes>, prev: Hash): Outcome<nat,
      AuditError> {
    if lines == [] then Ok(0)
    else
      var event := codec.read(lines[0]);
      if event.None? then Err(Serde)
      else if event.value.prevEventHash != prev then Err(CryptoError)
      else if VerifyEvent(c, event.value, vk) != Ok(true) then Err(CryptoError)
      else
        var rest := ReplayLines(c, codec, vk, lines[1..], NextHead(c, event.value));
        if rest.Ok? then Ok(rest.value + 1) else rest
  }

  function ReplayFile(c: Crypto, codec: LineCodec, vk: Bytes, content: Bytes): Outcome<nat, AuditError> {
    ReplayLines(c, codec, vk, Lines(content), ZERO)
  }

  function Plus(n: nat, r: Outcome<nat, AuditError>): Outcome<nat, AuditError> {
    if r.Ok? then Ok(n + r.value) else r
  }

  /** The replay loop, with its running hash and count. */
  method ReplayVerify(c: Crypto, codec: LineCodec, vk: Bytes, content: Bytes) returns (r: Outcome<nat, AuditError>)
    ensures r == ReplayFile(c, codec, vk, content)
  {
    hide Lines, VerifyEvent, NextHead;
    if content == [] {
      NoLines();
      return Ok(0);
    }
    var lines := Lines(content);
    var prev, n := ZERO, 0;
    for i := 0 to |lines|
      invariant Plus(n, ReplayLines(c, codec, vk, lines[i..], prev)) == ReplayFile(c, codec, vk, content)
    {
      assert lines[i..][1..] == lines[i + 1..];
      var event := codec.read(lines[i]);
      if event.None? {
        return Err(Serde);
      }
      if event.value.prevEventHash != prev {
        return Err(CryptoError);
      }
      var v := VerifyEvent(c, event.value, vk);
      if v != Ok(true) {
        return Err(CryptoError);
      }
      prev := NextHead(c, event.value);
      n := n + 1;
    }
    return Ok(n);
  }

  lemma {:induction false} ReplayWritten(c: Crypto, codec: LineCodec, vk: Bytes, log: seq<AuditEvent>, prev: Hash)
    requires Faithful(codec)
    ensures ReplayLines(c, codec, vk, Written(codec, log), prev) == Replay(c, vk, log, prev)
  {
    hide VerifyEvent, NextHead;
    if log != [] {
      var lines := Written(codec, log);
      assert lines[0] == codec.write(log[0]);
      assert lines[1..] == Written(codec, log[1..]);
      ReplayWritten(c, codec, vk, log[1..], NextHead(c, log[0]));
    }
  }

  /** On a file that holds a log, replay and recovery speak of that log. */
  lemma FileSpeaks(c: Crypto, codec: LineCodec, vk: Bytes, log: seq<AuditEvent>)
    requires Faithful(codec)
    ensures Recover(c, codec, File(codec, log)) == Ok((Head(c, log), |log|))
    ensures ReplayFile(c, codec, vk, File(codec, log)) == Ok(|log|) <==> Accepted(c, vk, log)
    ensures ReplayFile(c, codec, vk, File(codec, log)).Ok? ==> Accepted(c, vk, log)
  {
    hide Lines, Accepted, ReplayLines, Replay, NextHead;
    LinesOfFile(codec, log);
    ReplayWritten(c, codec, vk, log, ZERO);
    ReplayExactly(c, vk, log);
    if log != [] {
      assert File(codec, log) != [];
      assert Written(codec, log)[|log| - 1] == codec.write(log[|log| - 1]);
    }
  }

  // ------------------------------------------------------------ the sink

  datatype WriteOutcome = Durable | NotWritten | WrittenButFailed

  datatype SinkState = SinkState(content: Bytes, prev: Hash, written: nat)

  function EmitStep(c: Crypto, codec: LineCodec, key: Bytes, s: SinkState, draft: Draft, id: Ulid, now: int,
                    io: WriteOutcome): SinkState
  {
    var e := Stamp(c, key, s.prev, draft, id, now);
    var longer := s.content + (codec.write(e) + [NEWLINE]);
    match io
    case Durable => SinkState(longer, NextHead(c, e), s.written + 1)
    case NotWritten => s
    case WrittenButFailed => s.(content := longer)
  }

  class LogFile {
    var content: Bytes

    constructor (initial: Bytes)
      ensures content == initial
    {
      content := initial;
    }
  }

  class FileAuditSink {
    const c: Crypto
    const codec: LineCodec
    const key: Bytes
    const file: LogFile
    var prevEventHash: Hash
    var written: nat

    function State(): SinkState
      reads this, file
    {
      SinkState(file.content, prevEventHash, written)
    }

    constructor (c: Crypto, codec: LineCodec, key: Bytes, file: LogFile, prev: Hash, written: nat)
      ensures this.c == c && this.codec == codec && this.key == key && this.file == file
      ensures State() == SinkState(file.content, prev, written)
    {
      this.c, this.codec, this.key, this.file := c, codec, key, file;
      this.prevEventHash, this.written := prev, written;
    }

    /** Opens a sink on a file; the in-memory head and count are those recovered from it. */
    static method Open(c: Crypto, codec: LineCodec, key: Bytes, file: LogFile)
      returns (r: Outcome<(Hash, nat), AuditError>, sink: FileAuditSink?)
      ensures r == Recover(c, codec, file.content)
      ensures r.Ok? <==> sink != null
      ensures sink != null ==> fresh(sink) && sink.file == file && sink.c == c && sink.codec == codec && sink.key == key
      ensures sink != null ==> sink.State() == SinkState(file.content, r.value.0, r.value.1)
    {
      r := Recover(c, codec, file.content);
      sink := null;
      if r.Ok? {
        sink := new FileAuditSink(c, codec, key, file, r.value.0, r.value.1);
      }
    }

    method Emit(draft: Draft, id: Ulid, now: int, io: WriteOutcome) returns (r: Outcome<AuditEvent, AuditError>)
      modifies this, file
      ensures State() == EmitStep(c, codec, key, old(State()), draft, id, now, io)
      ensures r == if io == Durable then Ok(Stamp(c, key, old(prevEventHash), draft, id, now)) else Err(Io)
    {
      var preimage := SigningPreimage(c, prevEventHash, id, draft.kind, draft.details);
      var signature := c.sign(key, preimage);
      var event := AuditEvent(id, prevEventHash, now, draft.actor, draft.kind, draft.requestId, draft.walletId,
                              draft.details, signature);
      var line := codec.write(event) + [NEWLINE];
      if io != NotWritten {
        file.content := file.content + line;
      }
      if io != Durable {
        return Err(Io);
      }
      prevEventHash := c.hash(preimage + signature);
      written := written + 1;
      return Ok(event);
    }
  }

  // ------------------------------------------------------------ runs

  datatype Op = Emit(draft: Draft, id: Ulid, now: int, io: WriteOutcome) | Reopen

  /** One step of a run; a reopen that fails stops the run. */
  function Step(c: Crypto, codec: LineCodec, key: Bytes, s: SinkState, op: Op): Outcome<SinkState, AuditError> {
    match op
    case Emit(draft, id, now, io) => Ok(EmitStep(c, codec, key, s, draft, id, now, io))
    case Reopen =>
      match Recover(c, codec, s.content)
      case Ok((head, n)) => Ok(SinkState(s.content, head, n))
      case Err(e) => Err(e)
      case Panic => Panic
  }

  function Run(c: Crypto, codec: LineCodec, key: Bytes, s: SinkState, ops: seq<Op>): Outcome<SinkState, AuditError>
    decreases |ops|
  {
    if ops == [] then Ok(s)
    else
      match Step(c, codec, key, s, ops[0])
      case Ok(next) => Run(c, codec, key, next, ops[1..])
      case Err(e) => Err(e)
      case Panic => Panic
  }

  /** The file holds an accepted log, and memory holds its head and length. */
  ghost predicate Synced(c: Crypto, codec: LineCodec, key: Bytes, s: SinkState, log: seq<AuditEvent>) {
    && s.content == File(codec, log) && Accepted(c, c.publicKey(key), log)
    && s.prev == Head(c, log) && s.written == |log|
  }

  lemma DurableEmitKeepsSynced(c: Crypto, codec: LineCodec, key: Bytes, s: SinkState, log: seq<AuditEvent>, op: Op)
    requires Faithful(codec) && SignsAndVerifies(c, key) && Synced(c, codec, key, s, log)
    requires op.Emit? && op.io == Durable
    ensures Step(c, codec, key, s, op).Ok?
    ensures Synced(c, codec, key, Step(c, codec, key, s, op).value, log
                   + [Stamp(c, key, s.prev, op.draft, op.id, op.now)])
  {
    hide Accepted, File, Verified, NextHead, SignsAndVerifies;
    var e := Stamp(c, key, s.prev, op.draft, op.id, op.now);
    StampVerifies(c, key, s.prev, op.draft, op.id, op.now);
    AcceptedExtend(c, c.publicKey(key), log, e);
    FileAppend(codec, log, e);
  }

  /** Clean runs: no write fails after leaving its line behind. */
  ghost predicate Clean(ops: seq<Op>) {
    forall i :: 0 <= i < |ops| ==> ops[i].Emit? ==> ops[i].io != WrittenButFailed
  }

  /**
   Over any clean run of emits, failed emits and reopens, the run never stops,
   memory equals what recovery computes from the file, and replay accepts the
   file with that count.
   */
  lemma {:induction false} RunsStaySynced(c: Crypto, codec: LineCodec, key: Bytes, s: SinkState,
                                          log: seq<AuditEvent>, ops: seq<Op>)
    requires Faithful(codec) && SignsAndVerifies(c, key) && Synced(c, codec, key, s, log) && Clean(ops)
    ensures var r := Run(c, codec, key, s, ops);
            && r.Ok?
            && Recover(c, codec, r.value.content) == Ok((r.value.prev, r.value.written))
            && ReplayFile(c, codec, c.publicKey(key), r.value.content) == Ok(r.value.written)
            && (exists log' :: Synced(c, codec, key, r.value, log') && log <= log')
    decreases |ops|
  {
    hide Recover, ReplayFile, Accepted, File, Head, SignsAndVerifies, Faithful;
    FileSpeaks(c, codec, c.publicKey(key), log);
    if ops != [] {
      var op := ops[0];
      assert Clean(ops[1..]);
      var next := Step(c, codec, key, s, op).value;
      if op.Emit? && op.io == Durable {
        DurableEmitKeepsSynced(c, codec, key, s, log, op);
        var longer := log + [Stamp(c, key, s.prev, op.draft, op.id, op.now)];
        RunsStaySynced(c, codec, key, next, longer, ops[1..]);
        var log' :| Synced(c, codec, key, Run(c, codec, key, s, ops).value, log') && longer <= log';
        assert log <= log';
      } else {
        assert next == s;
        RunsStaySynced(c, codec, key, s, log, ops[1..]);
      }
    }
  }

  /** A new sink on a new file is synced with the empty log. */
  lemma EmptySynced(c: Crypto, codec: LineCodec, key: Bytes)
    ensures Synced(c, codec, key, SinkState([], ZERO, 0), [])
  {
  }

  /**
   What a write that fails after the line reached the file does: a reopen heals
   it, but an emit without one breaks the chain, unless the hash happens to map
   the lost event back to the head it extended.
   */
  lemma DriftBreaksReplay(c: Crypto, codec: LineCodec, key: Bytes, s: SinkState, log: seq<AuditEvent>, lost: Op,
                          next: Op)
    requires Faithful(codec) && SignsAndVerifies(c, key) && Synced(c, codec, key, s, log)
    requires lost.Emit? && lost.io == WrittenButFailed && next.Emit? && next.io == Durable
    ensures var e := Stamp(c, key, s.prev, lost.draft, lost.id, lost.now);
            && (var healed := Run(c, codec, key, s, [lost, Reopen]);
                healed.Ok? && Synced(c, codec, key, healed.value, log + [e]))
            && (var drifted := Run(c, codec, key, s, [lost, next]);
                && drifted.Ok?
                && (ReplayFile(c, codec, c.publicKey(key), drifted.value.content).Ok? <==> NextHead(c, e) == s.prev))
  {
    hide Recover, ReplayFile, Accepted, File, NextHead, Verified, SignsAndVerifies, Faithful;
    var vk := c.publicKey(key);
    var e, f := Stamp(c, key, s.prev, lost.draft, lost.id, lost.now),
        Stamp(c, key, s.prev, next.draft, next.id, next.now);
    StampVerifies(c, key, s.prev, lost.draft, lost.id, lost.now);
    StampVerifies(c, key, s.prev, next.draft, next.id, next.now);
    AcceptedExtend(c, vk, log, e);
    FileAppend(codec, log, e);
    FileAppend(codec, log + [e], f);
    FileSpeaks(c, codec, vk, log + [e]);
    FileSpeaks(c, codec, vk, log + [e] + [f]);
    RunTwo(c, codec, key, s, lost, Reopen);
    RunTwo(c, codec, key, s, lost, next);
    if NextHead(c, e) == s.prev {
      AcceptedExtend(c, vk, log + [e], f);
    }
    if Accepted(c, vk, log + [e] + [f]) {
      AcceptedPrefix(c, vk, log + [e] + [f]);
      assert (log + [e] + [f])[..|log| + 1] == log + [e];
    }
  }

  lemma RunTwo(c: Crypto, codec: LineCodec, key: Bytes, s: SinkState, a: Op, b: Op)
    requires a.Emit?
    ensures Run(c, codec, key, s, [a, b]) == Step(c, codec, key, Step(c, codec, key, s, a).value, b)
  {
    var next := Step(c, codec, key, s, a).value;
    assert [a, b][1..] == [b];
    assert [b][1..] == [];
    assert Run(c, codec, key, next, [b]) == Step(c, codec, key, next, b);
  }

  // ------------------------------------------------------------ when replay accepts a run

  /** The write fails after its line reached the file. */
  predicate Late(op: Op) {
    op.Emit? && op.io == WrittenButFailed
  }

  /** The line reaches the file. */
  predicate Lands(op: Op) {
    op.Emit? && op.io != NotWritten
  }

  /** No line lands between a late failure and the next reopen: a condition on the run alone. */
  ghost predicate Undisturbed(ops: seq<Op>) {
    forall i, j :: 0 <= i < j < |ops| && Late(ops[i]) && Lands(ops[j]) ==> exists k :: i < k < j && ops[k].Reopen?
  }

  /** The same, read from left to right: `behind` says that memory trails the file. */
  predicate Tidy(ops: seq<Op>, behind: bool) {
    if ops == [] then true
    else if ops[0].Reopen? then Tidy(ops[1..], false)
    else if !Lands(ops[0]) then Tidy(ops[1..], behind)
    else !behind && Tidy(ops[1..], Late(ops[0]))
  }

  /** Some line lands before the first reopen. */
  ghost predicate LandsFirst(ops: seq<Op>) {
    exists j :: 0 <= j < |ops| && Lands(ops[j]) && forall k :: 0 <= k < j ==> !ops[k].Reopen?
  }

  lemma LandsFirstStep(ops: seq<Op>)
    requires ops != []
    ensures LandsFirst(ops) <==> Lands(ops[0]) || (!ops[0].Reopen? && LandsFirst(ops[1..]))
  {
    if LandsFirst(ops) {
      var j :| 0 <= j < |ops| && Lands(ops[j]) && forall k :: 0 <= k < j ==> !ops[k].Reopen?;
      if j > 0 {
        assert ops[1..][j - 1] == ops[j];
        assert forall k :: 0 <= k < j - 1 ==> ops[1..][k] == ops[k + 1];
      }
    }
    if !ops[0].Reopen? && LandsFirst(ops[1..]) {
      var j :| 0 <= j < |ops[1..]| && Lands(ops[1..][j]) && forall k :: 0 <= k < j ==> !ops[1..][k].Reopen?;
      assert ops[j + 1] == ops[1..][j];
      forall k | 0 <= k < j + 1 ensures !ops[k].Reopen? {
        if k > 0 { assert ops[k] == ops[1..][k - 1]; }
      }
    }
  }

  lemma UndisturbedStep(ops: seq<Op>)
    requires ops != []
    ensures Undisturbed(ops) <==> Undisturbed(ops[1..]) && !(Late(ops[0]) && LandsFirst(ops[1..]))
  {
    var rest := ops[1..];
    if Undisturbed(ops) {
      forall i, j | 0 <= i < j < |rest| && Late(rest[i]) && Lands(rest[j])
          ensures exists k :: i < k < j && rest[k].Reopen? {
        assert rest[i] == ops[i + 1] && rest[j] == ops[j + 1];
        var k :| i + 1 < k < j + 1 && ops[k].Reopen?;
        assert rest[k - 1] == ops[k];
      }
      forall j | 0 <= j < |rest| && Late(ops[0]) && Lands(rest[j]) ensures exists k :: 0 <= k < j && rest[k].Reopen? {
        assert rest[j] == ops[j + 1];
        var k :| 0 < k < j + 1 && ops[k].Reopen?;
        assert rest[k - 1] == ops[k];
      }
    }
    if Undisturbed(rest) && !(Late(ops[0]) && LandsFirst(rest)) {
      forall i, j | 0 <= i < j < |ops| && Late(ops[i]) && Lands(ops[j])
          ensures exists k :: i < k < j && ops[k].Reopen? {
        assert ops[j] == rest[j - 1];
        if i == 0 {
          var k :| 0 <= k < j - 1 && rest[k].Reopen?;
          assert ops[k + 1] == rest[k];
        } else {
          assert ops[i] == rest[i - 1];
          var k :| i - 1 < k < j - 1 && rest[k].Reopen?;
          assert ops[k + 1] == rest[k];
        }
      }
    }
  }

  lemma {:induction false} TidyExactly(ops: seq<Op>, behind: bool)
    ensures Tidy(ops, behind) <==> Undisturbed(ops) && !(behind && LandsFirst(ops))
  {
    if ops != [] {
      hide Undisturbed, LandsFirst;
      UndisturbedStep(ops);
      LandsFirstStep(ops);
      TidyExactly(ops[1..], if ops[0].Reopen? then false else if Lands(ops[0]) then Late(ops[0]) else behind);
    }
  }

  /** The events a run leaves in the file, given the head in memory. */
  ghost function LogAfter(c: Crypto, key: Bytes, prev: Hash, log: seq<AuditEvent>, ops: seq<Op>): seq<AuditEvent>
    decreases |ops|
  {
    if ops == [] then log
    else
      match ops[0]
      case Reopen => LogAfter(c, key, Head(c, log), log, ops[1..])
      case Emit(draft, id, now, io) =>
        var e := Stamp(c, key, prev, draft, id, now);
        match io
        case NotWritten => LogAfter(c, key, prev, log, ops[1..])
        case Durable => LogAfter(c, key, NextHead(c, e), log + [e], ops[1..])
        case WrittenButFailed => LogAfter(c, key, prev, log + [e], ops[1..])
  }

  function Landed(ops: seq<Op>): nat {
    if ops == [] then 0 else (if Lands(ops[0]) then 1 else 0) + Landed(ops[1..])
  }

  /** How many late failures the last reopen has not caught up with. */
  function Drift(ops: seq<Op>, drift: nat): nat {
    if ops == [] then drift
    else Drift(ops[1..], if ops[0].Reopen? then 0 else if Late(ops[0]) then drift + 1 else drift)
  }

  /**
   Any run, tidy or not: it never stops, every landed line is in the file, and the
   count in memory trails the file by exactly the late failures since the last reopen.
   */
  lemma {:induction false} RunAccount(c: Crypto, codec: LineCodec, key: Bytes, s: SinkState, log: seq<AuditEvent>,
                                      ops: seq<Op>, drift: nat)
    requires Faithful(codec) && s.content == File(codec, log) && s.written + drift == |log|
    ensures var r := Run(c, codec, key, s, ops);
            var final := LogAfter(c, key, s.prev, log, ops);
            && r.Ok? && r.value.content == File(codec, final) && log <= final
            && |final| == |log| + Landed(ops) && r.value.written + Drift(ops, drift) == |final|
    decreases |ops|
  {
    hide Recover, File, Head, NextHead, Faithful, Stamp, ReplayFile, Accepted;
    if ops != [] {
      var op := ops[0];
      match op {
        case Reopen =>
          FileSpeaks(c, codec, [], log);
          RunAccount(c, codec, key, SinkState(s.content, Head(c, log), |log|), log, ops[1..], 0);
        case Emit(draft, id, now, io) =>
          var e := Stamp(c, key, s.prev, draft, id, now);
          FileAppend(codec, log, e);
          var next := EmitStep(c, codec, key, s, draft, id, now, io);
          if io == NotWritten {
            RunAccount(c, codec, key, s, log, ops[1..], drift);
          } else {
            RunAccount(c, codec, key, next, log + [e], ops[1..], if io == Durable then drift else drift + 1);
          }
      }
    }
  }

  lemma {:induction false} LogAfterGrows(c: Crypto, key: Bytes, prev: Hash, log: seq<AuditEvent>, ops: seq<Op>)
    ensures log <= LogAfter(c, key, prev, log, ops)
    decreases |ops|
  {
    hide Head, NextHead, Stamp;
    if ops != [] {
      match ops[0] {
        case Reopen => LogAfterGrows(c, key, Head(c, log), log, ops[1..]);
        case Emit(draft, id, now, io) =>
          var e := Stamp(c, key, prev, draft, id, now);
          LogAfterGrows(c, key, prev, log, ops[1..]);
          LogAfterGrows(c, key, prev, log + [e], ops[1..]);
          LogAfterGrows(c, key, NextHead(c, e), log + [e], ops[1..]);
      }
    }
  }

  /** Memory holds the head of the file, or, when behind, the head that its last event extends. */
  ghost predicate Trails(c: Crypto, prev: Hash, log: seq<AuditEvent>, behind: bool) {
    if behind then log != [] && prev == log[|log| - 1].prevEventHash else prev == Head(c, log)
  }

  /** An event whose contribution to the chain is the head it extends. */
  ghost predicate LoopsFrom(c: Crypto, log: seq<AuditEvent>, from: nat) {
    exists i :: from <= i < |log| && NextHead(c, log[i]) == log[i].prevEventHash
  }

  lemma StampExtends(c: Crypto, key: Bytes, log: seq<AuditEvent>, draft: Draft, id: Ulid, now: int)
    requires SignsAndVerifies(c, key) && Accepted(c, c.publicKey(key), log)
    ensures var e := Stamp(c, key, Head(c, log), draft, id, now);
            Accepted(c, c.publicKey(key), log + [e]) && Head(c, log + [e]) == NextHead(c, e)
            && e.prevEventHash == Head(c, log)
  {
    hide Accepted, Verified, NextHead, SignsAndVerifies;
    StampVerifies(c, key, Head(c, log), draft, id, now);
    AcceptedExtend(c, c.publicKey(key), log, Stamp(c, key, Head(c, log), draft, id, now));
  }

  lemma {:induction false} TidyIsAccepted(c: Crypto, key: Bytes, prev: Hash, log: seq<AuditEvent>, ops: seq<Op>,
                                          behind: bool)
    requires SignsAndVerifies(c, key) && Accepted(c, c.publicKey(key), log) && Trails(c, prev, log, behind)
    requires Tidy(ops, behind)
    ensures Accepted(c, c.publicKey(key), LogAfter(c, key, prev, log, ops))
    decreases |ops|
  {
    hide Accepted, Verified, NextHead, SignsAndVerifies, Head, Stamp;
    if ops != [] {
      match ops[0] {
        case Reopen => TidyIsAccepted(c, key, Head(c, log), log, ops[1..], false);
        case Emit(draft, id, now, io) =>
          if io == NotWritten {
            TidyIsAccepted(c, key, prev, log, ops[1..], behind);
          } else {
            var e := Stamp(c, key, prev, draft, id, now);
            StampExtends(c, key, log, draft, id, now);
            TidyIsAccepted(c, key, if io == Durable then NextHead(c, e) else prev, log + [e], ops[1..], io
                           == WrittenButFailed);
          }
      }
    }
  }

  /** A line that lands while memory is behind does not follow the file, unless the last event loops. */
  lemma LandingBehindBreaks(c: Crypto, vk: Bytes, log: seq<AuditEvent>, e: AuditEvent, final: seq<AuditEvent>)
    requires log != [] && e.prevEventHash == log[|log| - 1].prevEventHash
    requires log + [e] <= final && Accepted(c, vk, final)
    ensures NextHead(c, final[|log| - 1]) == final[|log| - 1].prevEventHash
  {
    hide Verified, NextHead;
    var n := |log|;
    assert final[..n] == log by { assert (log + [e])[..n] == log; }
    assert final[n] == (log + [e])[n] == e;
    AcceptedAt(c, vk, final, n);
    assert final[n - 1] == log[n - 1];
  }

  lemma {:induction false} UntidyIsRefused(c: Crypto, key: Bytes, prev: Hash, log: seq<AuditEvent>, ops: seq<Op>,
                                           behind: bool, from: nat)
    requires SignsAndVerifies(c, key) && Accepted(c, c.publicKey(key), log) && Trails(c, prev, log, behind)
    requires !Tidy(ops, behind) && from <= |log| && (behind ==> from < |log|)
    ensures var final := LogAfter(c, key, prev, log, ops);
            Accepted(c, c.publicKey(key), final) ==> LoopsFrom(c, final, from)
    decreases |ops|
  {
    hide Accepted, Verified, NextHead, SignsAndVerifies, Head, Stamp;
    match ops[0] {
      case Reopen => UntidyIsRefused(c, key, Head(c, log), log, ops[1..], false, from);
      case Emit(draft, id, now, io) =>
        if io == NotWritten {
          UntidyIsRefused(c, key, prev, log, ops[1..], behind, from);
        } else {
          var e := Stamp(c, key, prev, draft, id, now);
          var next := if io == Durable then NextHead(c, e) else prev;
          if behind {
            var final := LogAfter(c, key, prev, log, ops);
            StampFields(c, key, prev, draft, id, now);
            LogAfterGrows(c, key, next, log + [e], ops[1..]);
            if Accepted(c, c.publicKey(key), final) {
              LandingBehindBreaks(c, c.publicKey(key), log, e, final);
              assert LoopsFrom(c, final, from);
            }
          } else {
            StampExtends(c, key, log, draft, id, now);
            UntidyIsRefused(c, key, next, log + [e], ops[1..], io == WrittenButFailed, from);
          }
        }
    }
  }

  /**
   The exact condition. From a synced state, over every run of emits with any write
   outcomes and reopens: replay accepts the final file, with its full count, when no
   line landed between a late failure and the next reopen; and if replay accepts
   although one did, some event of the run hashes to the head it extends.
   */
  lemma ReplayAcceptsRunExactly(c: Crypto, codec: LineCodec, key: Bytes, s: SinkState, log: seq<AuditEvent>,
                                ops: seq<Op>)
    requires Faithful(codec) && SignsAndVerifies(c, key) && Synced(c, codec, key, s, log)
    ensures var r := Run(c, codec, key, s, ops);
            var final := LogAfter(c, key, s.prev, log, ops);
            && r.Ok? && r.value.content == File(codec, final) && log <= final
            && |final| == |log| + Landed(ops) && r.value.written == |final| - Drift(ops, 0)
            && (Undisturbed(ops) ==> ReplayFile(c, codec, c.publicKey(key), r.value.content) == Ok(|final|))
            && (!Undisturbed(ops) && ReplayFile(c, codec, c.publicKey(key), r.value.content).Ok?
                ==> LoopsFrom(c, final, |log|))
  {
    hide Accepted, File, Head, NextHead, LogAfter, Run, ReplayFile, Recover, Undisturbed, LandsFirst,
        SignsAndVerifies, Faithful;
    var vk, final := c.publicKey(key), LogAfter(c, key, s.prev, log, ops);
    RunAccount(c, codec, key, s, log, ops, 0);
    FileSpeaks(c, codec, vk, final);
    TidyExactly(ops, false);
    if Tidy(ops, false) {
      TidyIsAccepted(c, key, s.prev, log, ops, false);
    } else {
      UntidyIsRefused(c, key, s.prev, log, ops, false, |log|);
    }
  }

  // ------------------------------------------------------------ the anchor

  ghost predicate AllParse(codec: LineCodec, lines: seq<Bytes>) {
    forall i :: 0 <= i < |lines| ==> codec.read(lines[i]).Some?
  }

  /** The events a replay reads from a list of lines. */
  function Parsed(codec: LineCodec, lines: seq<Bytes>): (log: seq<AuditEvent>)
    requires AllParse(codec, lines)
    ensures |log| == |lines| && forall i :: 0 <= i < |lines| ==> log[i] == codec.read(lines[i]).value
  {
    seq(|lines|, i requires 0 <= i < |lines| => codec.read(lines[i]).value)
  }

  lemma {:induction false} ReplayParsed(c: Crypto, codec: LineCodec, vk: Bytes, lines: seq<Bytes>, prev: Hash)
    requires ReplayLines(c, codec, vk, lines, prev).Ok?
    ensures AllParse(codec, lines)
    ensures Replay(c, vk, Parsed(codec, lines), prev) == ReplayLines(c, codec, vk, lines, prev)
  {
    hide VerifyEvent, NextHead;
    if lines != [] {
      var e := codec.read(lines[0]).value;
      ReplayParsed(c, codec, vk, lines[1..], NextHead(c, e));
      forall i | 0 <= i < |lines| ensures codec.read(lines[i]).Some? {
        if i > 0 { assert lines[i] == lines[1..][i - 1]; }
      }
      assert Parsed(codec, lines)[1..] == Parsed(codec, lines[1..]);
    }
  }

  /**
   A published head and count pin the log down: any file, whatever its bytes,
   that replays to that count and recovers to that head holds a log that agrees
   with the sink's on everything the signatures cover, or yields a hash collision.
   */
  lemma AnchorDetectsTampering(c: Crypto, codec: LineCodec, key: Bytes, s: SinkState, log: seq<AuditEvent>,
                               content: Bytes)
    requires Synced(c, codec, key, s, log)
    requires ReplayFile(c, codec, c.publicKey(key), content) == Ok(s.written)
    requires Recover(c, codec, content) == Ok((s.prev, s.written))
    ensures AllParse(codec, Lines(content))
    ensures var other := Parsed(codec, Lines(content));
            |other| == |log| && (Agree(c, log, other) || Collide(c, log, other))
  {
    hide Accepted, File, Agree, Collide, Replay, ReplayLines, Lines;
    var vk, lines := c.publicKey(key), Lines(content);
    ReplayParsed(c, codec, vk, lines, ZERO);
    var other := Parsed(codec, lines);
    ReplayExactly(c, vk, other);
    if content == [] { NoLines(); }
    HeadCommits(c, vk, log, other);
  }
}

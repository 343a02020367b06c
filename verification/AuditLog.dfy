/** The audit log: a hash chain of records on disk, and a checkpoint of its tail. Writes may fail,
    tear, or commit without being acknowledged; the digest is an abstract function. */
module AuditLog {
  import opened Options

  /** The fields of a record that its caller and the clock supply, already sanitized. */
  datatype Details = Details(
    timestamp: int, profile: string, phase: string, principal: string, verb: string, service: string, route: string,
    project: string, status: int)

  /** A record without its hash: what the digest is taken of. */
  datatype Body = Body(sequence: nat, details: Details, previousHash: string)

  datatype Record = Record(body: Body, hash: string)

  type Digest = Body -> string

  ghost predicate IsDigest(digest: Digest) {
    && (forall a, b :: digest(a) == digest(b) ==> a == b)
    && (forall a :: digest(a) != "")
  }

  /** A line of the file, as the decoder sees it: the first value on it, or none. */
  datatype Line = Decodes(record: Record) | Garbage

  /** The last line may lack its newline; whatever is written next then lands on that line. */
  datatype File = File(lines: seq<Line>, ended: bool)

  /** How far one write got: all of it, all but the newline, part of the record, or nothing. */
  datatype Write = Whole | Unended | Torn | Nothing

  datatype Checkpoint = Missing | Malformed | Tail(sequence: nat, hash: string)

  function Written(file: File, record: Record, write: Write): File {
    if write == Nothing then file
    else if !file.ended then file.(ended := write == Whole)
    else File(file.lines + [if write == Torn then Garbage else Decodes(record)], write == Whole)
  }

  function LastSequence(records: seq<Record>): nat {
    if records == [] then 0 else records[|records| - 1].body.sequence
  }

  function LastHash(records: seq<Record>): string {
    if records == [] then "" else records[|records| - 1].hash
  }

  // ---------------------------------------------------------------------------------------------
  // Verification
  // ---------------------------------------------------------------------------------------------

  predicate Extends(digest: Digest, records: seq<Record>, line: Line) {
    && line.Decodes?
    && line.record.body.sequence == LastSequence(records) + 1
    && line.record.body.previousHash == LastHash(records)
    && line.record.hash != "" && line.record.hash == digest(line.record.body)
  }

  /** readAndVerifyAudit: each line must extend the chain read so far. */
  function Read(digest: Digest, lines: seq<Line>): Option<seq<Record>> {
    if lines == [] then Some([])
    else
      var records := Read(digest, lines[..|lines| - 1]);
      var line := lines[|lines| - 1];
      if records.Some? && Extends(digest, records.value, line) then Some(records.value + [line.record]) else None
  }

  /** verifyAuditPath: the chain must end where the checkpoint says. */
  function Verify(digest: Digest, file: File, checkpoint: Checkpoint): Option<seq<Record>> {
    var records := Read(digest, file.lines);
    if records.None? then None
    else if checkpoint.Missing? then (if records.value == [] then records else None)
    else if checkpoint.Malformed? then None
    else if records.value == [] || checkpoint != TailOf(records.value) then None
    else records
  }

  function TailOf(records: seq<Record>): Checkpoint {
    if records == [] then Missing else Tail(LastSequence(records), LastHash(records))
  }

  function Lines(records: seq<Record>): seq<Line> {
    seq(|records|, i requires 0 <= i < |records| => Decodes(records[i]))
  }

  predicate Links(digest: Digest, records: seq<Record>, k: nat)
    requires k < |records|
  {
    && records[k].body.sequence == k + 1
    && records[k].body.previousHash == (if k == 0 then "" else records[k - 1].hash)
    && records[k].hash == digest(records[k].body) != ""
  }

  /** The meaning of a chain, without reference to how it is read. */
  predicate IsChain(digest: Digest, records: seq<Record>) {
    forall k: nat :: k < |records| ==> Links(digest, records, k)
  }

  lemma ChainLength(digest: Digest, records: seq<Record>)
    requires IsChain(digest, records)
    ensures LastSequence(records) == |records|
  {
    assert |records| > 0 ==> Links(digest, records, |records| - 1);
  }

  lemma PrefixIsChain(digest: Digest, records: seq<Record>, n: nat)
    requires IsChain(digest, records) && n <= |records|
    ensures IsChain(digest, records[..n])
  {
    forall k: nat | k < n ensures Links(digest, records[..n], k) {
      assert Links(digest, records, k);
    }
  }

  lemma ExtendIsChain(digest: Digest, records: seq<Record>, record: Record)
    requires IsChain(digest, records) && Extends(digest, records, Decodes(record))
    ensures IsChain(digest, records + [record])
  {
    var grown := records + [record];
    assert |records| > 0 ==> Links(digest, records, |records| - 1);
    forall k: nat | k < |grown| ensures Links(digest, grown, k) {
      assert k < |records| ==> Links(digest, records, k);
    }
  }

  lemma {:induction false} ReadMeansChain(digest: Digest, lines: seq<Line>, records: seq<Record>)
    requires Read(digest, lines) == Some(records)
    ensures lines == Lines(records) && IsChain(digest, records)
    decreases |lines|
  {
    if lines != [] {
      var last := |lines| - 1;
      var shorter := Read(digest, lines[..last]).value;
      ReadMeansChain(digest, lines[..last], shorter);
      ExtendIsChain(digest, shorter, lines[last].record);
      assert lines == lines[..last] + [lines[last]] == Lines(records);
    }
  }

  lemma {:induction false} ChainIsRead(digest: Digest, records: seq<Record>)
    requires IsChain(digest, records)
    ensures Read(digest, Lines(records)) == Some(records)
    decreases |records|
  {
    if records != [] {
      var last := |records| - 1;
      var lines, shorter := Lines(records), records[..last];
      PrefixIsChain(digest, records, last);
      ChainIsRead(digest, shorter);
      assert lines[..last] == Lines(shorter);
      assert Links(digest, records, last) && (last > 0 ==> Links(digest, records, last - 1));
      assert Extends(digest, shorter, lines[last]);
      assert records == shorter + [records[last]];
    }
  }

  /** Reading succeeds exactly on the lines of a chain, and returns that chain. */
  lemma ReadIff(digest: Digest, lines: seq<Line>, records: seq<Record>)
    ensures Read(digest, lines) == Some(records) <==> lines == Lines(records) && IsChain(digest, records)
  {
    if Read(digest, lines) == Some(records) {
      ReadMeansChain(digest, lines, records);
    }
    if IsChain(digest, records) {
      ChainIsRead(digest, records);
    }
  }

  /** Verification accepts exactly the chains whose tail the checkpoint names. */
  lemma VerifyIff(digest: Digest, file: File, checkpoint: Checkpoint, records: seq<Record>)
    ensures Verify(digest, file, checkpoint) == Some(records)
       <==> file.lines == Lines(records) && IsChain(digest, records) && checkpoint == TailOf(records)
  {
    ReadIff(digest, file.lines, records);
  }

  /** Chains of equal length with equal last hashes are equal. */
  lemma {:induction false} ChainIsDetermined(digest: Digest, a: seq<Record>, b: seq<Record>)
    requires IsDigest(digest) && IsChain(digest, a) && IsChain(digest, b)
    requires |a| == |b| && LastHash(a) == LastHash(b)
    ensures a == b
  {
    if a != [] {
      var last := |a| - 1;
      assert Links(digest, a, last) && Links(digest, b, last);
      PrefixIsChain(digest, a, last);
      PrefixIsChain(digest, b, last);
      ChainIsDetermined(digest, a[..last], b[..last]);
      assert a == a[..last] + [a[last]] && b == b[..last] + [b[last]];
    }
  }

  /** Tamper evidence: against one checkpoint at most one file content is accepted. */
  lemma CheckpointDeterminesLog(digest: Digest, a: File, b: File, checkpoint: Checkpoint)
    requires IsDigest(digest)
    requires Verify(digest, a, checkpoint).Some? && Verify(digest, b, checkpoint).Some?
    ensures Verify(digest, a, checkpoint) == Verify(digest, b, checkpoint) && a.lines == b.lines
  {
    var first, second := Verify(digest, a, checkpoint).value, Verify(digest, b, checkpoint).value;
    VerifyIff(digest, a, checkpoint, first);
    VerifyIff(digest, b, checkpoint, second);
    ChainLength(digest, first);
    ChainLength(digest, second);
    ChainIsDetermined(digest, first, second);
  }

  // ---------------------------------------------------------------------------------------------
  // The log object
  // ---------------------------------------------------------------------------------------------

  /** What one append meets: its write, its sync, and the replacement of the checkpoint. */
  datatype Outcome = Outcome(write: Write, syncs: bool, checkpoints: bool)

  datatype Log = Log(file: File, checkpoint: Checkpoint, open: bool, sequence: nat, lastHash: string)

  function NextRecord(digest: Digest, log: Log, details: Details): Record {
    var body := Body(log.sequence + 1, details, log.lastHash);
    Record(body, digest(body))
  }

  /** An append that passes its sync counts, even when its checkpoint then fails. */
  predicate Counts(log: Log, outcome: Outcome) { log.open && outcome.write == Whole && outcome.syncs }

  function Appended(digest: Digest, log: Log, details: Details, outcome: Outcome): Log {
    var record := NextRecord(digest, log, details);
    if !log.open then log
    else if !Counts(log, outcome) then log.(file := Written(log.file, record, outcome.write))
    else
      Log(Written(log.file, record, Whole),
          if outcome.checkpoints then Tail(record.body.sequence, record.hash) else log.checkpoint,
          true, record.body.sequence, record.hash)
  }

  /** A restart: the log opens only if what is on disk verifies. */
  function Reopened(digest: Digest, log: Log): Log {
    var records := Verify(digest, log.file, log.checkpoint);
    if records.None? then log.(open := false)
    else log.(open := true, sequence := LastSequence(records.value), lastHash := LastHash(records.value))
  }

  class Disk {
    var file: File
    var checkpoint: Checkpoint

    constructor ()
      ensures file == File([], true) && checkpoint == Missing
    {
      file, checkpoint := File([], true), Missing;
    }

    /** readAndVerifyAudit and verifyAuditPath. */
    method VerifyAuditPath(digest: Digest) returns (result: Option<seq<Record>>)
      ensures result == Verify(digest, file, checkpoint)
    {
      var records: seq<Record> := [];
      var sequence: nat, previousHash := 0, "";
      for index := 0 to |file.lines|
        invariant Read(digest, file.lines[..index]) == Some(records)
        invariant sequence == LastSequence(records) && previousHash == LastHash(records)
      {
        assert file.lines[..index + 1][..index] == file.lines[..index];
        var line := file.lines[index];
        if line.Garbage? || line.record.body.sequence != sequence + 1 || line.record.body.previousHash != previousHash
           || line.record.hash == "" || line.record.hash != digest(line.record.body) {
          assert !Extends(digest, records, line);
          RefusedForGood(digest, file.lines, index + 1);
          return None;
        }
        var record := line.record;
        records := records + [record];
        sequence, previousHash := record.body.sequence, record.hash;
      }
      assert file.lines[..|file.lines|] == file.lines;
      match checkpoint
      case Missing => return if |records| == 0 then Some(records) else None;
      case Malformed => return None;
      case Tail(tailSequence, tailHash) =>
        return if |records| == 0 || tailSequence != sequence || tailHash != previousHash then None else Some(records);
    }
  }

  lemma {:induction false} RefusedForGood(digest: Digest, lines: seq<Line>, n: nat)
    requires n <= |lines| && Read(digest, lines[..n]).None?
    ensures Read(digest, lines).None?
    decreases |lines|
  {
    if n < |lines| {
      var shorter := lines[..|lines| - 1];
      assert shorter[..n] == lines[..n];
      RefusedForGood(digest, shorter, n);
    } else {
      assert lines[..n] == lines;
    }
  }

  class AuditLog {
    const digest: Digest
    const disk: Disk
    var open: bool
    var sequence: nat
    var lastHash: string
    var failed: bool

    ghost function State(): Log
      reads this, disk
    {
      Log(disk.file, disk.checkpoint, open, sequence, lastHash)
    }

    constructor (digest: Digest, disk: Disk, records: seq<Record>)
      ensures this.digest == digest && this.disk == disk && open && !failed
      ensures sequence == LastSequence(records) && lastHash == LastHash(records)
    {
      this.digest, this.disk, open, failed := digest, disk, true, false;
      sequence, lastHash := 0, "";
      if |records| > 0 {
        sequence, lastHash := records[|records| - 1].body.sequence, records[|records| - 1].hash;
      }
    }

    method Append(details: Details, outcome: Outcome) returns (ok: bool)
      modifies this, disk
      ensures State() == Appended(digest, old(State()), details, outcome)
      ensures ok <==> Counts(old(State()), outcome) && outcome.checkpoints
      ensures failed == (old(failed) || !ok)
    {
      if !open {
        failed := true;
        return false;
      }
      var body := Body(sequence + 1, details, lastHash);
      var record := Record(body, digest(body));
      disk.file := Written(disk.file, record, outcome.write);
      if outcome.write != Whole {
        failed := true;
        return false;
      }
      if !outcome.syncs {
        failed := true;
        return false;
      }
      sequence, lastHash := record.body.sequence, record.hash;
      if !outcome.checkpoints {
        failed := true;
        return false;
      }
      disk.checkpoint := Tail(sequence, lastHash);
      return true;
    }
  }

  method OpenAuditLog(digest: Digest, disk: Disk) returns (log: Option<AuditLog>)
    ensures log.Some? <==> Verify(digest, disk.file, disk.checkpoint).Some?
    ensures log.Some? ==> fresh(log.value) && log.value.digest == digest && log.value.disk == disk
    ensures log.Some? ==> forall before: Log :: before.file == disk.file && before.checkpoint == disk.checkpoint ==>
      log.value.State() == Reopened(digest, before)
  {
    var records := disk.VerifyAuditPath(digest);
    if records.None? {
      return None;
    }
    var audit := new AuditLog(digest, disk, records.value);
    return Some(audit);
  }

  // ---------------------------------------------------------------------------------------------
  // Runs
  // ---------------------------------------------------------------------------------------------

  datatype Step = Append(details: Details, outcome: Outcome) | Reopen

  const EMPTY := Log(File([], true), Missing, true, 0, "")

  function Apply(digest: Digest, log: Log, step: Step): Log {
    match step
    case Append(details, outcome) => Appended(digest, log, details, outcome)
    case Reopen => Reopened(digest, log)
  }

  function After(digest: Digest, steps: seq<Step>): Log {
    if steps == [] then EMPTY else Apply(digest, After(digest, steps[..|steps| - 1]), steps[|steps| - 1])
  }

  /** The records whose append passed its sync, in order. */
  function Recorded(digest: Digest, steps: seq<Step>): seq<Record> {
    if steps == [] then []
    else
      var before := After(digest, steps[..|steps| - 1]);
      var step := steps[|steps| - 1];
      Recorded(digest, steps[..|steps| - 1])
      + (if step.Append? && Counts(before, step.outcome) then [NextRecord(digest, before, step.details)] else [])
  }

  /** The checkpoint names some recorded prefix, memory names the recorded tail, and every recorded
      append ended a line. */
  predicate Inv(digest: Digest, log: Log, recorded: seq<Record>) {
    && IsChain(digest, recorded)
    && |recorded| <= |log.file.lines|
    && (!log.file.ended ==> |recorded| < |log.file.lines|)
    && (log.checkpoint == Missing
        || (log.checkpoint.Tail? && 0 < log.checkpoint.sequence <= |recorded|
            && log.checkpoint.hash == recorded[log.checkpoint.sequence - 1].hash))
    && (log.open ==> log.sequence == |recorded| && log.lastHash == LastHash(recorded))
  }

  /** What verification accepts in a reachable state is all that was recorded. */
  lemma AcceptedIsRecorded(digest: Digest, log: Log, recorded: seq<Record>)
    requires IsDigest(digest) && Inv(digest, log, recorded)
    requires Verify(digest, log.file, log.checkpoint).Some?
    ensures Verify(digest, log.file, log.checkpoint) == Some(recorded)
  {
    var records := Verify(digest, log.file, log.checkpoint).value;
    VerifyIff(digest, log.file, log.checkpoint, records);
    var n := |records|;
    ChainLength(digest, records);
    if n > 0 {
      assert LastHash(recorded[..n]) == recorded[n - 1].hash;
      PrefixIsChain(digest, recorded, n);
      ChainIsDetermined(digest, records, recorded[..n]);
      assert recorded == recorded[..n];
    }
  }

  lemma AppendKeepsInv(digest: Digest, log: Log, recorded: seq<Record>, details: Details, outcome: Outcome)
    requires IsDigest(digest) && Inv(digest, log, recorded)
    ensures Inv(digest, Appended(digest, log, details, outcome),
                if Counts(log, outcome) then recorded + [NextRecord(digest, log, details)] else recorded)
  {
    if Counts(log, outcome) {
      ChainLength(digest, recorded);
      ExtendIsChain(digest, recorded, NextRecord(digest, log, details));
    }
  }

  lemma ReopenKeepsInv(digest: Digest, log: Log, recorded: seq<Record>)
    requires IsDigest(digest) && Inv(digest, log, recorded)
    ensures Inv(digest, Reopened(digest, log), recorded)
  {
    ChainLength(digest, recorded);
    if Verify(digest, log.file, log.checkpoint).Some? {
      AcceptedIsRecorded(digest, log, recorded);
    }
  }

  lemma {:induction false} RunKeepsInv(digest: Digest, steps: seq<Step>)
    requires IsDigest(digest)
    ensures Inv(digest, After(digest, steps), Recorded(digest, steps))
  {
    if steps != [] {
      var rest, step := steps[..|steps| - 1], steps[|steps| - 1];
      RunKeepsInv(digest, rest);
      var log, recorded := After(digest, rest), Recorded(digest, rest);
      match step
      case Append(details, outcome) => AppendKeepsInv(digest, log, recorded, details, outcome);
      case Reopen =>
        ReopenKeepsInv(digest, log, recorded);
        assert recorded + [] == recorded;
    }
  }

  /** After any run, verification accepts exactly when every line on disk is a recorded one and the
      checkpoint is the recorded tail; what it then returns is exactly what was recorded. */
  lemma RunVerifiesIff(digest: Digest, steps: seq<Step>)
    requires IsDigest(digest)
    ensures
      var log := After(digest, steps);
      var result := Verify(digest, log.file, log.checkpoint);
      && (result.Some? <==>
            log.file.lines == Lines(Recorded(digest, steps)) && log.checkpoint == TailOf(Recorded(digest, steps)))
      && (result.Some? ==> result.value == Recorded(digest, steps))
  {
    var log, recorded := After(digest, steps), Recorded(digest, steps);
    RunKeepsInv(digest, steps);
    if Verify(digest, log.file, log.checkpoint).Some? {
      AcceptedIsRecorded(digest, log, recorded);
    }
    VerifyIff(digest, log.file, log.checkpoint, recorded);
  }

  predicate IsClean(step: Step) { step.Append? ==> step.outcome.write == Whole && step.outcome.syncs }

  function DetailsOf(steps: seq<Step>): seq<Details> {
    if steps == [] then []
    else DetailsOf(steps[..|steps| - 1]) + (if steps[|steps| - 1].Append? then [steps[|steps| - 1].details] else [])
  }

  predicate SameDetails(recorded: seq<Record>, details: seq<Details>) {
    |recorded| == |details| && forall k :: 0 <= k < |recorded| ==> recorded[k].body.details == details[k]
  }

  /** A log that once failed to reopen stays closed, since nothing is written to it. */
  predicate CleanInv(digest: Digest, log: Log, recorded: seq<Record>, details: seq<Details>) {
    && log.file == File(Lines(recorded), true)
    && (!log.open ==> Verify(digest, log.file, log.checkpoint).None?)
    && (log.open ==> SameDetails(recorded, details))
  }

  lemma {:induction false} CleanRun(digest: Digest, steps: seq<Step>)
    requires IsDigest(digest) && forall k :: 0 <= k < |steps| ==> IsClean(steps[k])
    ensures CleanInv(digest, After(digest, steps), Recorded(digest, steps), DetailsOf(steps))
  {
    if steps != [] {
      var rest, step := steps[..|steps| - 1], steps[|steps| - 1];
      CleanRun(digest, rest);
      assert IsClean(step);
      var log, recorded := After(digest, rest), Recorded(digest, rest);
      if step.Append? && log.open {
        assert Lines(recorded + [NextRecord(digest, log, step.details)])
            == Lines(recorded) + [Decodes(NextRecord(digest, log, step.details))];
      } else {
        assert recorded + [] == recorded;
        assert step.Reopen? ==> DetailsOf(rest) + [] == DetailsOf(rest);
      }
    }
  }

  /** Appends and reopens whose writes and syncs all succeed, the last append also replacing the
      checkpoint: verification returns exactly the appended records, in order. */
  lemma CleanRunVerifies(digest: Digest, steps: seq<Step>)
    requires IsDigest(digest) && forall k :: 0 <= k < |steps| ==> IsClean(steps[k])
    requires steps != [] && steps[|steps| - 1].Append? && steps[|steps| - 1].outcome.checkpoints
    requires After(digest, steps).open
    ensures
      var log := After(digest, steps);
      var result := Verify(digest, log.file, log.checkpoint);
      result.Some? && SameDetails(result.value, DetailsOf(steps))
  {
    CleanRun(digest, steps);
    RunVerifiesIff(digest, steps);
  }
}

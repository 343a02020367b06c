/** Request bodies of unknown length are spooled to disk against one byte quota for each profile. The
    first half proves the loop that spools one body; the second interleaves any number of them. */
module BodySpool {
  import opened Options

  const MAX_AGGREGATE := 104_857_600
  const BUFFER := 32_768

  class Quota {
    var used: int
    const max: int

    constructor ()
      ensures used == 0 && max == MAX_AGGREGATE
    {
      used, max := 0, MAX_AGGREGATE;
    }

    predicate Valid()
      reads this
    {
      0 <= used <= max
    }

    method Reserve(bytes: int) returns (ok: bool)
      modifies this
      ensures ok <==> 0 <= bytes <= max - old(used)
      ensures used == (if ok then old(used) + bytes else old(used))
      ensures old(Valid()) ==> Valid()
    {
      if bytes < 0 || bytes > max - used {
        return false;
      }
      used := used + bytes;
      return true;
    }

    method Release(bytes: int)
      modifies this
      ensures used == Released(old(used), bytes)
    {
      used := used - bytes;
      if used < 0 {
        used := 0;
      }
    }
  }

  function Released(used: int, bytes: int): int { if used - bytes < 0 then 0 else used - bytes }

  // ---------------------------------------------------------------------------------------------
  // One body
  // ---------------------------------------------------------------------------------------------

  datatype End = More | Eof | OverLimit | Broken

  /** One read of the body: how many bytes, what came with them, and whether writing them works. */
  datatype Chunk = Chunk(count: nat, end: End, written: bool)

  datatype Verdict = Spooled(size: nat) | TooLarge | QuotaExceeded | Failed

  /** A body that ends: only the last read ends it, and no read overfills the buffer. */
  predicate IsBody(chunks: seq<Chunk>) {
    chunks != [] && forall k :: 0 <= k < |chunks| ==>
      chunks[k].count <= BUFFER && (chunks[k].end.More? <==> k < |chunks| - 1)
  }

  function Total(chunks: seq<Chunk>): nat {
    if chunks == [] then 0 else Total(chunks[..|chunks| - 1]) + chunks[|chunks| - 1].count
  }

  /** Chunks that fit the limit and the room left, and whose bytes were written. */
  predicate Fits(chunks: seq<Chunk>, limit: int, room: int) {
    && (Total(chunks) > 0 ==> Total(chunks) <= limit && Total(chunks) <= room)
    && forall k :: 0 <= k < |chunks| && chunks[k].count > 0 ==> chunks[k].written
  }

  lemma {:induction false} TotalOfPrefix(chunks: seq<Chunk>, n: nat)
    requires n <= |chunks|
    ensures Total(chunks[..n]) <= Total(chunks)
    decreases |chunks|
  {
    if n < |chunks| {
      var shorter := chunks[..|chunks| - 1];
      assert chunks[..n] == shorter[..n];
      TotalOfPrefix(shorter, n);
    } else {
      assert chunks[..n] == chunks;
    }
  }

  /** A prefix that does not fit rules out the whole. */
  lemma PrefixMustFit(chunks: seq<Chunk>, n: nat, limit: int, room: int)
    requires n <= |chunks| && !Fits(chunks[..n], limit, room)
    ensures !Fits(chunks, limit, room)
  {
    TotalOfPrefix(chunks, n);
    if forall k :: 0 <= k < |chunks| && chunks[k].count > 0 ==> chunks[k].written {
      assert forall k :: 0 <= k < n && chunks[..n][k].count > 0 ==> chunks[k].written;
    }
  }

  /** The first chunk that does not fit or is not written. */
  predicate StopsAt(chunks: seq<Chunk>, i: nat, limit: int, room: int) {
    i < |chunks| && Fits(chunks[..i], limit, room) && !Fits(chunks[..i + 1], limit, room)
  }

  lemma StopsOnce(chunks: seq<Chunk>, i: nat, j: nat, limit: int, room: int)
    requires StopsAt(chunks, i, limit, room) && j <= |chunks| && Fits(chunks[..j], limit, room)
    ensures j <= i && (j < |chunks| && !Fits(chunks[..j + 1], limit, room) ==> i == j)
  {
    if i < j {
      assert chunks[..j][..i + 1] == chunks[..i + 1];
      PrefixMustFit(chunks[..j], i + 1, limit, room);
    }
    if j < i && !Fits(chunks[..j + 1], limit, room) {
      assert chunks[..i][..j + 1] == chunks[..j + 1];
      PrefixMustFit(chunks[..i], j + 1, limit, room);
    }
  }

  /** The body is cut off at a chunk that brings it over its limit, or over the room left, or is not written. */
  predicate BreaksLimit(chunks: seq<Chunk>, limit: int, room: int) {
    exists i :: 0 <= i < |chunks| && StopsAt(chunks, i, limit, room) && Total(chunks[..i + 1]) > limit
  }

  predicate BreaksQuota(chunks: seq<Chunk>, limit: int, room: int) {
    exists i :: 0 <= i < |chunks| && StopsAt(chunks, i, limit, room) && room < Total(chunks[..i + 1]) <= limit
  }

  /** At such a chunk the one verdict is decided. */
  lemma StopDecides(chunks: seq<Chunk>, i: nat, limit: int, room: int)
    requires StopsAt(chunks, i, limit, room)
    ensures !Fits(chunks, limit, room)
    ensures BreaksLimit(chunks, limit, room) <==> Total(chunks[..i + 1]) > limit
    ensures BreaksQuota(chunks, limit, room) <==> room < Total(chunks[..i + 1]) <= limit
  {
    PrefixMustFit(chunks, i + 1, limit, room);
    forall j | 0 <= j < |chunks| && StopsAt(chunks, j, limit, room) ensures j == i {
      StopsOnce(chunks, i, j, limit, room);
    }
  }

  lemma WholeBreaksNothing(chunks: seq<Chunk>, limit: int, room: int)
    requires Fits(chunks, limit, room)
    ensures !BreaksLimit(chunks, limit, room) && !BreaksQuota(chunks, limit, room)
  {
    forall i | 0 <= i < |chunks| ensures !StopsAt(chunks, i, limit, room) {
      if StopsAt(chunks, i, limit, room) {
        PrefixMustFit(chunks, i + 1, limit, room);
      }
    }
  }

  class SpooledBody {
    const quota: Quota
    var size: int

    constructor (quota: Quota)
      ensures this.quota == quota && size == 0
    {
      this.quota, size := quota, 0;
    }

    /** Reserve, count and write one chunk. */
    method Take(chunk: Chunk, limit: int) returns (failure: Option<Verdict>)
      requires quota.Valid() && size >= 0
      modifies this, quota
      ensures quota.Valid() && quota.used - old(quota.used) == size - old(size)
      ensures size == old(size) || size == old(size) + chunk.count
      ensures failure.None?
        <==> (chunk.count == 0
              || (chunk.count <= limit - old(size) && chunk.count <= quota.max - old(quota.used) && chunk.written))
      ensures failure.None? ==> size == old(size) + chunk.count
      ensures failure == Some(TooLarge) <==> chunk.count > 0 && chunk.count > limit - old(size)
      ensures failure == Some(QuotaExceeded)
         <==> chunk.count > 0 && quota.max - old(quota.used) < chunk.count <= limit - old(size)
      ensures failure.Some? ==> !failure.value.Spooled?
    {
      if chunk.count == 0 {
        return None;
      }
      if chunk.count > limit - size {
        return Some(TooLarge);
      }
      var reserved := quota.Reserve(chunk.count);
      if !reserved {
        return Some(QuotaExceeded);
      }
      size := size + chunk.count;
      return if chunk.written then None else Some(Failed);
    }

    method Close()
      modifies quota
      ensures quota.used == Released(old(quota.used), size)
    {
      quota.Release(size);
    }
  }

  /** Without interference: a body is spooled exactly when all of it fits, ends well and can be sought back
      to its start, and is then charged exactly its length; a body that is refused, at any point, leaves
      no charge behind. */
  method SpoolBody(quota: Quota, chunks: seq<Chunk>, limit: int, seeks: bool)
    returns (verdict: Verdict, body: SpooledBody)
    requires quota.Valid() && IsBody(chunks)
    modifies quota
    ensures fresh(body) && body.quota == quota && quota.Valid()
    ensures verdict.Spooled? <==>
              Fits(chunks, limit, quota.max - old(quota.used)) && chunks[|chunks| - 1].end.Eof? && seeks
    ensures verdict.Spooled? ==>
      verdict.size == body.size == Total(chunks) && quota.used == old(quota.used) + Total(chunks)
    ensures !verdict.Spooled? ==> quota.used == old(quota.used)
    ensures verdict.TooLarge?
       <==> BreaksLimit(chunks, limit, quota.max - old(quota.used))
            || (Fits(chunks, limit, quota.max - old(quota.used)) && chunks[|chunks| - 1].end.OverLimit?)
    ensures verdict.QuotaExceeded? <==> BreaksQuota(chunks, limit, quota.max - old(quota.used))
  {
    var room := quota.max - quota.used;
    body := new SpooledBody(quota);
    var index := 0;
    while true
      invariant 0 <= index < |chunks|
      invariant quota.Valid() && body.size == Total(chunks[..index]) && quota.used == old(quota.used) + body.size
      invariant Fits(chunks[..index], limit, room)
      decreases |chunks| - index
    {
      var chunk := chunks[index];
      assert chunks[..index + 1][..index] == chunks[..index] && chunks[..index + 1][index] == chunk;
      TotalOfPrefix(chunks, index + 1);
      var failure := body.Take(chunk, limit);
      if failure.Some? {
        StopDecides(chunks, index, limit, room);
        body.Close();
        return failure.value, body;
      }
      index := index + 1;
      if !chunk.end.More? {
        assert chunks[..index] == chunks;
        WholeBreaksNothing(chunks, limit, room);
        if chunk.end.Eof? && seeks {
          return Spooled(body.size), body;
        }
        body.Close();
        return if chunk.end.OverLimit? then TooLarge else Failed, body;
      }
    }
  }

  // ---------------------------------------------------------------------------------------------
  // Any number of bodies at once
  // ---------------------------------------------------------------------------------------------

  /** Between two reads; room reserved but the size not yet raised; counted but not yet written;
      returned to the caller; about to be closed after a failure; closed. */
  datatype Phase = Reading | Reserved(bytes: nat) | Writing | Returned | Failing | Closed

  datatype Spool = Spool(size: nat, limit: int, phase: Phase)

  datatype State = State(used: int, max: int, spools: seq<Spool>)

  datatype Step =
    | Open(limit: int)
    | Reserve(id: nat, bytes: nat)
    | Count(id: nat)
    | Write(id: nat, ok: bool)
    | End(id: nat, ok: bool)
    | Close(id: nat)
    | CloseAgain(id: nat)   // what a caller must not do

  predicate Enabled(s: State, step: Step) {
    match step
    case Open(_) => true
    case Reserve(id, bytes) => id < |s.spools| && s.spools[id].phase.Reading? && 0 < bytes <= BUFFER
    case Count(id) => id < |s.spools| && s.spools[id].phase.Reserved?
    case Write(id, _) => id < |s.spools| && s.spools[id].phase.Writing?
    case End(id, _) => id < |s.spools| && s.spools[id].phase.Reading?
    case Close(id) => id < |s.spools| && (s.spools[id].phase.Returned? || s.spools[id].phase.Failing?)
    case CloseAgain(id) => id < |s.spools| && s.spools[id].phase.Closed?
  }

  function Move(s: State, id: nat, phase: Phase): State
    requires id < |s.spools|
  {
    s.(spools := s.spools[id := s.spools[id].(phase := phase)])
  }

  function Apply(s: State, step: Step): State
    requires Enabled(s, step)
  {
    match step
    case Open(limit) => s.(spools := s.spools + [Spool(0, limit, Reading)])
    case Reserve(id, bytes) =>
      if bytes > s.spools[id].limit - s.spools[id].size || bytes > s.max - s.used then Move(s, id, Failing)
      else Move(s, id, Reserved(bytes)).(used := s.used + bytes)
    case Count(id) =>
      var spool := s.spools[id];
      s.(spools := s.spools[id := spool.(size := spool.size + spool.phase.bytes, phase := Writing)])
    case Write(id, ok) => Move(s, id, if ok then Reading else Failing)
    case End(id, ok) => Move(s, id, if ok then Returned else Failing)
    case Close(id) => Move(s, id, Closed).(used := Released(s.used, s.spools[id].size))
    case CloseAgain(id) => s.(used := Released(s.used, s.spools[id].size))
  }

  /** What a spool holds of the quota: its size while it lives, and what it has reserved but not counted. */
  function Holding(spool: Spool): nat {
    match spool.phase
    case Closed => 0
    case Reserved(bytes) => spool.size + bytes
    case _ => spool.size
  }

  function Held(spools: seq<Spool>): nat {
    if spools == [] then 0 else Held(spools[..|spools| - 1]) + Holding(spools[|spools| - 1])
  }

  lemma {:induction false} HeldAfterUpdate(spools: seq<Spool>, id: nat, spool: Spool)
    requires id < |spools|
    ensures Held(spools[id := spool]) == Held(spools) - Holding(spools[id]) + Holding(spool)
    decreases |spools|
  {
    var last := |spools| - 1;
    if id < last {
      HeldAfterUpdate(spools[..last], id, spool);
      assert spools[id := spool][..last] == spools[..last][id := spool];
    } else {
      assert spools[id := spool][..last] == spools[..last];
    }
  }

  predicate WithinLimit(spool: Spool) { Holding(spool) > 0 ==> Holding(spool) <= spool.limit }

  predicate Inv(s: State) {
    && s.used == Held(s.spools) <= s.max
    && forall id :: 0 <= id < |s.spools| ==> WithinLimit(s.spools[id])
  }

  lemma UpdateKeepsInv(s: State, id: nat, spool: Spool, used: int)
    requires Inv(s) && id < |s.spools| && WithinLimit(spool)
    requires used == s.used - Holding(s.spools[id]) + Holding(spool) <= s.max
    ensures Inv(State(used, s.max, s.spools[id := spool]))
  {
    HeldAfterUpdate(s.spools, id, spool);
  }

  lemma StepKeepsInv(s: State, step: Step)
    requires Inv(s) && Enabled(s, step) && !step.CloseAgain?
    ensures Inv(Apply(s, step)) && Apply(s, step).max == s.max
  {
    var after := Apply(s, step);
    if step.Open? {
      assert after.spools[..|s.spools|] == s.spools;
    } else {
      var spool := s.spools[step.id];
      assert WithinLimit(spool);
      if step.Close? {
        OneOfAll(s.spools, step.id);
      }
      UpdateKeepsInv(s, step.id, after.spools[step.id], after.used);
    }
  }

  /** No spool holds more than all of them. */
  lemma {:induction false} OneOfAll(spools: seq<Spool>, id: nat)
    requires id < |spools|
    ensures Holding(spools[id]) <= Held(spools)
    decreases |spools|
  {
    var last := |spools| - 1;
    if id < last {
      OneOfAll(spools[..last], id);
    }
  }

  predicate IsRun(states: seq<State>, steps: seq<Step>) {
    && |states| == |steps| + 1
    && states[0] == State(0, MAX_AGGREGATE, [])
    && forall k :: 0 <= k < |steps| ==> Enabled(states[k], steps[k]) && states[k + 1] == Apply(states[k], steps[k])
  }

  lemma {:induction false} RunKeepsInv(states: seq<State>, steps: seq<Step>, k: nat)
    requires IsRun(states, steps) && k <= |steps| && forall i :: 0 <= i < k ==> !steps[i].CloseAgain?
    ensures Inv(states[k]) && states[k].max == MAX_AGGREGATE
  {
    if k > 0 {
      RunKeepsInv(states, steps, k - 1);
      StepKeepsInv(states[k - 1], steps[k - 1]);
    }
  }

  function LiveSizes(spools: seq<Spool>): nat {
    if spools == [] then 0
    else
      LiveSizes(spools[..|spools| - 1]) + (if spools[|spools| - 1].phase.Closed? then 0 else spools[|spools| - 1].size)
  }

  lemma {:induction false} HeldIsLiveSizes(spools: seq<Spool>)
    requires forall id :: 0 <= id < |spools| ==> !spools[id].phase.Reserved?
    ensures Held(spools) == LiveSizes(spools)
  {
    if spools != [] { HeldIsLiveSizes(spools[..|spools| - 1]); }
  }

  /** Under every interleaving in which each spool is closed once: the quota counts exactly the live
      bytes and what is reserved for them, never more than its maximum; with no reservation in flight
      that is the sum of the live sizes; and no body outgrows its own limit. */
  lemma QuotaIsExact(states: seq<State>, steps: seq<Step>, k: nat)
    requires IsRun(states, steps) && k <= |steps| && forall i :: 0 <= i < k ==> !steps[i].CloseAgain?
    ensures 0 <= states[k].used == Held(states[k].spools) <= 100 * 1024 * 1024
    ensures (forall id :: 0 <= id < |states[k].spools| ==> !states[k].spools[id].phase.Reserved?)
      ==> states[k].used == LiveSizes(states[k].spools)
    ensures forall id :: 0 <= id < |states[k].spools| ==> WithinLimit(states[k].spools[id])
  {
    RunKeepsInv(states, steps, k);
    if forall id :: 0 <= id < |states[k].spools| ==> !states[k].spools[id].phase.Reserved? {
      HeldIsLiveSizes(states[k].spools);
    }
  }

  /** The clamp in release never fires: the used count covers every spool that is being closed. */
  lemma ClampNeverFires(states: seq<State>, steps: seq<Step>, k: nat)
    requires IsRun(states, steps) && k < |steps| && steps[k].Close? && forall i :: 0 <= i < k ==> !steps[i].CloseAgain?
    ensures states[k].used >= states[k].spools[steps[k].id].size
    ensures states[k + 1].used == states[k].used - states[k].spools[steps[k].id].size
  {
    RunKeepsInv(states, steps, k);
    OneOfAll(states[k].spools, steps[k].id);
  }

  /** Closing twice is harmless exactly when the spool was empty or nothing is in use. */
  lemma CloseAgainIsHarmlessIff(s: State, id: nat)
    requires Inv(s) && Enabled(s, CloseAgain(id))
    ensures Inv(Apply(s, CloseAgain(id))) <==> s.spools[id].size == 0 || s.used == 0
  {}
}

/**
 Publication of a completed upload: stage under a reserved name, copy, flush, link under the public
 name, unlink the stage.  Other processes may change any directory entry at the two points where it
 matters; the model's environment says what they do.
 */
module UploadFinalizer {
  import opened Basics
  import TF = TemporaryFile
  import FileWriter

  const STAGE_PREFIX := ".sparenode-upload-"
  const STAGE_ATTEMPTS := 100
  const COPY_BUFFER_BYTES := 64 * 1024

  datatype UploadError =
    | InvalidSource | InvalidDestination | ParentUnavailable | DestinationExists | SourceReadFailed
    | StagingFailed | StagingWriteFailed | StagingFlushFailed | PublishFailed | Stopped

  type Inode = nat
  type Entries = map<string, Inode>

  /** What other processes do to entries: point a name elsewhere, or remove it. */
  type Changes = map<string, Option<Inode>>

  /** Whether a name is hidden from public path resolution. */
  predicate Reserved(name: string) {
    STAGE_PREFIX <= name
  }

  function StageName(suffix: string): (name: string)
    ensures Reserved(name)
  {
    STAGE_PREFIX + suffix + ".tmp"
  }

  /** The directory as public path resolution can see it. */
  function Public(names: Entries): Entries {
    map n | n in names && !Reserved(n) :: names[n]
  }

  function Apply(names: Entries, changes: Changes): Entries {
    map n | n in names.Keys + changes.Keys && (n in changes ==> changes[n].Some?)
      :: if n in changes then changes[n].value else names[n]
  }

  datatype NativeRead = ReadInterrupted | ReadRefused | ReadCount(count: nat)

  /** One write call of the inner copy loop, preceded by a policy check. */
  datatype WriteRound = WriteRound(stop: bool, native: TF.NativeWrite)

  /** One read call of the outer copy loop and the write calls that follow it. */
  datatype ReadRound = ReadRound(stop: bool, native: NativeRead, writes: seq<WriteRound>)

  datatype StageAttempt = StageAttempt(suffix: string, refused: bool)

  /** Everything the operation does not decide: native outcomes, stop requests, other processes. */
  datatype Environment = Environment(
    openable: bool,
    regular: bool,
    attempts: nat -> StageAttempt,
    inode: Inode,
    rounds: seq<ReadRound>,
    stopBeforeFlush: bool,
    flushed: bool,
    stopAfterFlush: bool,
    before: Changes,
    emptyPathLinks: bool,
    procLinks: bool,
    after: Changes)

  /** The directory as it would be, had the publication not taken place. */
  function Undisturbed(names: Entries, env: Environment): Entries {
    Apply(Apply(names, env.before), env.after)
  }

  // ---- What decides an upload ----

  /** How the writes of one buffer end while `remaining` bytes of it are still to be written. */
  function BufferResult(remaining: nat, writes: seq<WriteRound>): Result<(), UploadError>
    decreases |writes|
  {
    if remaining == 0 then Ok(())
    else if writes == [] || writes[0].stop then Err(Stopped)
    else
      match writes[0].native
      case SignalInterrupt => BufferResult(remaining, writes[1..])
      case Refused => Err(StagingWriteFailed)
      case Accepted(count) =>
        if count == 0 then Err(StagingWriteFailed)
        else BufferResult(remaining - Min(count, remaining), writes[1..])
  }

  /** How copying ends while `remaining` bytes are to be copied and the source has `available` more. */
  function CopyResult(remaining: nat, available: nat, rounds: seq<ReadRound>): Result<(), UploadError>
    decreases |rounds|
  {
    if remaining == 0 then Ok(())
    else if rounds == [] || rounds[0].stop then Err(Stopped)
    else
      match rounds[0].native
      case ReadInterrupted => CopyResult(remaining, available, rounds[1..])
      case ReadRefused => Err(SourceReadFailed)
      case ReadCount(count) =>
        var received := Min(Min(count, Min(remaining, COPY_BUFFER_BYTES)), available);
        if received == 0 then Err(SourceReadFailed)
        else
          var wrote := BufferResult(received, rounds[0].writes);
          if wrote.Err? then wrote else CopyResult(remaining - received, available - received, rounds[1..])
  }

  ghost predicate Stageable(names: Entries, attempts: nat -> StageAttempt) {
    exists k :: 0 <= k < STAGE_ATTEMPTS && Creates(attempts, k, names)
  }

  /** Why a publication fails once its stage exists; `before` are the entries just before the link. */
  function StagedError(before: Entries, size: nat, available: nat, destination: string, env: Environment)
    : Option<UploadError>
  {
    var copied := CopyResult(size, available, env.rounds);
    if copied.Err? then Some(copied.error)
    else if env.stopBeforeFlush then Some(Stopped)
    else if !env.flushed then Some(StagingFlushFailed)
    else if env.stopAfterFlush then Some(Stopped)
    else if !env.emptyPathLinks && !env.procLinks then Some(PublishFailed)
    else if destination in before then Some(DestinationExists)
    else None
  }

  /** Why a publication fails, for a source of the given size with `available` bytes in its file. */
  ghost function PublishError(names: Entries, size: nat, available: nat, destination: string, env: Environment)
    : Option<UploadError>
  {
    if !env.openable || !env.regular || available != size then Some(SourceReadFailed)
    else if !Stageable(names, env.attempts) then Some(StagingFailed)
    else StagedError(Apply(names, env.before), size, available, destination, env)
  }

  /** The same with the checks before it. */
  ghost function FinalizeError(
      names: Entries, completed: bool, hasPath: bool, stop: bool, resolved: Option<string>, parentOpens: bool,
      size: nat, available: nat, env: Environment): Option<UploadError>
  {
    if !completed || !hasPath then Some(InvalidSource)
    else if stop then Some(Stopped)
    else if resolved.None? then Some(InvalidDestination)
    else if !parentOpens then Some(ParentUnavailable)
    else PublishError(names, size, available, resolved.value, env)
  }

  function Answer(error: Option<UploadError>): Result<(), UploadError> {
    if error.Some? then Err(error.value) else Ok(())
  }

  /** A write that neither stops nor fails. */
  predicate Smooth(w: WriteRound) {
    !w.stop && (w.native.SignalInterrupt? || (w.native.Accepted? && w.native.count > 0))
  }

  predicate AllSmooth(writes: seq<WriteRound>) {
    forall i :: 0 <= i < |writes| ==> Smooth(writes[i])
  }

  function Taken(writes: seq<WriteRound>): nat {
    if writes == [] then 0
    else (if writes[0].native.Accepted? then writes[0].native.count else 0) + Taken(writes[1..])
  }

  /** These writes can take `n` bytes before anything disturbs them. */
  ghost predicate Take(writes: seq<WriteRound>, n: nat) {
    exists k :: 0 <= k <= |writes| && AllSmooth(writes[..k]) && Taken(writes[..k]) >= n
  }

  lemma {:induction false} SmoothBuffer(remaining: nat, writes: seq<WriteRound>, k: nat)
    requires k <= |writes| && AllSmooth(writes[..k]) && Taken(writes[..k]) >= remaining
    ensures BufferResult(remaining, writes) == Ok(())
    decreases k
  {
    if remaining > 0 {
      assert writes[..k][0] == writes[0] && writes[..k][1..] == writes[1..][..k - 1];
      var left := if writes[0].native.Accepted? then remaining - Min(writes[0].native.count, remaining) else remaining;
      SmoothBuffer(left, writes[1..], k - 1);
    }
  }

  lemma {:induction false} BufferWasSmooth(remaining: nat, writes: seq<WriteRound>) returns (k: nat)
    requires BufferResult(remaining, writes).Ok?
    ensures k <= |writes| && AllSmooth(writes[..k]) && Taken(writes[..k]) >= remaining
    decreases |writes|
  {
    k := 0;
    if remaining > 0 {
      var left := if writes[0].native.Accepted? then remaining - Min(writes[0].native.count, remaining) else remaining;
      k := BufferWasSmooth(left, writes[1..]);
      assert writes[..k + 1][1..] == writes[1..][..k];
      k := k + 1;
    }
  }

  /** A buffer is written exactly when undisturbed writes take all of it. */
  lemma BufferExactly(n: nat, writes: seq<WriteRound>)
    ensures BufferResult(n, writes).Ok? <==> Take(writes, n)
  {
    if BufferResult(n, writes).Ok? {
      var k := BufferWasSmooth(n, writes);
    }
    if k :| 0 <= k <= |writes| && AllSmooth(writes[..k]) && Taken(writes[..k]) >= n {
      SmoothBuffer(n, writes, k);
    }
  }

  lemma {:induction false} BufferFailsFor(n: nat, writes: seq<WriteRound>)
    requires BufferResult(n, writes).Err?
    ensures BufferResult(n, writes).error in {Stopped, StagingWriteFailed}
    ensures BufferResult(n, writes).error == StagingWriteFailed ==> exists w :: w in writes && WriteBreaks(w)
    ensures (forall i :: 0 <= i < |writes| ==> !writes[i].stop) && Taken(writes) >= n ==>
      BufferResult(n, writes).error == StagingWriteFailed
    decreases |writes|
  {
    if writes != [] && !writes[0].stop {
      var left := if writes[0].native.Accepted? then n - Min(writes[0].native.count, n) else n;
      if writes[0].native.SignalInterrupt? || (writes[0].native.Accepted? && writes[0].native.count > 0) {
        BufferFailsFor(left, writes[1..]);
      } else {
        assert writes[0] in writes && WriteBreaks(writes[0]);
      }
    }
  }

  predicate WriteBreaks(w: WriteRound) {
    w.native.Refused? || (w.native.Accepted? && w.native.count == 0)
  }

  predicate ReadBreaks(r: ReadRound) {
    r.native.ReadRefused? || (r.native.ReadCount? && r.native.count == 0)
  }

  /** One read whose bytes, however few, are all written. */
  ghost predicate Delivers(r: ReadRound) {
    && !r.stop && !ReadBreaks(r)
    && (r.native.ReadCount? ==> Take(r.writes, Min(r.native.count, COPY_BUFFER_BYTES)))
  }

  function Read(rounds: seq<ReadRound>): nat {
    if rounds == [] then 0
    else (if rounds[0].native.ReadCount? then Min(rounds[0].native.count, COPY_BUFFER_BYTES) else 0) + Read(rounds[1..])
  }

  /** Reads and writes that deliver enough bytes copy the source, if it has them. */
  lemma {:induction false} CopySucceeds(n: nat, available: nat, rounds: seq<ReadRound>)
    requires n <= available && Read(rounds) >= n && forall i :: 0 <= i < |rounds| ==> Delivers(rounds[i])
    ensures CopyResult(n, available, rounds) == Ok(())
    decreases |rounds|
  {
    if n > 0 {
      var received := if rounds[0].native.ReadCount?
        then Min(Min(rounds[0].native.count, Min(n, COPY_BUFFER_BYTES)), available) else 0;
      assert Delivers(rounds[0]);
      if received > 0 {
        FewerTaken(rounds[0].writes, Min(rounds[0].native.count, COPY_BUFFER_BYTES), received);
        BufferExactly(received, rounds[0].writes);
      }
      CopySucceeds(n - received, available - received, rounds[1..]);
    }
  }

  lemma FewerTaken(writes: seq<WriteRound>, n: nat, fewer: nat)
    requires Take(writes, n) && fewer <= n
    ensures Take(writes, fewer)
  {
    var k :| 0 <= k <= |writes| && AllSmooth(writes[..k]) && Taken(writes[..k]) >= n;
  }

  /** A stop was requested somewhere, or the script of native calls ends before the copy does. */
  ghost predicate SomeStop(rounds: seq<ReadRound>, n: nat) {
    (exists r :: r in rounds && (r.stop || BufferStops(r))) || Read(rounds) < n
  }

  ghost predicate BufferStops(r: ReadRound) {
    exists m: nat :: BufferResult(m, r.writes) == Err(Stopped)
  }

  ghost predicate SomeReadBreaks(rounds: seq<ReadRound>) {
    exists r :: r in rounds && ReadBreaks(r)
  }

  ghost predicate SomeWriteBreaks(rounds: seq<ReadRound>) {
    exists r, w :: r in rounds && w in r.writes && WriteBreaks(w)
  }

  /** Whatever is so somewhere in the rest of a script is so somewhere in the script. */
  lemma LaterRounds(rounds: seq<ReadRound>)
    requires rounds != []
    ensures SomeReadBreaks(rounds[1..]) || ReadBreaks(rounds[0]) ==> SomeReadBreaks(rounds)
    ensures SomeWriteBreaks(rounds[1..]) ==> SomeWriteBreaks(rounds)
    ensures (exists r :: r in rounds[1..] && (r.stop || BufferStops(r))) ==> SomeStop(rounds, 0)
  {
    assert rounds[0] in rounds && forall r :: r in rounds[1..] ==> r in rounds;
  }

  /** Copying fails for the reason it reports. */
  lemma {:induction false} CopyFailsFor(n: nat, available: nat, rounds: seq<ReadRound>)
    requires CopyResult(n, available, rounds).Err?
    ensures var error := CopyResult(n, available, rounds).error;
      && error in {Stopped, StagingWriteFailed, SourceReadFailed}
      && (error == SourceReadFailed ==> available < n || SomeReadBreaks(rounds))
      && (error == StagingWriteFailed ==> SomeWriteBreaks(rounds))
      && (error == Stopped ==> available < n || SomeStop(rounds, n))
    decreases |rounds|
  {
    if rounds != [] {
      LaterRounds(rounds);
      assert rounds[0] in rounds;
      if !rounds[0].stop && !rounds[0].native.ReadRefused? {
        var received := if rounds[0].native.ReadCount?
          then Min(Min(rounds[0].native.count, Min(n, COPY_BUFFER_BYTES)), available) else 0;
        if rounds[0].native.ReadInterrupted? || (received > 0 && BufferResult(received, rounds[0].writes).Ok?) {
          CopyFailsFor(n - received, available - received, rounds[1..]);
        } else if received > 0 {
          BufferFailsFor(received, rounds[0].writes);
        }
      }
    }
  }

  /** Exactly what a publication needs, and what each failure means. */
  lemma PublishesExactly(names: Entries, size: nat, available: nat, destination: string, env: Environment)
    ensures var error := PublishError(names, size, available, destination, env);
      var copied := CopyResult(size, available, env.rounds);
      var stopped := env.stopBeforeFlush || (env.flushed && env.stopAfterFlush);
      var staged := env.openable && env.regular && available == size && Stageable(names, env.attempts);
      var flushed := staged && copied.Ok? && env.flushed && !stopped;
      var linkable := env.emptyPathLinks || env.procLinks;
      && (error == None <==> flushed && linkable && destination !in Apply(names, env.before))
      && (error == Some(DestinationExists) <==> flushed && linkable && destination in Apply(names, env.before))
      && (error == Some(PublishFailed) <==> flushed && !linkable)
      && (error == Some(StagingFlushFailed) <==> staged && copied.Ok? && !env.stopBeforeFlush && !env.flushed)
      && (error == Some(StagingFailed) <==>
            env.openable && env.regular && available == size && !Stageable(names, env.attempts))
      && (error == Some(Stopped) <==> staged && (if copied.Ok? then stopped else copied == Err(Stopped)))
      && (error == Some(SourceReadFailed) <==>
            !env.openable || !env.regular || available != size || (staged && copied == Err(SourceReadFailed)))
      && (error == Some(StagingWriteFailed) <==> staged && copied == Err(StagingWriteFailed))
      && error !in {Some(InvalidSource), Some(InvalidDestination), Some(ParentUnavailable)}
  {
    if CopyResult(size, available, env.rounds).Err? {
      CopyFailsFor(size, available, env.rounds);
    }
  }

  /** Whoever completes a source and requests a free public name gets it published, if nothing fails or stops. */
  lemma FinalizesExactly(
      names: Entries, completed: bool, hasPath: bool, stop: bool, resolved: Option<string>, parentOpens: bool,
      size: nat, available: nat, env: Environment)
    ensures var error := FinalizeError(names, completed, hasPath, stop, resolved, parentOpens, size, available, env);
      && (error == None <==>
            && completed && hasPath && !stop && resolved.Some? && parentOpens
            && PublishError(names, size, available, resolved.value, env).None?)
      && (error == Some(InvalidSource) <==> !completed || !hasPath)
      && (error == Some(InvalidDestination) <==> completed && hasPath && !stop && resolved.None?)
      && (error == Some(ParentUnavailable) <==> completed && hasPath && !stop && resolved.Some? && !parentOpens)
  {
    if resolved.Some? {
      PublishesExactly(names, size, available, resolved.value, env);
    }
  }

  class Directory {
    var names: Entries
    var inodes: map<Inode, string>

    constructor ()
      ensures names == map[] && inodes == map[]
    {
      names, inodes := map[], map[];
    }

    /** Creates an empty file under a reserved name that did not exist, or changes nothing. */
    method CreateStage(attempts: nat -> StageAttempt, inode: Inode) returns (r: Result<string, UploadError>)
      requires inode !in inodes
      modifies this
      ensures r.Err? ==> names == old(names) && inodes == old(inodes) && r.error == StagingFailed
      ensures r.Ok? ==>
        && Reserved(r.value) && r.value !in old(names)
        && names == old(names)[r.value := inode] && inodes == old(inodes)[inode := ""]
      ensures r.Ok? <==> exists k :: 0 <= k < STAGE_ATTEMPTS && Creates(attempts, k, old(names))
    {
      var attempt := 0;
      while attempt < STAGE_ATTEMPTS
        invariant attempt <= STAGE_ATTEMPTS && names == old(names) && inodes == old(inodes)
        invariant forall j :: 0 <= j < attempt ==>
          StageName(attempts(j).suffix) in names && !attempts(j).refused
      {
        var name := StageName(attempts(attempt).suffix);
        if attempts(attempt).refused {
          return Err(StagingFailed);
        }
        if name !in names {
          names, inodes := names[name := inode], inodes[inode := ""];
          assert Creates(attempts, attempt, old(names));
          return Ok(name);
        }
        attempt := attempt + 1;
      }
      return Err(StagingFailed);
    }

    /** Writes one buffer to the stage completely, or reports why not. */
    method WriteBuffer(stage: Inode, buffer: string, writes: seq<WriteRound>) returns (r: Result<(), UploadError>)
      requires stage in inodes
      modifies this`inodes
      ensures stage in inodes && inodes == old(inodes)[stage := inodes[stage]]
      ensures r == BufferResult(|buffer|, writes)
      ensures r.Ok? ==> inodes[stage] == old(inodes[stage]) + buffer
    {
      var offset, k := 0, 0;
      while offset < |buffer|
        invariant 0 <= offset <= |buffer| && 0 <= k <= |writes|
        invariant stage in inodes && inodes == old(inodes)[stage := inodes[stage]]
        invariant inodes[stage] == old(inodes[stage]) + buffer[..offset]
        invariant BufferResult(|buffer|, writes) == BufferResult(|buffer| - offset, writes[k..])
        decreases |writes| - k
      {
        if k == |writes| || writes[k].stop {
          return Err(Stopped);
        }
        var native := writes[k].native;
        k := k + 1;
        match native {
          case SignalInterrupt => continue;
          case Refused => return Err(StagingWriteFailed);
          case Accepted(count) =>
            var written := Min(count, |buffer| - offset);
            if written == 0 {
              return Err(StagingWriteFailed);
            }
            inodes := inodes[stage := inodes[stage] + buffer[offset..offset + written]];
            assert buffer[..offset] + buffer[offset..offset + written] == buffer[..offset + written];
            offset := offset + written;
        }
      }
      assert buffer[..offset] == buffer;
      return Ok(());
    }

    /** Copies exactly `expected` bytes of the source; short reads and writes lose nothing. */
    method CopySource(stage: Inode, content: string, expected: nat, rounds: seq<ReadRound>)
      returns (r: Result<(), UploadError>)
      requires stage in inodes && inodes[stage] == ""
      modifies this`inodes
      ensures stage in inodes && inodes == old(inodes)[stage := inodes[stage]]
      ensures r == CopyResult(expected, |content|, rounds)
      ensures r.Ok? ==> expected <= |content| && inodes[stage] == content[..expected]
    {
      var copied, k := 0, 0;
      while copied < expected
        invariant 0 <= copied <= expected && copied <= |content| && 0 <= k <= |rounds|
        invariant stage in inodes && inodes == old(inodes)[stage := content[..copied]]
        invariant CopyResult(expected, |content|, rounds)
          == CopyResult(expected - copied, |content| - copied, rounds[k..])
        decreases |rounds| - k
      {
        if k == |rounds| || rounds[k].stop {
          return Err(Stopped);
        }
        var round := rounds[k];
        k := k + 1;
        match round.native {
          case ReadInterrupted => continue;
          case ReadRefused => return Err(SourceReadFailed);
          case ReadCount(count) =>
            var requested := Min(expected - copied, COPY_BUFFER_BYTES);
            var received := Min(Min(count, requested), |content| - copied);
            if received == 0 {
              return Err(SourceReadFailed);
            }
            var wrote := WriteBuffer(stage, content[copied..copied + received], round.writes);
            if wrote.Err? {
              return Err(wrote.error);
            }
            assert content[..copied] + content[copied..copied + received] == content[..copied + received];
            copied := copied + received;
        }
      }
      return Ok(());
    }

    /** Links the stage inode under the public name; an existing entry is never replaced. */
    method PublishStage(stage: Inode, destination: string, env: Environment) returns (r: Result<(), UploadError>)
      modifies this`names
      ensures r.Ok? <==> destination !in old(names) && (env.emptyPathLinks || env.procLinks)
      ensures r.Ok? ==> r == Ok(()) && names == old(names)[destination := stage]
      ensures r.Err? ==> names == old(names)
      ensures r.Err? ==> r.error == if env.emptyPathLinks || env.procLinks then DestinationExists else PublishFailed
    {
      if env.emptyPathLinks {
        if destination in names {
          return Err(DestinationExists);
        }
        names := names[destination := stage];
        return Ok(());
      }
      if !env.procLinks {
        return Err(PublishFailed);
      }
      if destination in names {
        return Err(DestinationExists);
      }
      names := names[destination := stage];
      return Ok(());
    }

    method OthersAct(changes: Changes)
      modifies this`names
      ensures names == Apply(old(names), changes)
    {
      names := Apply(names, changes);
    }

    /** From the created stage to its cleanup, which runs whatever the outcome. */
    method PublishFromStage(
        stageName: string, stage: Inode, content: string, expected: nat, destination: string, env: Environment)
      returns (r: Result<(), UploadError>)
      requires Reserved(stageName) && !Reserved(destination)
      requires stage in inodes && inodes[stage] == ""
      modifies this
      ensures r == Answer(StagedError(Apply(old(names), env.before), expected, |content|, destination, env))
      ensures r.Ok? ==> env.flushed && !env.stopBeforeFlush && !env.stopAfterFlush
      ensures stage in inodes && inodes == old(inodes)[stage := inodes[stage]]
      ensures stageName !in names
      ensures forall n :: n in names && Reserved(n) ==> n in Undisturbed(old(names), env)
      ensures r.Err? ==> Public(names) == Public(Undisturbed(old(names), env))
      ensures r.Ok? ==>
        && expected <= |content| && inodes[stage] == content[..expected]
        && destination !in Apply(old(names), env.before)
        && Public(names) == Public(Apply(Apply(old(names), env.before)[destination := stage], env.after))
    {
      r := CopySource(stage, content, expected, env.rounds);
      if r.Ok? && env.stopBeforeFlush {
        r := Err(Stopped);
      } else if r.Ok? && !env.flushed {
        r := Err(StagingFlushFailed);
      } else if r.Ok? && env.stopAfterFlush {
        r := Err(Stopped);
      }
      OthersAct(env.before);
      assert names == Apply(old(names), env.before);
      if r.Ok? {
        r := PublishStage(stage, destination, env);
      }
      ghost var linked := names;
      OthersAct(env.after);
      names := names - {stageName};
      StageRemoved(old(names), linked, stageName, stage, destination, env);
    }

    /** From an opened source on: the stage is created, published from and removed again. */
    method StageAndPublish(content: string, size: nat, destination: string, env: Environment)
      returns (r: Result<(), UploadError>)
      requires !Reserved(destination) && env.inode !in inodes
      modifies this
      ensures r ==
        if !Stageable(old(names), env.attempts) then Err(StagingFailed)
        else Answer(StagedError(Apply(old(names), env.before), size, |content|, destination, env))
      ensures forall i :: i in old(inodes) ==> i in inodes && inodes[i] == old(inodes[i])
      ensures forall n :: n in names && Reserved(n) ==> n in old(names) || n in env.before || n in env.after
      ensures r.Err? ==> Public(names) == Public(old(names)) || Public(names) == Public(Undisturbed(old(names), env))
      ensures r.Ok? ==>
        && size <= |content| && env.inode in inodes && inodes[env.inode] == content[..size]
        && destination !in Apply(old(names), env.before)
        && Public(names) == Public(Apply(Apply(old(names), env.before)[destination := env.inode], env.after))
    {
      ghost var was := names;
      var created := CreateStage(env.attempts, env.inode);
      if created.Err? {
        return Err(StagingFailed);
      }
      r := PublishFromStage(created.value, env.inode, content, size, destination, env);
      StagingIsInvisible(was, created.value, env.inode, env);
      StageChangesNoError(was, created.value, size, |content|, destination, env);
      LinkingSurvives(was, created.value, destination, env);
    }

    /**
     `publish_confined_upload`.  Success means the name was free when it was linked and leads to
     exactly the bytes of the source's successful writes; failure leaves every public name as the
     rest of the world made it.  Either way the stage is gone and no older file was altered.
     */
    method Publish(source: TF.TemporaryFile, destination: string, env: Environment)
      returns (r: Result<(), UploadError>)
      requires source.Valid() && !Reserved(destination) && env.inode !in inodes
      modifies this
      ensures r == Answer(PublishError(old(names), source.size, |source.disk|, destination, env))
      ensures forall i :: i in old(inodes) ==> i in inodes && inodes[i] == old(inodes[i])
      ensures forall n :: n in names && Reserved(n) ==> n in old(names) || n in env.before || n in env.after
      ensures r.Err? ==> Public(names) == Public(old(names)) || Public(names) == Public(Undisturbed(old(names), env))
      ensures r.Ok? ==>
        && env.inode in inodes && inodes[env.inode] == Join(source.written)
        && destination !in Apply(old(names), env.before)
        && Public(names) == Public(Apply(Apply(old(names), env.before)[destination := env.inode], env.after))
      ensures r.Ok? && destination !in env.after ==> destination in names && names[destination] == env.inode
    {
      if !env.openable || !env.regular || |source.disk| != source.size {
        return Err(SourceReadFailed);
      }
      ghost var was := names;
      r := StageAndPublish(source.disk, source.size, destination, env);
      if r.Ok? {
        assert source.disk[..source.size] == Join(source.written);
        LinkStays(names, Apply(was, env.before), destination, env);
      }
    }

    /** `finalize_upload`: the source must be complete and the destination must resolve to a public name. */
    method Finalize(lexical: seq<string>, resolved: Option<seq<string>>, parentOpens: bool, stop: bool,
                    source: TF.TemporaryFile, env: Environment)
      returns (r: Result<(), UploadError>)
      requires source.Valid() && env.inode !in inodes
      modifies this
      ensures r == Answer(FinalizeError(old(names), source.completed, source.path.Some?, stop,
        ResolvePublic(lexical, resolved), parentOpens, source.size, |source.disk|, env))
      ensures r.Ok? ==> source.completed && source.path.Some? && ResolvePublic(lexical, resolved).Some?
      ensures r.Ok? ==>
        var name := ResolvePublic(lexical, resolved).value;
        && name !in Apply(old(names), env.before)
        && env.inode in inodes && inodes[env.inode] == Join(source.written)
        && Public(names) == Public(Apply(Apply(old(names), env.before)[name := env.inode], env.after))
      ensures r.Ok? ==> var name := ResolvePublic(lexical, resolved).value;
        name !in env.after ==> name in names && names[name] == env.inode
      ensures r.Err? ==> Public(names) == Public(old(names)) || Public(names) == Public(Undisturbed(old(names), env))
    {
      if !source.completed || source.path.None? {
        return Err(InvalidSource);
      }
      if stop {
        return Err(Stopped);
      }
      var name := ResolvePublic(lexical, resolved);
      if name.None? {
        return Err(InvalidDestination);
      }
      if !parentOpens {
        return Err(ParentUnavailable);
      }
      r := Publish(source, name.value, env);
    }
  }

  /**
   The whole way of an upload, from the payloads a request handed to its writer to the public name: a
   published file is the concatenation of the counted parts, and of the accepted payloads unless a
   call failed that could have counted something.
   */
  method PublishWritten(
      directory: Directory, writer: FileWriter.TemporaryFileWriter, lexical: seq<string>, resolved: Option<seq<string>>,
      parentOpens: bool, stop: bool, env: Environment) returns (r: Result<(), UploadError>)
    requires writer.Valid() && env.inode !in directory.inodes
    modifies directory
    ensures r == Answer(FinalizeError(old(directory.names), writer.completed, writer.file.path.Some?, stop,
      ResolvePublic(lexical, resolved), parentOpens, writer.file.size, |writer.file.disk|, env))
    ensures r.Ok? ==> writer.completed && ResolvePublic(lexical, resolved).Some?
    ensures r.Ok? ==> env.inode in directory.inodes && directory.inodes[env.inode] == Join(writer.counted)
    ensures r.Ok? && !writer.spoiled ==> directory.inodes[env.inode] == Join(writer.accepted)
    ensures r.Ok? && ResolvePublic(lexical, resolved).value !in env.after ==>
      var name := ResolvePublic(lexical, resolved).value;
      name in directory.names && directory.names[name] == env.inode
    ensures r.Err? ==>
      || Public(directory.names) == Public(old(directory.names))
      || Public(directory.names) == Public(Undisturbed(old(directory.names), env))
  {
    if !writer.completed {
      return Err(InvalidSource);
    }
    r := directory.Finalize(lexical, resolved, parentOpens, stop, writer.file, env);
  }

  /** Attempt `k` is the first that does not collide, and it is not refused. */
  ghost predicate Creates(attempts: nat -> StageAttempt, k: nat, names: Entries) {
    && StageName(attempts(k).suffix) !in names && !attempts(k).refused
    && forall j: nat :: j < k ==> StageName(attempts(j).suffix) in names && !attempts(j).refused
  }

  /**
   The public name a request leads to: no component may be reserved, neither as written nor after
   links are resolved (`None` stands for a resolution outside the shared root).
   */
  function ResolvePublic(lexical: seq<string>, resolved: Option<seq<string>>): (name: Option<string>)
    ensures name.Some? ==> !Reserved(name.value) && name.value !in {"", ".", ".."}
  {
    if exists c :: c in lexical && Reserved(c) then None
    else if resolved.None? || resolved.value == [] then None
    else if exists c :: c in resolved.value && Reserved(c) then None
    else
      var last := resolved.value[|resolved.value| - 1];
      if last in {"", ".", ".."} then None else Some(last)
  }

  /** Reserved names are those with the stage prefix; a stage name is one of them. */
  lemma ReservedExactly(name: string, suffix: string)
    ensures Reserved(name) <==> exists rest :: name == ".sparenode-upload-" + rest
    ensures StageName(suffix) == ".sparenode-upload-" + suffix + ".tmp"
  {
    if Reserved(name) {
      assert name == STAGE_PREFIX + name[|STAGE_PREFIX|..];
    }
  }

  /** Exactly the last component of a confined path, if nothing on the way is reserved. */
  lemma ResolvesExactly(lexical: seq<string>, resolved: Option<seq<string>>, name: string)
    ensures ResolvePublic(lexical, resolved) == Some(name) <==>
      && (forall c :: c in lexical ==> !Reserved(c))
      && resolved.Some? && (forall c :: c in resolved.value ==> !Reserved(c))
      && name != "" && name != "." && name != ".."
      && exists parents :: resolved.value == parents + [name]
  {
    if ResolvePublic(lexical, resolved) == Some(name) {
      assert resolved.value == resolved.value[..|resolved.value| - 1] + [name];
    }
  }

  /** The public view evolves on its own: what it becomes depends only on what it was. */
  lemma PublicEvolves(left: Entries, right: Entries, changes: Changes)
    requires Public(left) == Public(right)
    ensures Public(Apply(left, changes)) == Public(Apply(right, changes))
  {
    PublicApply(left, changes);
    PublicApply(right, changes);
  }

  lemma PublicApply(names: Entries, changes: Changes)
    ensures Public(Apply(names, changes)) == Apply(Public(names), map n | n in changes && !Reserved(n) :: changes[n])
  {
  }

  /** A stage entry cannot be seen through the public view, whatever happens around it. */
  lemma StagingIsInvisible(names: Entries, stageName: string, stage: Inode, env: Environment)
    requires Reserved(stageName)
    ensures Public(Apply(names[stageName := stage], env.before)) == Public(Apply(names, env.before))
    ensures Public(Undisturbed(names[stageName := stage], env)) == Public(Undisturbed(names, env))
  {
    assert Public(names[stageName := stage]) == Public(names);
    PublicEvolves(names[stageName := stage], names, env.before);
    PublicEvolves(Apply(names[stageName := stage], env.before), Apply(names, env.before), env.after);
  }

  /** A public link that nobody touches afterwards is still there. */
  lemma LinkStays(names: Entries, before: Entries, destination: string, env: Environment)
    requires !Reserved(destination) && Public(names) == Public(Apply(before[destination := env.inode], env.after))
    ensures destination !in env.after ==> destination in names && names[destination] == env.inode
  {
    if destination !in env.after {
      assert destination in Public(names) && Public(names)[destination] == env.inode;
    }
  }

  lemma StageChangesNoError(
      names: Entries, stageName: string, size: nat, available: nat, destination: string, env: Environment)
    requires Reserved(stageName) && !Reserved(destination)
    ensures StagedError(Apply(names[stageName := env.inode], env.before), size, available, destination, env)
         == StagedError(Apply(names, env.before), size, available, destination, env)
  {
    LinkingSurvives(names, stageName, destination, env);
  }

  lemma LinkingSurvives(names: Entries, stageName: string, destination: string, env: Environment)
    requires Reserved(stageName) && !Reserved(destination)
    ensures destination in Apply(names[stageName := env.inode], env.before) <==> destination in Apply(names, env.before)
    ensures Public(Apply(Apply(names[stageName := env.inode], env.before)[destination := env.inode], env.after))
         == Public(Apply(Apply(names, env.before)[destination := env.inode], env.after))
  {
    StagingIsInvisible(names, stageName, env.inode, env);
    var staged, plain := Apply(names[stageName := env.inode], env.before), Apply(names, env.before);
    assert destination in staged <==> destination in Public(staged);
    assert destination in plain <==> destination in Public(plain);
    PublicLink(staged, destination, env.inode);
    PublicLink(plain, destination, env.inode);
    PublicEvolves(staged[destination := env.inode], plain[destination := env.inode], env.after);
  }

  /** Removing the stage changes nothing public, and only entries of others stay reserved. */
  lemma StageRemoved(
      start: Entries, linked: Entries, stageName: string, stage: Inode, destination: string, env: Environment)
    requires Reserved(stageName) && !Reserved(destination)
    requires linked == Apply(start, env.before) || linked == Apply(start, env.before)[destination := stage]
    ensures var left := Apply(linked, env.after) - {stageName};
      && Public(left) == Public(Apply(linked, env.after))
      && forall n :: n in left && Reserved(n) ==> n in Undisturbed(start, env)
  {
  }

  lemma PublicLink(names: Entries, destination: string, inode: Inode)
    requires !Reserved(destination)
    ensures Public(names[destination := inode]) == Public(names)[destination := inode]
  {
  }
}

/**
  The resuming download of an engine archive: every attempt asks for the bytes that are still
  missing, appends or replaces what it holds according to the answer, and returns only what
  has the expected digest. The server, the disk and the moment of an abort are arbitrary.
 */
module ArchiveDownload {
  import opened Base
  import opened Decimal
  import opened ContentRange

  type Digest = string

  /** The file: absent, or its bytes. */
  type Archive = Option<seq<Byte>>

  /**
    What one request brings. `written` are the bytes of the body that reach the file before the
    stream ends or breaks; `began` tells whether a stream that breaks had opened the file.
   */
  datatype Reply =
    | Unreachable
    | Reply(status: nat, body: bool, contentRange: Option<string>, contentLength: Option<string>,
            written: seq<Byte>, began: bool, finishes: bool, cancelFails: bool)

  /** The surroundings of one attempt: its reply, its idle timeout, and the file calls that throw. */
  datatype Try = Try(reply: Reply, idleAt: Option<nat>, probeFails: bool, statFails: bool, hashFails: bool)

  datatype Removal = Removed | Refused(retryable: bool)

  /** The archive an attempt starts from, and how often it had been removed before. */
  datatype Top = Top(archive: Archive, resets: nat)

  const RESET_RETRIES := 5

  function Size(archive: Archive): nat {
    if archive.Some? then |archive.value| else 0
  }

  function ReplyRange(reply: Reply): Option<Range>
    requires reply.Reply?
  {
    if reply.status == 206 then ParseContentRange(if reply.contentRange.Some? then reply.contentRange.value else "") else None
  }

  /** A successful answer with a body that, if partial, starts where the archive ends. */
  predicate Accepted(reply: Reply, partial: nat) {
    && reply.Reply? && 200 <= reply.status <= 299 && reply.body
    && (reply.status == 206 ==> ReplyRange(reply).Some? && ReplyRange(reply).value.start == partial)
  }

  /** A refusal, an answer without a body, or a partial answer that does not start where the archive ends. */
  predicate Misfit(reply: Reply, partial: nat) {
    && reply.Reply? && !(reply.status == 416 && partial > 0)
    && (reply.status < 200 || reply.status > 299 || !reply.body
        || (reply.status == 206 &&
            match ParseContentRange(if reply.contentRange.Some? then reply.contentRange.value else "")
            case None => true
            case Some(range) => range.start != partial))
  }

  predicate Appends(reply: Reply, partial: nat)
    requires reply.Reply?
  {
    reply.status == 206 && partial > 0
  }

  /** The size the finished file must have, if the answer announces one. */
  function ExpectedSize(reply: Reply, partial: nat): Option<nat>
    requires reply.Reply?
  {
    var range := ReplyRange(reply);
    var length := ResponseLength(reply.contentLength);
    if range.Some? && range.value.total.Some? then range.value.total
    else if length.None? then None
    else Some(if Appends(reply, partial) then partial + length.value else length.value)
  }

  /** The file after a body has been written to it. */
  function Received(before: Archive, reply: Reply): seq<Byte>
    requires reply.Reply?
  {
    if before.Some? && Appends(reply, Size(before)) then before.value + reply.written else reply.written
  }

  /** The file after one attempt, before any reset that follows it. */
  predicate Stored(before: Archive, after: Archive, reply: Reply) {
    after == before
    || (Accepted(reply, Size(before)) &&
        (after == Some(Received(before, reply)) || (!Appends(reply, Size(before)) && after == None)))
  }

  predicate PrefixOf(archive: Archive, file: seq<Byte>) {
    archive.Some? ==> archive.value <= file
  }

  /** A success with a body: a true prefix of the file, or of its rest from where the answer says its range starts. */
  predicate Faithful(reply: Reply, file: seq<Byte>) {
    reply.Reply? && 200 <= reply.status <= 299 && reply.body ==>
      if reply.status != 206 then reply.written <= file
      else ReplyRange(reply).Some? ==> ReplyRange(reply).value.start <= |file| && reply.written <= file[ReplyRange(reply).value.start..]
  }

  /** The headers tell the truth about the file: where the range starts, how long the file is, how long the body is. */
  predicate HonestHeaders(reply: Reply, partial: nat, file: seq<Byte>)
    requires reply.Reply?
  {
    && (reply.status == 206 ==>
          && ReplyRange(reply).Some? && ReplyRange(reply).value.start == partial <= |file|
          && ReplyRange(reply).value.total in {None, Some(|file|)})
    && (ResponseLength(reply.contentLength).Some? ==>
          ResponseLength(reply.contentLength).value == if reply.status == 206 then |file| - partial else |file|)
  }

  /** The server sends all that is missing, with honest headers. */
  predicate Completes(reply: Reply, partial: nat, file: seq<Byte>) {
    && reply.Reply? && 200 <= reply.status <= 299 && reply.body && reply.finishes && partial <= |file|
    && reply.written == (if reply.status == 206 then file[partial..] else file)
    && HonestHeaders(reply, partial, file)
  }

  /** The headers announce another size than that of the stored file: the range's total counts first, then the length. */
  predicate Contradicts(before: Archive, reply: Reply)
    requires reply.Reply?
  {
    var stored, range, length := |Received(before, reply)|, ReplyRange(reply), ResponseLength(reply.contentLength);
    || (range.Some? && range.value.total.Some? && stored != range.value.total.value)
    || (!(range.Some? && range.value.total.Some?) && length.Some? && Appends(reply, Size(before)) && stored != Size(before) + length.value)
    || (!(range.Some? && range.value.total.Some?) && length.Some? && !Appends(reply, Size(before)) && stored != length.value)
  }

  lemma SizeIsAnnounced(before: Archive, reply: Reply)
    requires reply.Reply?
    ensures Contradicts(before, reply) <==>
            ExpectedSize(reply, Size(before)).Some? && ExpectedSize(reply, Size(before)).value != |Received(before, reply)|
  {
  }

  /** A range that starts behind the file, or a finished body of the announced size: with another digest the archive is of no use. */
  predicate NeedsReset(before: Archive, reply: Reply) {
    && reply.Reply?
    && if reply.status == 416 && Size(before) > 0 then !reply.cancelFails
       else Accepted(reply, Size(before)) && reply.finishes && !Contradicts(before, reply)
  }

  /** With a faithful server, an archive that is a prefix of the file stays one, and one that was replaced becomes one. */
  lemma StoredKeepsPrefix(before: Archive, after: Archive, reply: Reply, file: seq<Byte>)
    requires Stored(before, after, reply) && Faithful(reply, file)
    requires PrefixOf(before, file) || before == None || (after != before && !Appends(reply, Size(before)))
    ensures PrefixOf(after, file)
  {
    if after != before && before.Some? && Appends(reply, Size(before)) {
      assert after.value == file[..|before.value| + |reply.written|];
    }
  }

  lemma CompleteMeansWhole(before: Archive, reply: Reply, file: seq<Byte>)
    requires PrefixOf(before, file) && Completes(reply, Size(before), file)
    ensures Received(before, reply) == file && Accepted(reply, Size(before)) && !Contradicts(before, reply)
  {
    if before.Some? {
      assert file == file[..|before.value|] + file[|before.value|..];
    }
  }

  class Downloader {
    var archive: Archive
    /** Steps of the event loop so far. */
    var now: nat
    var fetches: nat
    /** The moments at which the archive was removed, and the archive at the top of each attempt. */
    ghost var resets: seq<nat>
    ghost var tops: seq<Top>

    /** What the n-th request brings when it asks for the bytes from `partial` on. */
    const world: (nat, nat) -> Try
    const removals: nat -> Removal
    const abortAt: Option<nat>
    const windows: bool
    const sha256: seq<Byte> -> Digest

    constructor (archive: Archive, world: (nat, nat) -> Try, removals: nat -> Removal, abortAt: Option<nat>, windows: bool,
                 sha256: seq<Byte> -> Digest)
      ensures this.archive == archive && fetches == 0 && resets == [] && tops == []
      ensures this.world == world && this.removals == removals && this.abortAt == abortAt
      ensures this.windows == windows && this.sha256 == sha256
    {
      this.archive, now, fetches, resets, tops := archive, 0, 0, [], [];
      this.world, this.removals, this.abortAt, this.windows, this.sha256 := world, removals, abortAt, windows, sha256;
    }

    predicate Aborted(t: nat) {
      abortAt.Some? && abortAt.value <= t
    }

    predicate Expired(idleAt: Option<nat>, t: nat) {
      Aborted(t) || (idleAt.Some? && idleAt.value <= t)
    }

    predicate Verified(digest: Digest)
      reads this
    {
      archive.Some? && sha256(archive.value) == digest
    }

    /** No removal after `from` happened once the caller's abort was there to be seen. */
    ghost predicate ResetsUnaborted(from: nat)
      reads this
    {
      forall k :: from <= k < |resets| ==> !Aborted(resets[k])
    }

    ghost predicate FaithfulServer(file: seq<Byte>) {
      forall n: nat, partial: nat :: Faithful(world(n, partial).reply, file)
    }

    /** Whatever the n-th request asks for, its answer completes the file. */
    ghost predicate CompleteAnswer(n: nat, file: seq<Byte>) {
      forall partial: nat :: partial <= |file| ==> Completes(world(n, partial).reply, partial, file)
    }

    /** No abort, no timeout, and no file call that throws. */
    ghost predicate Calm() {
      && abortAt.None?
      && (forall n: nat, partial: nat ::
            var t := world(n, partial); t.idleAt.None? && !t.probeFails && !t.statFails && !t.hashFails)
      && (forall t: nat :: removals(t) == Removed)
    }

    ghost predicate Promising(file: seq<Byte>, expected: Digest) {
      FaithfulServer(file) && Calm() && sha256(file) == expected
    }

    /** `resetArchive`, under the caller's signal and, if given, an idle timeout. */
    method ResetArchive(idleAt: Option<nat>) returns (ok: bool)
      modifies this`archive, this`now, this`resets
      ensures ok ==> archive == None && |resets| == |old(resets)| + 1
      ensures !ok ==> archive == old(archive) && resets == old(resets)
      ensures old(resets) <= resets && ResetsUnaborted(|old(resets)|)
      ensures now >= old(now) && (Expired(idleAt, old(now)) ==> !ok)
      ensures Calm() && idleAt.None? ==> ok
    {
      var attempt := 0;
      while true
        invariant attempt <= RESET_RETRIES && archive == old(archive) && resets == old(resets) && now >= old(now)
        invariant Calm() ==> attempt == 0
        decreases RESET_RETRIES - attempt
      {
        if Expired(idleAt, now) { return false; }
        var removal := removals(now);
        if removal.Removed? {
          resets := resets + [now];
          archive := None;
          return true;
        }
        if !windows || !removal.retryable || attempt >= RESET_RETRIES { return false; }
        now := now + 1;
        attempt := attempt + 1;
      }
    }

    /** The guarded part of an attempt: whether it returns, and whether what it threw asks for a reset. */
    method TryOnce(env: Try, partial: nat, expected: Digest) returns (done: bool, reset: bool)
      requires partial == Size(archive)
      modifies this`archive, this`now, this`fetches, this`resets
      ensures done ==> Verified(expected) && Accepted(env.reply, partial)
      ensures Stored(old(archive), archive, env.reply)
      ensures fetches == old(fetches) + 1 && now > old(now)
      ensures old(resets) <= resets && ResetsUnaborted(|old(resets)|)
      ensures |resets| > |old(resets)| ==>
        partial > 0 && Accepted(env.reply, partial) && !Appends(env.reply, partial) && archive in {None, Some(env.reply.written)}
      ensures Calm() && env.idleAt.None? && !env.statFails && !env.hashFails ==>
        forall file :: Completes(env.reply, partial, file) && PrefixOf(old(archive), file) && sha256(file) == expected ==> done
      ensures Calm() && env.idleAt.None? && !env.statFails && !env.hashFails && !done ==> reset == NeedsReset(old(archive), env.reply)
      ensures Misfit(env.reply, partial) ==> !done && !reset && archive == old(archive)
      ensures Accepted(env.reply, partial) && env.reply.finishes && Contradicts(old(archive), env.reply) ==> !done && !reset
    {
      var reply := env.reply;
      now, fetches := now + 1, fetches + 1;
      if reply.Unreachable? || Expired(env.idleAt, now) { return false, false; }

      if reply.status == 416 && partial > 0 {
        now := now + 1;
        return false, !reply.cancelFails;
      }
      if !(200 <= reply.status <= 299) || !reply.body {
        now := now + 1;
        return false, false;
      }
      var range := ReplyRange(reply);
      if reply.status == 206 && (range.None? || range.value.start != partial) {
        now := now + 1;
        return false, false;
      }

      var append := reply.status == 206 && partial > 0;
      if !append && partial > 0 {
        var ok := ResetArchive(env.idleAt);
        if !ok { return false, false; }
      }
      if Expired(env.idleAt, now) { return false, false; }

      if reply.began || reply.finishes {
        archive := Some((if append && archive.Some? then archive.value else []) + reply.written);
        assert archive.value == Received(old(archive), reply);
      }
      now := now + 1;
      if !reply.finishes { return false, false; }

      if Aborted(now) || env.statFails { return false, false; }
      var expectedSize := ExpectedSize(reply, partial);
      SizeIsAnnounced(old(archive), reply);
      forall file | Completes(reply, partial, file) && PrefixOf(old(archive), file)
        ensures archive == Some(file) && !Contradicts(old(archive), reply)
      {
        CompleteMeansWhole(old(archive), reply, file);
      }
      if expectedSize.Some? && Size(archive) != expectedSize.value { return false, false; }
      if env.hashFails { return false, false; }
      if sha256(archive.value) == expected { return true, false; }
      return false, true;
    }

    /** One turn of the retry loop; `last` says that no further attempt is left. */
    method Attempt(expected: Digest, last: bool, ghost file: seq<Byte>) returns (r: Option<Result<(), string>>)
      modifies this
      ensures r.Some? && r.value.Ok? ==> Verified(expected)
      ensures last ==> r.Some?
      ensures old(fetches) <= fetches <= old(fetches) + 1 && (r.None? ==> fetches == old(fetches) + 1)
      ensures old(resets) <= resets && ResetsUnaborted(|old(resets)|)
      ensures tops in {old(tops), old(tops) + [Top(old(archive), |old(resets)|)]}
      ensures FaithfulServer(file) && (PrefixOf(old(archive), file) || |resets| > |old(resets)|) ==> PrefixOf(archive, file)
      ensures Promising(file, expected) && PrefixOf(old(archive), file) ==>
        (CompleteAnswer(old(fetches), file) || !last ==> r.None? || r.value.Ok?)
      ensures Promising(file, expected) && PrefixOf(old(archive), file) && CompleteAnswer(old(fetches), file) ==> r.Some?
      ensures Calm() && (r.None? || r.value.Err?) && NeedsReset(old(archive), world(old(fetches), Size(old(archive))).reply) ==>
        archive == None
      ensures Aborted(old(now)) ==> r.Some? && r.value.Err? && archive == old(archive) && fetches == old(fetches) && tops == old(tops)
      ensures !Aborted(old(now)) && Size(old(archive)) > 0 && old(Verified(expected)) && !world(old(fetches), Size(old(archive))).probeFails ==>
        r == Some(Ok(())) && archive == old(archive) && fetches == old(fetches)
      ensures Calm() && r.Some? && r.value.Err? ==> last && fetches == old(fetches) + 1
    {
      if Aborted(now) { return Some(Err("aborted")); }
      tops := tops + [Top(archive, |resets|)];
      var partial := Size(archive);
      var env := world(fetches, partial);
      if env.probeFails { return Some(Err("the partial archive cannot be read")); }
      if partial > 0 && sha256(archive.value) == expected { return Some(Ok(())); }

      assert FaithfulServer(file) ==> Faithful(env.reply, file);
      assert CompleteAnswer(fetches, file) && partial <= |file| ==> Completes(env.reply, partial, file);
      var done, reset := TryOnce(env, partial, expected);
      if FaithfulServer(file) && (PrefixOf(old(archive), file) || |resets| > |old(resets)|) {
        StoredKeepsPrefix(old(archive), archive, env.reply, file);
      }
      if done { return Some(Ok(())); }

      if Aborted(now) { return Some(Err("aborted")); }
      if reset {
        var ok := ResetArchive(None);
        if !ok { return Some(Err("the archive cannot be removed")); }
      }
      if last { return Some(Err("the attempts are used up")); }
      now := now + 1;
      return if Aborted(now) then Some(Err("aborted")) else None;
    }

    ghost predicate TopsFaithful(from: nat, before: nat, clean: bool, file: seq<Byte>)
      reads this
    {
      forall k :: from <= k < |tops| && (clean || tops[k].resets > before) ==> PrefixOf(tops[k].archive, file)
    }

    /**
      `downloadEngineArchive`. What it returns has the expected digest, after at most `attempts`
      requests. Against a faithful server every attempt starts from a prefix of the file, from
      the start or from the first reset on; undisturbed, one complete answer is enough.
     */
    method DownloadEngineArchive(expected: Digest, attempts: int, ghost file: seq<Byte>) returns (r: Result<(), string>)
      modifies this
      ensures r.Ok? ==> Verified(expected)
      ensures fetches <= old(fetches) + if attempts > 0 then attempts else 0
      ensures old(resets) <= resets && ResetsUnaborted(|old(resets)|)
      ensures old(tops) <= tops
      ensures FaithfulServer(file) ==> TopsFaithful(|old(tops)|, |old(resets)|, PrefixOf(old(archive), file), file)
      ensures Promising(file, expected) && PrefixOf(old(archive), file) ==>
        (exists n: nat :: old(fetches) <= n < old(fetches) + attempts && CompleteAnswer(n, file)) ==> r.Ok?
      ensures Aborted(old(now)) ==> r.Err? && archive == old(archive) && fetches == old(fetches)
      ensures Calm() && attempts > 0 && Size(old(archive)) > 0 && old(Verified(expected)) ==>
        r.Ok? && archive == old(archive) && fetches == old(fetches)
      ensures Calm() && attempts > 0 && r.Err? ==> fetches == old(fetches) + attempts
    {
      var attempt := 1;
      ghost var clean := PrefixOf(archive, file);
      while attempt <= attempts
        invariant 1 <= attempt && (if attempts > 0 then attempt <= attempts else attempt == 1)
        invariant fetches == old(fetches) + attempt - 1
        invariant old(resets) <= resets && ResetsUnaborted(|old(resets)|)
        invariant old(tops) <= tops && (attempt == 1 ==> now == old(now) && archive == old(archive))
        invariant attempt > 1 ==> !Aborted(old(now))
        invariant Calm() && attempt > 1 ==> !(Size(old(archive)) > 0 && old(Verified(expected)))
        invariant FaithfulServer(file) ==> TopsFaithful(|old(tops)|, |old(resets)|, clean, file)
        invariant FaithfulServer(file) && (clean || |resets| > |old(resets)|) ==> PrefixOf(archive, file)
        invariant Promising(file, expected) && clean ==>
          forall n: nat :: old(fetches) <= n < fetches ==> !CompleteAnswer(n, file)
      {
        var verdict := Attempt(expected, attempt == attempts, file);
        if verdict.Some? { return verdict.value; }
        attempt := attempt + 1;
      }
      return Err("no attempt was allowed");
    }
  }
}

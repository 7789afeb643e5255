/** Downloads that resume from a sibling part file and publish only verified bytes
    (pipeline/clipgauge_pipeline/runtime.py, download_verified).

    The file system is reduced to the two files the function touches. One attempt
    meets an arbitrary environment: statuses, headers, chunks, cancellation polls,
    broken connections and failing writes are all part of its script. */
module Download {
  import Sequences
  import opened Text
  import opened Wrappers

  type Byte = bv8
  type Bytes = seq<Byte>

  /** The part file and the destination. */
  datatype Disk = Disk(part: Option<Bytes>, dest: Option<Bytes>)

  datatype Policy = Policy(sha256: string, maxBytes: nat, expectedSize: Option<int>)

  /** One turn of the chunk loop. A failing write stores `stored` bytes of the chunk. */
  datatype Event =
    | Arrives(data: Bytes, cancelled: bool, stored: Option<nat>)
    | Breaks

  /** `contentLength` is None when the header is missing or not a number. */
  datatype Reply = Reply(status: int, contentLength: Option<int>, body: seq<Event>, opens: bool, flushes: bool)

  /** One try at a connection; None stands for a transport error. */
  datatype Try = Try(cancelled: bool, reply: Option<Reply>)

  /** The tries of the first request, and those of the restart without a Range. */
  datatype Environment = Environment(cancelled: bool, first: seq<Try>, again: seq<Try>, publishes: bool)

  datatype Opened = Answer(reply: Reply) | Stopped | Failed

  datatype Ending = Complete | Cancelled | TooLarge | Interrupted

  datatype Outcome = Done | IntegrityError | DownloadCancelled | OsError

  /** The disk, every state it has been in, and what the progress callback was told. */
  datatype Log = Log(disk: Disk, trace: seq<Disk>, progress: seq<real>)

  const RETRIES := 3

  predicate Retryable(status: int) {
    status in {408, 425, 429} || 500 <= status <= 599
  }

  predicate Concrete(p: Policy) {
    |p.sha256| == 64 && (p.expectedSize.Some? ==> p.expectedSize.value >= 0)
  }

  /** The bytes that the policy identifies. */
  predicate Verified(p: Policy, hash: Bytes -> string, bytes: Bytes) {
    && (p.expectedSize.Some? ==> |bytes| == p.expectedSize.value)
    && Lower(hash(bytes)) == Lower(p.sha256)
  }

  // ---------------------------------------------------------------- one attempt

  /** A try that is repeated: not cancelled, and answered with a transient status. */
  predicate Transient(t: Try) {
    && !t.cancelled && t.reply.Some?
    && (t.reply.value.status in {408, 425, 429} || 500 <= t.reply.value.status < 600)
  }

  /** After transient tries only, and with at most three retries, try `k` is made. */
  predicate Made(tries: seq<Try>, n: nat, k: nat) {
    k < |tries| && k + n <= 3 && forall i :: 0 <= i < k ==> Transient(tries[i])
  }

  /** Try `k` is made and answered for good. */
  predicate AnswersAt(tries: seq<Try>, n: nat, k: nat, reply: Reply) {
    Made(tries, n, k) && !tries[k].cancelled && tries[k].reply == Some(reply) && !Transient(tries[k])
  }

  /** The poll before try `k` finds the download cancelled. */
  predicate StopsAt(tries: seq<Try>, n: nat, k: nat) {
    Made(tries, n, k) && tries[k].cancelled
  }

  /** A connection answers with the reply of its first try that is not transient, if that
      comes within the retries, is not cancelled and is answered at all; it is stopped when
      a try that is made is cancelled. */
  lemma {:induction false} OpenIsExact(tries: seq<Try>, n: nat, reply: Reply)
    requires n <= RETRIES
    ensures Open(tries, n) == Answer(reply) <==> exists k :: AnswersAt(tries, n, k, reply)
    ensures Open(tries, n) == Stopped <==> exists k :: StopsAt(tries, n, k)
    decreases RETRIES - n
  {
    if tries != [] && Transient(tries[0]) && n < RETRIES {
      var rest, next := tries[1..], n + 1;
      OpenIsExact(rest, next, reply);
      forall k: nat ensures Made(tries, n, k + 1) <==> Made(rest, next, k) {
        MadeLater(tries, n, k);
      }
      if k: nat :| AnswersAt(rest, next, k, reply) {
        assert AnswersAt(tries, n, k + 1, reply);
      }
      if k: nat :| AnswersAt(tries, n, k, reply) {
        assert k > 0 && Made(tries, n, k - 1 + 1);
        assert AnswersAt(rest, next, k - 1, reply);
      }
      if k: nat :| StopsAt(rest, next, k) {
        assert StopsAt(tries, n, k + 1);
      }
      if k: nat :| StopsAt(tries, n, k) {
        assert k > 0 && Made(tries, n, k - 1 + 1);
        assert StopsAt(rest, next, k - 1);
      }
    } else if tries != [] {
      assert forall k: nat :: Made(tries, n, k) && k > 0 ==> Transient(tries[0]);
      assert Open(tries, n) == Answer(reply) ==> AnswersAt(tries, n, 0, reply);
      assert Open(tries, n) == Stopped ==> StopsAt(tries, n, 0);
    }
  }

  lemma MadeLater(tries: seq<Try>, n: nat, k: nat)
    requires tries != [] && Transient(tries[0])
    ensures Made(tries, n, k + 1) <==> Made(tries[1..], n + 1, k)
  {
    if Made(tries, n, k + 1) {
      assert forall i :: 0 <= i < k ==> tries[1..][i] == tries[i + 1];
    }
    if Made(tries[1..], n + 1, k) {
      assert forall i :: 0 < i < k + 1 ==> tries[i] == tries[1..][i - 1];
    }
  }

  function PartBytes(d: Disk): Bytes {
    if d.part.Some? then d.part.value else []
  }

  function Write(l: Log, part: Option<Bytes>): Log {
    var disk := l.disk.(part := part);
    l.(disk := disk, trace := l.trace + [disk])
  }

  function Replace(l: Log): Log {
    var disk := Disk(None, Some(PartBytes(l.disk)));
    l.(disk := disk, trace := l.trace + [disk])
  }

  function Report(l: Log, seen: nat, total: int): Log {
    if total == 0 then l
    else
      var share := seen as real / total as real;
      l.(progress := l.progress + [if share <= 1.0 then share else 1.0])
  }

  /** The reply of a connection that has already been retried `n` times. */
  function Open(tries: seq<Try>, n: nat): Opened
    requires n <= RETRIES
    decreases RETRIES - n
  {
    if tries == [] then Failed
    else if tries[0].cancelled then Stopped
    else if tries[0].reply.None? then Failed
    else if !Retryable(tries[0].reply.value.status) then Answer(tries[0].reply.value)
    else if n < RETRIES then Open(tries[1..], n + 1)
    else Failed
  }

  /** The chunk loop, appending to the part file. */
  function Receive(l: Log, total: int, max: nat, body: seq<Event>): (Log, Ending)
    decreases |body|
  {
    if body == [] then (l, Complete)
    else match body[0]
      case Breaks => (l, Interrupted)
      case Arrives(data, cancelled, stored) =>
        var part := PartBytes(l.disk);
        if cancelled then (l, Cancelled)
        else if |part| + |data| > max then (l, TooLarge)
        else if stored.Some? && stored.value < |data| then
          (Write(l, Some(part + data[..stored.value])), Interrupted)
        else
          Receive(Report(Write(l, Some(part + data)), |part + data|, total), total, max, body[1..])
  }

  function Announced(reply: Reply): int {
    if reply.contentLength.Some? then reply.contentLength.value else 0
  }

  /** The size that progress is measured against; zero when unknown. */
  function Total(p: Policy, offset: nat, reply: Reply): int {
    if Announced(reply) != 0 then offset + Announced(reply)
    else if p.expectedSize.Some? then p.expectedSize.value
    else 0
  }

  /** Identity checks and publication of a complete part file. */
  function Publish(p: Policy, hash: Bytes -> string, l: Log, env: Environment): (Log, Outcome) {
    var bytes := PartBytes(l.disk);
    if p.expectedSize.Some? && |bytes| != p.expectedSize.value then (l, IntegrityError)
    else if Lower(hash(bytes)) != Lower(p.sha256) then (Write(l, None), IntegrityError)
    else if !env.publishes then (l, OsError)
    else (Replace(l), Done)
  }

  /** A reply whose status was accepted, appended to the `offset` bytes of the part file. */
  function Transfer(p: Policy, hash: Bytes -> string, l: Log, offset: nat, reply: Reply, env: Environment): (Log,
                    Outcome) {
    if Announced(reply) != 0 && offset + Announced(reply) > p.maxBytes then (l, IntegrityError)
    else if !reply.opens then (l, IntegrityError)
    else
      var begun := if offset > 0 then l else Write(l, Some([]));
      var (received, ending) := Receive(begun, Total(p, offset, reply), p.maxBytes, reply.body);
      if ending.Cancelled? then (received, DownloadCancelled)
      else if !ending.Complete? || !reply.flushes then (received, IntegrityError)
      else Publish(p, hash, received, env)
  }

  /** The second request, after the part file was removed. */
  function Restart(p: Policy, hash: Bytes -> string, l: Log, env: Environment): (Log, Outcome) {
    match Open(env.again, 0)
      case Stopped => (l, DownloadCancelled)
      case Failed => (l, IntegrityError)
      case Answer(reply) =>
        if reply.status != 200 then (l, IntegrityError)
        else Transfer(p, hash, l, 0, reply, env)
  }

  /** The requests of an attempt whose part file fits the limit. */
  function Requests(p: Policy, hash: Bytes -> string, l: Log, env: Environment): (Log, Outcome) {
    var offset := |PartBytes(l.disk)|;
    if env.cancelled then (l, DownloadCancelled)
    else match Open(env.first, 0)
      case Stopped => (l, DownloadCancelled)
      case Failed => (l, IntegrityError)
      case Answer(reply) =>
        if offset > 0 && reply.status in {200, 416} then Restart(p, hash, Write(l, None), env)
        else if reply.status !in {200, 206} then (l, IntegrityError)
        else Transfer(p, hash, l, offset, reply, env)
  }

  function Attempt(p: Policy, hash: Bytes -> string, l: Log, env: Environment): (Log, Outcome) {
    if !Concrete(p) then (l, IntegrityError)
    else Requests(p, hash, if |PartBytes(l.disk)| > p.maxBytes then Write(l, None) else l, env)
  }

  // ---------------------------------------------------------------- the code

  /** The directory, the progress callback's calls, and every disk state so far. */
  class Folder {
    var part: Option<Bytes>
    var dest: Option<Bytes>
    var progress: seq<real>
    ghost var trace: seq<Disk>

    ghost function Now(): Log
      reads this
    {
      Log(Disk(part, dest), trace, progress)
    }

    method WritePart(bytes: Option<Bytes>)
      modifies this
      ensures Now() == Write(old(Now()), bytes)
    {
      part := bytes;
      trace := trace + [Disk(part, dest)];
    }

    method ReplaceDestination()
      requires part.Some?
      modifies this
      ensures Now() == Replace(old(Now()))
    {
      dest := part;
      part := None;
      trace := trace + [Disk(part, dest)];
    }

    method Progress(seen: nat, total: int)
      modifies this`progress
      ensures Now() == Report(old(Now()), seen, total)
    {
      if total != 0 {
        var share := seen as real / total as real;
        progress := progress + [if share <= 1.0 then share else 1.0];
      }
    }
  }

  /** The bounded retry loop of _download_stream. */
  method OpenStream(tries: seq<Try>) returns (answer: Opened)
    ensures answer == Open(tries, 0)
  {
    var n := 0;
    while n <= RETRIES
      invariant 0 <= n <= RETRIES && n <= |tries|
      invariant Open(tries, 0) == Open(tries[n..], n)
      decreases RETRIES - n
    {
      if n == |tries| {
        return Failed;
      }
      if tries[n].cancelled {
        return Stopped;
      }
      match tries[n].reply {
        case None => return Failed;
        case Some(reply) =>
          if Retryable(reply.status) && n < RETRIES {
            assert tries[n..][1..] == tries[n + 1..];
            n := n + 1;
            continue;
          }
          if Retryable(reply.status) {
            return Failed;
          }
          return Answer(reply);
      }
    }
    return Failed;
  }

  method ReceiveInto(folder: Folder, offset: nat, total: int, max: nat, body: seq<Event>) returns (ending: Ending)
    requires folder.part.Some? && |folder.part.value| == offset
    modifies folder
    ensures (folder.Now(), ending) == Receive(old(folder.Now()), total, max, body)
    ensures folder.part.Some?
  {
    var seen := offset;
    var i := 0;
    while i < |body|
      invariant i <= |body|
      invariant folder.part.Some? && |folder.part.value| == seen
      invariant Receive(folder.Now(), total, max, body[i..]) == Receive(old(folder.Now()), total, max, body)
    {
      assert body[i..][1..] == body[i + 1..];
      match body[i] {
        case Breaks =>
          return Interrupted;
        case Arrives(data, cancelled, stored) =>
          if cancelled {
            return Cancelled;
          }
          seen := seen + |data|;
          if seen > max {
            return TooLarge;
          }
          if stored.Some? && stored.value < |data| {
            folder.WritePart(Some(folder.part.value + data[..stored.value]));
            return Interrupted;
          }
          folder.WritePart(Some(folder.part.value + data));
          folder.Progress(seen, total);
      }
      i := i + 1;
    }
    return Complete;
  }

  method PublishPart(folder: Folder, p: Policy, hash: Bytes -> string, env: Environment) returns (outcome: Outcome)
    requires folder.part.Some?
    modifies folder
    ensures (folder.Now(), outcome) == Publish(p, hash, old(folder.Now()), env)
  {
    var bytes := folder.part.value;
    if p.expectedSize.Some? && |bytes| != p.expectedSize.value {
      return IntegrityError;
    }
    if Lower(hash(bytes)) != Lower(p.sha256) {
      folder.WritePart(None);
      return IntegrityError;
    }
    if !env.publishes {
      return OsError;
    }
    folder.ReplaceDestination();
    return Done;
  }

  method TransferInto(folder: Folder, p: Policy, hash: Bytes -> string, offset: nat, reply: Reply, env: Environment)
    returns (outcome: Outcome)
    requires offset > 0 ==> folder.part.Some? && |folder.part.value| == offset
    modifies folder
    ensures (folder.Now(), outcome) == Transfer(p, hash, old(folder.Now()), offset, reply, env)
  {
    var announced := Announced(reply);
    if announced != 0 && offset + announced > p.maxBytes {
      return IntegrityError;
    }
    var total := if announced != 0 then offset + announced
                 else if p.expectedSize.Some? then p.expectedSize.value else 0;
    if !reply.opens {
      return IntegrityError;
    }
    if offset == 0 {
      folder.WritePart(Some([]));
    }
    var ending := ReceiveInto(folder, offset, total, p.maxBytes, reply.body);
    if ending.Cancelled? {
      return DownloadCancelled;
    }
    if !ending.Complete? || !reply.flushes {
      return IntegrityError;
    }
    outcome := PublishPart(folder, p, hash, env);
  }

  method DownloadVerified(folder: Folder, p: Policy, hash: Bytes -> string, env: Environment) returns (outcome: Outcome)
    modifies folder
    ensures (folder.Now(), outcome) == Attempt(p, hash, old(folder.Now()), env)
  {
    if |p.sha256| != 64 || (p.expectedSize.Some? && p.expectedSize.value < 0) {
      return IntegrityError;
    }
    var offset := if folder.part.Some? then |folder.part.value| else 0;
    if offset > p.maxBytes {
      folder.WritePart(None);
      offset := 0;
    }
    if env.cancelled {
      return DownloadCancelled;
    }
    var first := OpenStream(env.first);
    match first {
      case Stopped => return DownloadCancelled;
      case Failed => return IntegrityError;
      case Answer(reply) =>
        if offset > 0 && reply.status in {200, 416} {
          folder.WritePart(None);
          var again := OpenStream(env.again);
          match again {
            case Stopped => return DownloadCancelled;
            case Failed => return IntegrityError;
            case Answer(restart) =>
              if restart.status != 200 {
                return IntegrityError;
              }
              outcome := TransferInto(folder, p, hash, 0, restart, env);
          }
        } else {
          if reply.status !in {200, 206} {
            return IntegrityError;
          }
          outcome := TransferInto(folder, p, hash, offset, reply, env);
        }
    }
  }

  // ---------------------------------------------------------------- what one attempt can do

  /** The bytes that a reply delivers. */
  function Stream(body: seq<Event>): Bytes {
    if body == [] then []
    else (if body[0].Arrives? then body[0].data else []) + Stream(body[1..])
  }

  /** A disk with the old destination and a part file that fits the limit; with
      `content` given, the part file is also a prefix of it. */
  predicate Within(max: nat, dest: Option<Bytes>, content: Option<Bytes>, d: Disk) {
    && d.dest == dest
    && |PartBytes(d)| <= max
    && (content.Some? ==> PartBytes(d) <= content.value)
  }

  /** From `l` on, every disk up to and including the present one is Within. */
  predicate Stays(max: nat, content: Option<Bytes>, l: Log, l': Log) {
    && l.trace <= l'.trace
    && Within(max, l.disk.dest, content, l'.disk)
    && (forall i :: |l.trace| <= i < |l'.trace| ==> Within(max, l.disk.dest, content, l'.trace[i]))
  }

  /** The same, except that success ends with the verified part file as destination. */
  predicate Ends(p: Policy, hash: Bytes -> string, content: Option<Bytes>, l: Log, l': Log, outcome: Outcome) {
    && l.trace <= l'.trace
    && if outcome == Done then
        && |l.trace| < |l'.trace| && l'.trace[|l'.trace| - 1] == l'.disk
        && (forall i :: |l.trace| <= i < |l'.trace| - 1 ==> Within(p.maxBytes, l.disk.dest, content, l'.trace[i]))
        && l'.disk.part == None && l'.disk.dest.Some?
        && Verified(p, hash, l'.disk.dest.value) && |l'.disk.dest.value| <= p.maxBytes
        && (content.Some? ==> l'.disk.dest.value <= content.value)
      else Stays(p.maxBytes, content, l, l')
  }

  /** In every later disk the old part file is a prefix of the new one. */
  predicate Extends(l: Log, l': Log) {
    && PartBytes(l.disk) <= PartBytes(l'.disk)
    && (forall i :: |l.trace| <= i < |l'.trace| ==> PartBytes(l.disk) <= PartBytes(l'.trace[i]))
  }

  lemma StaysAfter(max: nat, content: Option<Bytes>, l: Log, m: Log, l': Log)
    requires m.disk.dest == l.disk.dest
    requires Stays(max, content, l, m) && Stays(max, content, m, l')
    ensures Stays(max, content, l, l')
  {
  }

  lemma EndsAfter(p: Policy, hash: Bytes -> string, content: Option<Bytes>, l: Log, m: Log, l': Log, outcome: Outcome)
    requires Stays(p.maxBytes, content, l, m) && Ends(p, hash, content, m, l', outcome)
    ensures Ends(p, hash, content, l, l', outcome)
  {
  }

  lemma WriteStays(max: nat, content: Option<Bytes>, l: Log, part: Option<Bytes>)
    requires Within(max, l.disk.dest, content, l.disk.(part := part))
    ensures Stays(max, content, l, Write(l, part))
  {
  }

  /** The chunk loop appends a prefix of the stream, all of it when it completes. */
  lemma {:induction false} ReceiveStays(l: Log, total: int, max: nat, body: seq<Event>, content: Option<Bytes>)
    requires |PartBytes(l.disk)| <= max
    requires content.Some? ==> PartBytes(l.disk) + Stream(body) <= content.value
    ensures Stays(max, content, l, Receive(l, total, max, body).0)
    ensures Extends(l, Receive(l, total, max, body).0)
    decreases |body|
  {
    if body != [] && body[0].Arrives? {
      var part, data := PartBytes(l.disk), body[0].data;
      assert part + Stream(body) == part + data + Stream(body[1..]);
      if !body[0].cancelled && |part| + |data| <= max {
        if body[0].stored.Some? && body[0].stored.value < |data| {
          assert content.Some? ==> part + data <= content.value;
          WriteStays(max, content, l, Some(part + data[..body[0].stored.value]));
        } else {
          WriteStays(max, content, l, Some(part + data));
          var m := Report(Write(l, Some(part + data)), |part + data|, total);
          ReceiveStays(m, total, max, body[1..], content);
          StaysAfter(max, content, l, m, Receive(l, total, max, body).0);
        }
      }
    }
  }

  lemma PublishEnds(p: Policy, hash: Bytes -> string, l: Log, env: Environment, content: Option<Bytes>)
    requires Within(p.maxBytes, l.disk.dest, content, l.disk)
    ensures var (l', outcome) := Publish(p, hash, l, env); Ends(p, hash, content, l, l', outcome)
  {
  }

  lemma TransferEnds(p: Policy, hash: Bytes -> string, l: Log, offset: nat, reply: Reply, env: Environment,
                     content: Option<Bytes>)
    requires Within(p.maxBytes, l.disk.dest, content, l.disk)
    requires content.Some? ==> (if offset > 0 then PartBytes(l.disk) else []) + Stream(reply.body) <= content.value
    ensures var (l', outcome) := Transfer(p, hash, l, offset, reply, env); Ends(p, hash, content, l, l', outcome)
  {
    var begun := if offset > 0 then l else Write(l, Some([]));
    var total := Total(p, offset, reply);
    WriteStays(p.maxBytes, content, l, Some([]));
    ReceiveStays(begun, total, p.maxBytes, reply.body, content);
    var received := Receive(begun, total, p.maxBytes, reply.body).0;
    StaysAfter(p.maxBytes, content, l, begun, received);
    PublishEnds(p, hash, received, env, content);
    var (l', outcome) := Publish(p, hash, received, env);
    EndsAfter(p, hash, content, l, received, l', outcome);
  }

  // ---------------------------------------------------------------- servers

  /** A truthful reply to a request for the bytes from `offset` on, for the whole content
      when `offset` is zero. It may be cut short at any point. */
  predicate Truthful(content: Bytes, offset: nat, reply: Reply) {
    && (reply.status == 206 ==> 0 < offset < |content| && Stream(reply.body) <= content[offset..])
    && (reply.status == 200 ==> Stream(reply.body) <= content)
  }

  predicate TruthfulServer(content: Bytes, offset: nat, env: Environment) {
    && (Open(env.first, 0).Answer? ==> Truthful(content, offset, Open(env.first, 0).reply))
    && (Open(env.again, 0).Answer? ==> Truthful(content, 0, Open(env.again, 0).reply))
  }

  /** The offset that an attempt asks for. */
  function Offset(p: Policy, d: Disk): nat {
    if |PartBytes(d)| > p.maxBytes then 0 else |PartBytes(d)|
  }

  lemma {:induction false} AttemptEnds(p: Policy, hash: Bytes -> string, l: Log, env: Environment,
                                       content: Option<Bytes>)
    requires Concrete(p)
    requires content.Some? ==>
      PartBytes(l.disk) <= content.value && TruthfulServer(content.value, Offset(p, l.disk), env)
    ensures var (l', outcome) := Attempt(p, hash, l, env); Ends(p, hash, content, l, l', outcome)
  {
    var oversize := |PartBytes(l.disk)| > p.maxBytes;
    var kept := if oversize then Write(l, None) else l;
    WriteStays(p.maxBytes, content, l, None);
    WriteStays(p.maxBytes, content, kept, None);
    var (l', outcome) := Attempt(p, hash, l, env);
    if !env.cancelled && Open(env.first, 0).Answer? {
      var reply, offset := Open(env.first, 0).reply, |PartBytes(kept.disk)|;
      if offset > 0 && reply.status in {200, 416} {
        RestartEnds(p, hash, Write(kept, None), env, content);
        EndsAfter(p, hash, content, kept, Write(kept, None), l', outcome);
      } else if reply.status in {200, 206} {
        if content.Some? {
          ResumedPrefix(content.value, PartBytes(kept.disk), offset, reply);
        }
        TransferEnds(p, hash, kept, offset, reply, env, content);
      }
    }
    EndsAfter(p, hash, content, l, kept, l', outcome);
  }

  lemma ResumedPrefix(content: Bytes, part: Bytes, offset: nat, reply: Reply)
    requires part <= content && offset == |part| && Truthful(content, offset, reply)
    requires if offset > 0 then reply.status == 206 else reply.status in {200, 206}
    ensures part + Stream(reply.body) <= content
  {
    if offset > 0 {
      assert content == part + content[offset..];
    } else {
      assert part + Stream(reply.body) == Stream(reply.body);
    }
  }

  lemma RestartEnds(p: Policy, hash: Bytes -> string, l: Log, env: Environment, content: Option<Bytes>)
    requires l.disk.part == None
    requires content.Some? && Open(env.again, 0).Answer? ==> Truthful(content.value, 0, Open(env.again, 0).reply)
    ensures var (l', outcome) := Restart(p, hash, l, env); Ends(p, hash, content, l, l', outcome)
  {
    if Open(env.again, 0).Answer? && Open(env.again, 0).reply.status == 200 {
      var reply := Open(env.again, 0).reply;
      assert [] + Stream(reply.body) == Stream(reply.body);
      TransferEnds(p, hash, l, 0, reply, env, content);
    }
  }

  /** No failure touches the destination, whatever the server, the disk or the user do;
      success ends with verified bytes there and no part file. The part file never
      outgrows the limit, not even between two writes. */
  lemma AttemptIsSafe(p: Policy, hash: Bytes -> string, l: Log, env: Environment)
    ensures var (l', outcome) := Attempt(p, hash, l, env);
      && l.trace <= l'.trace
      && (outcome == Done ==>
          && Concrete(p) && l'.disk.part == None
          && l'.disk.dest.Some? && Verified(p, hash, l'.disk.dest.value))
      && (outcome != Done ==> l'.disk.dest == l.disk.dest)
      && (forall i :: |l.trace| <= i < |l'.trace| ==>
          && |PartBytes(l'.trace[i])| <= p.maxBytes
          && (l'.trace[i].dest == l.disk.dest || (outcome == Done && l'.trace[i] == l'.disk)))
      && (Concrete(p) ==> |PartBytes(l'.disk)| <= p.maxBytes)
  {
    if Concrete(p) {
      AttemptEnds(p, hash, l, env, None);
    }
  }

  // ---------------------------------------------------------------- histories

  /** An attempt that returned, or one cut off by a crash after its write `at`, with
      only `kept` bytes of the part file on the disk afterwards. */
  datatype Step = Returned(env: Environment) | Crashed(env: Environment, at: nat, kept: nat)

  function Truncated(d: Disk, kept: nat): Disk {
    if d.part.Some? && |d.part.value| > kept then d.(part := Some(d.part.value[..kept])) else d
  }

  function NextDisk(p: Policy, hash: Bytes -> string, d: Disk, step: Step): Disk {
    var l := Attempt(p, hash, Log(d, [d], []), step.env).0;
    match step
      case Returned(_) => l.disk
      case Crashed(_, at, kept) => if at < |l.trace| then Truncated(l.trace[at], kept) else l.disk
  }

  function History(p: Policy, hash: Bytes -> string, d: Disk, steps: seq<Step>): Disk
    decreases |steps|
  {
    if steps == [] then d else History(p, hash, NextDisk(p, hash, d, steps[0]), steps[1..])
  }

  lemma StepIsSafe(p: Policy, hash: Bytes -> string, d: Disk, step: Step)
    ensures var d' := NextDisk(p, hash, d, step);
      d'.dest == d.dest || (d'.dest.Some? && Verified(p, hash, d'.dest.value))
  {
    AttemptIsSafe(p, hash, Log(d, [d], []), step.env);
  }

  /** After any attempts and crashes the destination is the original or verified. */
  lemma {:induction false} DestinationIsOriginalOrVerified(p: Policy, hash: Bytes -> string, d: Disk, steps: seq<Step>)
    ensures var d' := History(p, hash, d, steps);
      d'.dest == d.dest || (d'.dest.Some? && Verified(p, hash, d'.dest.value))
    decreases |steps|
  {
    if steps != [] {
      StepIsSafe(p, hash, d, steps[0]);
      DestinationIsOriginalOrVerified(p, hash, NextDisk(p, hash, d, steps[0]), steps[1..]);
    }
  }

  // ---------------------------------------------------------------- exact outcomes

  /** Event `i` arrives, is not cancelled, fits the limit and is stored in full. */
  predicate TakenAt(body: seq<Event>, size: nat, max: nat, i: nat)
    requires i < |body|
  {
    && body[i].Arrives? && !body[i].cancelled && size + |Stream(body[..i + 1])| <= max
    && (body[i].stored.Some? ==> body[i].stored.value >= |body[i].data|)
  }

  predicate Taken(body: seq<Event>, size: nat, max: nat, k: nat) {
    k <= |body| && forall i :: 0 <= i < k ==> TakenAt(body, size, max, i)
  }

  /** Event `k` ends the chunk loop, or nothing does. */
  predicate EndsAt(ending: Ending, body: seq<Event>, size: nat, max: nat, k: nat) {
    Taken(body, size, max, k) &&
    if k == |body| then ending == Complete
    else if body[k].Breaks? then ending == Interrupted
    else if body[k].cancelled then ending == Cancelled
    else if size + |Stream(body[..k + 1])| > max then ending == TooLarge
    else ending == Interrupted && body[k].stored.Some? && body[k].stored.value < |body[k].data|
  }

  /** What the loop adds to the part file: everything before event `k`, and of that event
      what a failing write stored. */
  function Stored(ending: Ending, body: seq<Event>, k: nat): Bytes
    requires k <= |body|
  {
    Stream(body[..k]) +
    if ending == Interrupted && k < |body| && body[k].Arrives? && body[k].stored.Some?
       && body[k].stored.value <= |body[k].data|
    then body[k].data[..body[k].stored.value] else []
  }

  lemma StreamFirst(body: seq<Event>, k: nat)
    requires body != [] && body[0].Arrives? && k < |body|
    ensures Stream(body[..k + 1]) == body[0].data + Stream(body[1..][..k])
  {
    assert body[..k + 1][1..] == body[1..][..k];
  }

  lemma TakenAtLater(body: seq<Event>, size: nat, max: nat, i: nat)
    requires body != [] && body[0].Arrives? && i + 1 < |body|
    ensures TakenAt(body, size, max, i + 1) <==> TakenAt(body[1..], size + |body[0].data|, max, i)
  {
    StreamFirst(body, i + 1);
  }

  lemma TakenLater(body: seq<Event>, size: nat, max: nat, k: nat)
    requires body != [] && TakenAt(body, size, max, 0)
    ensures Taken(body, size, max, k + 1) <==> Taken(body[1..], size + |body[0].data|, max, k)
  {
    var rest, next := body[1..], size + |body[0].data|;
    forall i | 0 <= i < |rest| ensures TakenAt(body, size, max, i + 1) <==> TakenAt(rest, next, max, i) {
      TakenAtLater(body, size, max, i);
    }
    if Taken(rest, next, max, k) {
      forall i | 0 <= i < k + 1 ensures TakenAt(body, size, max, i) {
        if i > 0 {
          var j := i - 1;
          assert TakenAt(rest, next, max, j);
        }
      }
    }
    if Taken(body, size, max, k + 1) {
      forall i | 0 <= i < k ensures TakenAt(rest, next, max, i) {
        assert TakenAt(body, size, max, i + 1);
      }
    }
  }

  lemma EndsLater(ending: Ending, body: seq<Event>, size: nat, max: nat, k: nat)
    requires body != [] && TakenAt(body, size, max, 0)
    ensures EndsAt(ending, body, size, max, k + 1) <==> EndsAt(ending, body[1..], size + |body[0].data|, max, k)
    ensures k < |body| ==> Stored(ending, body, k + 1) == body[0].data + Stored(ending, body[1..], k)
  {
    TakenLater(body, size, max, k);
    if k < |body| {
      StreamFirst(body, k);
      if k + 1 < |body| {
        StreamFirst(body, k + 1);
      }
    }
  }

  /** The chunk loop ends at the first event that breaks, is cancelled, exceeds the limit or
      is not stored in full, in that order of importance, and the part file then holds
      exactly what was stored until then. */
  lemma {:induction false} ReceiveIsExact(l: Log, total: int, max: nat, body: seq<Event>) returns (k: nat)
    ensures var (l', ending) := Receive(l, total, max, body);
      && EndsAt(ending, body, |PartBytes(l.disk)|, max, k) && k <= |body|
      && PartBytes(l'.disk) == PartBytes(l.disk) + Stored(ending, body, k)
      && l'.disk.dest == l.disk.dest
    decreases |body|, 1
  {
    k := 0;
    var part, size := PartBytes(l.disk), |PartBytes(l.disk)|;
    assert body[..0] == [] && part + [] == part;
    if body != [] && body[0].Arrives? {
      StreamFirst(body, 0);
      assert Stream(body[1..][..0]) == [];
      if TakenAt(body, size, max, 0) {
        k := ReceiveMore(l, total, max, body);
      }
    }
  }

  /** The first event was taken. */
  lemma {:induction false} ReceiveMore(l: Log, total: int, max: nat, body: seq<Event>) returns (k: nat)
    requires body != [] && TakenAt(body, |PartBytes(l.disk)|, max, 0)
    ensures var (l', ending) := Receive(l, total, max, body);
      && EndsAt(ending, body, |PartBytes(l.disk)|, max, k) && k <= |body|
      && PartBytes(l'.disk) == PartBytes(l.disk) + Stored(ending, body, k)
      && l'.disk.dest == l.disk.dest
    decreases |body|, 0
  {
    var part, data := PartBytes(l.disk), body[0].data;
    StreamFirst(body, 0);
    assert Stream(body[1..][..0]) == [];
    var next := Report(Write(l, Some(part + data)), |part + data|, total);
    assert Receive(l, total, max, body) == Receive(next, total, max, body[1..]);
    k := ReceiveIsExact(next, total, max, body[1..]);
    var ending := Receive(l, total, max, body).1;
    EndsLater(ending, body, |part|, max, k);
    assert part + data + Stored(ending, body[1..], k) == part + (data + Stored(ending, body[1..], k));
    k := k + 1;
  }

  /** At most one event ends the loop. */
  lemma OneEnding(e: Ending, f: Ending, body: seq<Event>, size: nat, max: nat, j: nat, k: nat)
    requires EndsAt(e, body, size, max, j) && EndsAt(f, body, size, max, k)
    ensures e == f && j == k
  {
    assert j < k ==> TakenAt(body, size, max, j);
    assert k < j ==> TakenAt(body, size, max, k);
  }

  /** Every chunk taken is one write, after which the part file holds the old one and the
      stream so far: these are the states that a crash can leave. */
  lemma {:induction false} ReceiveTrace(l: Log, total: int, max: nat, body: seq<Event>, k: nat)
    requires Taken(body, |PartBytes(l.disk)|, max, k) && k > 0
    ensures var l' := Receive(l, total, max, body).0;
      && |l'.trace| >= |l.trace| + k
      && l'.trace[|l.trace| + k - 1] == l.disk.(part := Some(PartBytes(l.disk) + Stream(body[..k])))
    decreases k
  {
    assert TakenAt(body, |PartBytes(l.disk)|, max, 0);
    var part, data := PartBytes(l.disk), body[0].data;
    StreamFirst(body, 0);
    StreamFirst(body, k - 1);
    assert Stream(body[1..][..0]) == [];
    var next := Report(Write(l, Some(part + data)), |part + data|, total);
    TraceGrows(next, total, max, body[1..]);
    if k > 1 {
      TakenLater(body, |part|, max, k - 1);
      ReceiveTrace(next, total, max, body[1..], k - 1);
      assert part + data + Stream(body[1..][..k - 1]) == part + (data + Stream(body[1..][..k - 1]));
    } else {
      assert Stream(body[..k]) == data + [] == data;
      assert Receive(l, total, max, body).0.trace[|l.trace|] == next.trace[|l.trace|];
    }
  }

  lemma {:induction false} TraceGrows(l: Log, total: int, max: nat, body: seq<Event>)
    ensures l.trace <= Receive(l, total, max, body).0.trace
    ensures Current(l) ==> Current(Receive(l, total, max, body).0)
    decreases |body|
  {
    if body != [] && body[0].Arrives? {
      var part, data := PartBytes(l.disk), body[0].data;
      if !body[0].cancelled && |part| + |data| <= max && !(body[0].stored.Some? && body[0].stored.value < |data|) {
        TraceGrows(Report(Write(l, Some(part + data)), |part + data|, total), total, max, body[1..]);
      }
    }
  }

  /** The last state recorded is the present one. */
  predicate Current(l: Log) {
    l.trace != [] && l.trace[|l.trace| - 1] == l.disk
  }

  /** No change of the disk goes unrecorded. */
  lemma EveryChangeIsRecorded(p: Policy, hash: Bytes -> string, l: Log, env: Environment)
    requires Current(l)
    ensures Current(Attempt(p, hash, l, env).0)
  {
    var kept := if |PartBytes(l.disk)| > p.maxBytes then Write(l, None) else l;
    if Open(env.first, 0).Answer? {
      TransferIsRecorded(p, hash, kept, |PartBytes(kept.disk)|, Open(env.first, 0).reply, env);
    }
    if Open(env.again, 0).Answer? {
      TransferIsRecorded(p, hash, Write(kept, None), 0, Open(env.again, 0).reply, env);
    }
  }

  lemma TransferIsRecorded(p: Policy, hash: Bytes -> string, l: Log, offset: nat, reply: Reply, env: Environment)
    requires Current(l)
    ensures Current(Transfer(p, hash, l, offset, reply, env).0)
  {
    TraceGrows(if offset > 0 then l else Write(l, Some([])), Total(p, offset, reply), p.maxBytes, reply.body);
  }

  /** The reply that an attempt transfers, and the size of the part file it continues: the
      first reply, or after 200 or 416 for a part file a new one for everything. */
  ghost predicate Serves(p: Policy, d: Disk, env: Environment, offset: nat, reply: Reply) {
    exists j, first :: AnswersAt(env.first, 0, j, first) &&
      if Offset(p, d) > 0 && (first.status == 200 || first.status == 416)
      then offset == 0 && reply.status == 200 && exists k :: AnswersAt(env.again, 0, k, reply)
      else reply == first && offset == Offset(p, d) && (reply.status == 200 || reply.status == 206)
  }

  /** The part file is opened: the announced size, if any, fits the limit. */
  predicate Begins(p: Policy, offset: nat, reply: Reply) {
    && (reply.contentLength.Some? && reply.contentLength.value != 0 ==>
        offset + reply.contentLength.value <= p.maxBytes)
    && reply.opens
  }

  /** The polls made before and during an attempt, one of which finds it cancelled. */
  ghost predicate CancelledIn(p: Policy, d: Disk, env: Environment) {
    || env.cancelled
    || (exists k :: StopsAt(env.first, 0, k))
    || ((exists j, first :: AnswersAt(env.first, 0, j, first) && Offset(p, d) > 0
                            && (first.status == 200 || first.status == 416))
        && exists k :: StopsAt(env.again, 0, k))
    || (exists offset, reply, k :: Serves(p, d, env, offset, reply) && Begins(p, offset, reply)
                                   && EndsAt(Cancelled, reply.body, offset, p.maxBytes, k))
  }

  /** A reply is served, opened, received in full and flushed. */
  ghost predicate ReceivedIn(p: Policy, d: Disk, env: Environment, offset: nat, reply: Reply) {
    && Serves(p, d, env, offset, reply) && Begins(p, offset, reply)
    && Taken(reply.body, offset, p.maxBytes, |reply.body|) && reply.flushes
  }

  /** The part file continued, or nothing, and the delivered bytes. */
  function Continued(d: Disk, offset: nat, reply: Reply): Bytes {
    (if offset > 0 then PartBytes(d) else []) + Stream(reply.body)
  }

  lemma OpenAnswers(tries: seq<Try>)
    ensures Open(tries, 0).Answer? ==> exists k :: AnswersAt(tries, 0, k, Open(tries, 0).reply)
    ensures forall reply, k :: AnswersAt(tries, 0, k, reply) ==> Open(tries, 0) == Answer(reply)
    ensures Open(tries, 0) == Stopped <==> exists k :: StopsAt(tries, 0, k)
  {
    forall reply ensures Open(tries, 0) == Answer(reply) <==> exists k :: AnswersAt(tries, 0, k, reply) {
      OpenIsExact(tries, 0, reply);
    }
    OpenIsExact(tries, 0, Reply(0, None, [], false, false));
  }

  /** What the ending of the loop says. */
  lemma ReceiveEndings(l: Log, total: int, max: nat, body: seq<Event>)
    ensures var (l', ending) := Receive(l, total, max, body);
      && (ending == Complete <==> Taken(body, |PartBytes(l.disk)|, max, |body|))
      && (ending == Cancelled <==> exists k :: EndsAt(Cancelled, body, |PartBytes(l.disk)|, max, k))
      && (ending == Complete ==> PartBytes(l'.disk) == PartBytes(l.disk) + Stream(body))
  {
    var size := |PartBytes(l.disk)|;
    var k := ReceiveIsExact(l, total, max, body);
    var ending := Receive(l, total, max, body).1;
    if ending == Complete {
      assert body[..k] == body;
      assert Stream(body) + [] == Stream(body);
    }
    forall e, j | EndsAt(e, body, size, max, j) ensures e == ending {
      OneEnding(e, ending, body, size, max, j, k);
    }
    assert Taken(body, size, max, |body|) <==> EndsAt(Complete, body, size, max, |body|);
  }

  /** How a transfer ends. */
  lemma TransferIsExact(p: Policy, hash: Bytes -> string, l: Log, offset: nat, reply: Reply, env: Environment)
    requires offset > 0 ==> |PartBytes(l.disk)| == offset
    ensures var (l', outcome) := Transfer(p, hash, l, offset, reply, env);
      var received := Begins(p, offset, reply) && Taken(reply.body, offset, p.maxBytes, |reply.body|) && reply.flushes;
      var bytes := Continued(l.disk, offset, reply);
      && (outcome == DownloadCancelled <==>
          Begins(p, offset, reply) && exists k :: EndsAt(Cancelled, reply.body, offset, p.maxBytes, k))
      && (outcome == Done <==> received && Verified(p, hash, bytes) && env.publishes)
      && (outcome == OsError <==> received && Verified(p, hash, bytes) && !env.publishes)
      && (outcome == Done ==> l'.disk == Disk(None, Some(bytes)))
  {
    if Begins(p, offset, reply) {
      ReceiveEndings(if offset > 0 then l else Write(l, Some([])), Total(p, offset, reply), p.maxBytes, reply.body);
    }
  }

  lemma OneServed(p: Policy, d: Disk, env: Environment, offset: nat, reply: Reply, offset': nat, reply': Reply)
    requires Serves(p, d, env, offset, reply) && Serves(p, d, env, offset', reply')
    ensures offset == offset' && reply == reply'
  {
    OpenAnswers(env.first);
    OpenAnswers(env.again);
  }

  /** What becomes of an attempt that is served. */
  lemma ServedAttempt(p: Policy, hash: Bytes -> string, l: Log, env: Environment, offset: nat, reply: Reply)
    returns (m: Log)
    requires Concrete(p) && !env.cancelled && Serves(p, l.disk, env, offset, reply)
    ensures Attempt(p, hash, l, env) == Transfer(p, hash, m, offset, reply, env)
    ensures m.disk.dest == l.disk.dest && (offset > 0 ==> m.disk.part.Some?)
    ensures offset > 0 ==> PartBytes(m.disk) == PartBytes(l.disk) && |PartBytes(l.disk)| == offset
  {
    OpenAnswers(env.first);
    OpenAnswers(env.again);
    m := if |PartBytes(l.disk)| > p.maxBytes then Write(l, None) else l;
    if Offset(p, l.disk) > 0 && Open(env.first, 0).reply.status in {200, 416} {
      m := Write(m, None);
    }
  }

  /** And of one that is not. */
  lemma UnservedAttempt(p: Policy, hash: Bytes -> string, l: Log, env: Environment)
    requires Concrete(p) && !env.cancelled && forall offset, reply :: !Serves(p, l.disk, env, offset, reply)
    ensures var outcome := Attempt(p, hash, l, env).1;
      && outcome in {DownloadCancelled, IntegrityError}
      && (outcome == DownloadCancelled <==> CancelledIn(p, l.disk, env))
  {
    OpenAnswers(env.first);
    OpenAnswers(env.again);
    if Open(env.first, 0).Answer? {
      var first := Open(env.first, 0).reply;
      assert !Serves(p, l.disk, env, Offset(p, l.disk), first);
      if Open(env.again, 0).Answer? {
        assert !Serves(p, l.disk, env, 0, Open(env.again, 0).reply);
      }
    }
  }

  /** The served reply decides. */
  lemma ServedIsExact(p: Policy, hash: Bytes -> string, l: Log, env: Environment, offset: nat, reply: Reply)
    requires Concrete(p) && !env.cancelled && Serves(p, l.disk, env, offset, reply)
    ensures var (l', outcome) := Attempt(p, hash, l, env);
      var good := ReceivedIn(p, l.disk, env, offset, reply) && Verified(p, hash, Continued(l.disk, offset, reply));
      && (outcome == DownloadCancelled <==>
          Begins(p, offset, reply) && exists k :: EndsAt(Cancelled, reply.body, offset, p.maxBytes, k))
      && (outcome == Done <==> good && env.publishes)
      && (outcome == OsError <==> good && !env.publishes)
      && (outcome == Done ==> l'.disk == Disk(None, Some(Continued(l.disk, offset, reply))))
  {
    var m := ServedAttempt(p, hash, l, env, offset, reply);
    TransferIsExact(p, hash, m, offset, reply, env);
    assert Continued(m.disk, offset, reply) == Continued(l.disk, offset, reply);
  }

  /** A served attempt was not stopped before. */
  lemma ServedIsNotStopped(p: Policy, d: Disk, env: Environment, offset: nat, reply: Reply)
    requires Serves(p, d, env, offset, reply) && !env.cancelled
    ensures CancelledIn(p, d, env) <==>
      Begins(p, offset, reply) && exists k :: EndsAt(Cancelled, reply.body, offset, p.maxBytes, k)
  {
    OpenAnswers(env.first);
    OpenAnswers(env.again);
    forall o, r | Serves(p, d, env, o, r) ensures o == offset && r == reply {
      OneServed(p, d, env, offset, reply, o, r);
    }
  }

  /** An attempt under a concrete policy receives in full what it is to verify. */
  ghost predicate Good(p: Policy, hash: Bytes -> string, d: Disk, env: Environment, offset: nat, reply: Reply) {
    && |p.sha256| == 64 && (p.expectedSize.Some? ==> p.expectedSize.value >= 0) && !env.cancelled
    && ReceivedIn(p, d, env, offset, reply) && Verified(p, hash, Continued(d, offset, reply))
  }

  lemma GoodIsServed(p: Policy, hash: Bytes -> string, d: Disk, env: Environment, offset: nat, reply: Reply)
    requires Serves(p, d, env, offset, reply)
    ensures (exists o, r :: Good(p, hash, d, env, o, r)) <==> Good(p, hash, d, env, offset, reply)
  {
    forall o, r | Good(p, hash, d, env, o, r) ensures o == offset && r == reply {
      OneServed(p, d, env, offset, reply, o, r);
    }
  }

  /** Exactly when an attempt is cancelled, succeeds, or fails to publish what it verified;
      every other attempt ends in an integrity error. A successful one publishes the part
      file it continued and everything the reply delivered. */
  lemma AttemptIsExact(p: Policy, hash: Bytes -> string, l: Log, env: Environment)
    ensures var (l', outcome) := Attempt(p, hash, l, env);
      var good := exists offset, reply :: Good(p, hash, l.disk, env, offset, reply);
      && (outcome == DownloadCancelled <==> Concrete(p) && CancelledIn(p, l.disk, env))
      && (outcome == Done <==> good && env.publishes)
      && (outcome == OsError <==> good && !env.publishes)
    ensures forall offset, reply :: Good(p, hash, l.disk, env, offset, reply) && env.publishes ==>
      Attempt(p, hash, l, env).0.disk == Disk(None, Some(Continued(l.disk, offset, reply)))
  {
    if Concrete(p) && !env.cancelled {
      if offset, reply :| Serves(p, l.disk, env, offset, reply) {
        ServedIsNotStopped(p, l.disk, env, offset, reply);
        GoodIsServed(p, hash, l.disk, env, offset, reply);
        ServedIsExact(p, hash, l, env, offset, reply);
        forall o, r | Good(p, hash, l.disk, env, o, r) ensures o == offset && r == reply {
          OneServed(p, l.disk, env, offset, reply, o, r);
        }
      } else {
        UnservedAttempt(p, hash, l, env);
      }
    }
  }

  // ---------------------------------------------------------------- what a failure leaves

  /** The part file that a transfer leaves when its loop ends at event `k`: everything stored,
      unless all of it arrived, with the expected size, and has the wrong hash. */
  function LeftBy(p: Policy, hash: Bytes -> string, before: Bytes, reply: Reply, ending: Ending, k: nat): Option<Bytes>
    requires k <= |reply.body|
  {
    var bytes := before + Stored(ending, reply.body, k);
    if ending == Complete && reply.flushes && (p.expectedSize.Some? ==> |bytes| == p.expectedSize.value)
       && Lower(hash(bytes)) != Lower(p.sha256)
    then None
    else Some(bytes)
  }

  lemma FailedTransferLeaves(p: Policy, hash: Bytes -> string, l: Log, offset: nat, reply: Reply, env: Environment)
    returns (ending: Ending, k: nat)
    requires offset > 0 ==> l.disk.part.Some? && |l.disk.part.value| == offset
    requires Transfer(p, hash, l, offset, reply, env).1 != Done
    ensures !Begins(p, offset, reply) ==> Transfer(p, hash, l, offset, reply, env).0 == l
    ensures Begins(p, offset, reply) ==>
      && EndsAt(ending, reply.body, offset, p.maxBytes, k) && k <= |reply.body|
      && Transfer(p, hash, l, offset, reply, env).0.disk ==
         Disk(LeftBy(p, hash, if offset > 0 then PartBytes(l.disk) else [], reply, ending, k), l.disk.dest)
  {
    ending, k := Complete, 0;
    if Begins(p, offset, reply) {
      var begun := if offset > 0 then l else Write(l, Some([]));
      k := ReceiveIsExact(begun, Total(p, offset, reply), p.maxBytes, reply.body);
      ending := Receive(begun, Total(p, offset, reply), p.maxBytes, reply.body).1;
      StaysPresent(begun, Total(p, offset, reply), p.maxBytes, reply.body);
    }
  }

  lemma {:induction false} StaysPresent(l: Log, total: int, max: nat, body: seq<Event>)
    requires l.disk.part.Some?
    ensures Receive(l, total, max, body).0.disk.part.Some?
    decreases |body|
  {
    if body != [] && body[0].Arrives? {
      var part, data := PartBytes(l.disk), body[0].data;
      if !body[0].cancelled && |part| + |data| <= max && !(body[0].stored.Some? && body[0].stored.value < |data|) {
        StaysPresent(Report(Write(l, Some(part + data)), |part + data|, total), total, max, body[1..]);
      }
    }
  }

  /** The first reply shows that the part file cannot be continued. */
  ghost predicate Restarts(p: Policy, d: Disk, env: Environment) {
    !env.cancelled && Offset(p, d) > 0 &&
    exists j, first :: AnswersAt(env.first, 0, j, first) && (first.status == 200 || first.status == 416)
  }

  /** Exactly what a failed attempt leaves: it keeps every byte that was stored, so that the
      next attempt can continue. The part file is discarded only when it exceeds the limit,
      when the server cannot continue it, or when it was received in full and has the wrong
      hash; the destination is as it was. */
  lemma FailedAttemptLeaves(p: Policy, hash: Bytes -> string, l: Log, env: Environment, offset: nat, reply: Reply)
    returns (ending: Ending, k: nat)
    requires Concrete(p) && Attempt(p, hash, l, env).1 != Done
    ensures !env.cancelled && Serves(p, l.disk, env, offset, reply) && Begins(p, offset, reply) ==>
      && EndsAt(ending, reply.body, offset, p.maxBytes, k) && k <= |reply.body|
      && Attempt(p, hash, l, env).0.disk ==
         Disk(LeftBy(p, hash, if offset > 0 then PartBytes(l.disk) else [], reply, ending, k), l.disk.dest)
    ensures env.cancelled || !(exists o, r :: Serves(p, l.disk, env, o, r) && Begins(p, o, r)) ==>
      Attempt(p, hash, l, env).0.disk ==
      if |PartBytes(l.disk)| > p.maxBytes || Restarts(p, l.disk, env) then l.disk.(part := None) else l.disk
  {
    ending, k := Complete, 0;
    if !env.cancelled {
      if Serves(p, l.disk, env, offset, reply) {
        var m := ServedAttempt(p, hash, l, env, offset, reply);
        ending, k := FailedTransferLeaves(p, hash, m, offset, reply, env);
      }
      if !(exists o, r :: Serves(p, l.disk, env, o, r) && Begins(p, o, r)) {
        NothingBegun(p, hash, l, env);
      }
    }
  }

  lemma NothingBegun(p: Policy, hash: Bytes -> string, l: Log, env: Environment)
    requires Concrete(p) && !env.cancelled && Attempt(p, hash, l, env).1 != Done
    requires !(exists o, r :: Serves(p, l.disk, env, o, r) && Begins(p, o, r))
    ensures Attempt(p, hash, l, env).0.disk ==
      if |PartBytes(l.disk)| > p.maxBytes || Restarts(p, l.disk, env) then l.disk.(part := None) else l.disk
  {
    OpenAnswers(env.first);
    OpenAnswers(env.again);
    if Open(env.first, 0).Answer? {
      var first, size := Open(env.first, 0).reply, Offset(p, l.disk);
      assert Serves(p, l.disk, env, size, first) ==> !Begins(p, size, first);
      if Open(env.again, 0).Answer? {
        var again := Open(env.again, 0).reply;
        assert Serves(p, l.disk, env, 0, again) ==> !Begins(p, 0, again);
      }
    }
  }

  // ---------------------------------------------------------------- honest servers

  /** Nothing interrupts the body. */
  predicate Uninterrupted(body: seq<Event>) {
    forall i :: 0 <= i < |body| ==> body[i].Arrives? && !body[i].cancelled &&
                                    (body[i].stored.Some? ==> body[i].stored.value >= |body[i].data|)
  }

  /** A complete answer to the same request: partial content, the whole content when the
      range is ignored, or 416 when it lies beyond the end (sections 14.2, 15.3.7 and
      15.5.17 of RFC 9110). */
  predicate Complying(content: Bytes, offset: nat, reply: Reply) {
    && (reply.status == 200 || (0 < offset < |content| && reply.status == 206)
        || (0 < offset && |content| <= offset && reply.status == 416))
    && (reply.status == 200 ==> Delivers(content, reply))
    && (reply.status == 206 ==> offset <= |content| && Delivers(content[offset..], reply))
  }

  predicate Delivers(bytes: Bytes, reply: Reply) {
    && Uninterrupted(reply.body) && reply.opens && reply.flushes
    && Stream(reply.body) == bytes
    && Announced(reply) in {0, |bytes|}
  }

  predicate HonestServer(content: Bytes, offset: nat, env: Environment) {
    && !env.cancelled && env.publishes
    && Open(env.first, 0).Answer? && Complying(content, offset, Open(env.first, 0).reply)
    && (offset > 0 && Open(env.first, 0).reply.status in {200, 416} ==>
        Open(env.again, 0).Answer? && Complying(content, 0, Open(env.again, 0).reply))
  }

  /** The policy describes `content` and, the hash being injective, nothing else. */
  ghost predicate Describes(p: Policy, hash: Bytes -> string, content: Bytes) {
    && Concrete(p) && Verified(p, hash, content) && |content| <= p.maxBytes
    && (forall x, y :: Lower(hash(x)) == Lower(hash(y)) ==> x == y)
  }

  lemma {:induction false} ReceiveAll(l: Log, total: int, max: nat, body: seq<Event>)
    requires Uninterrupted(body) && l.disk.part.Some? && |l.disk.part.value| + |Stream(body)| <= max
    ensures var (l', ending) := Receive(l, total, max, body);
      ending == Complete && l'.disk == l.disk.(part := Some(l.disk.part.value + Stream(body)))
    decreases |body|
  {
    if body == [] {
      assert l.disk.part.value + [] == l.disk.part.value;
    } else {
      var part, data := l.disk.part.value, body[0].data;
      assert part + Stream(body) == part + data + Stream(body[1..]);
      ReceiveAll(Report(Write(l, Some(part + data)), |part + data|, total), total, max, body[1..]);
    }
  }

  /** A complete transfer publishes exactly when the bytes are the content. */
  lemma TransferAll(p: Policy, hash: Bytes -> string, content: Bytes, l: Log, offset: nat, reply: Reply,
                    env: Environment)
    requires Describes(p, hash, content) && env.publishes && offset <= |content|
    requires offset > 0 ==> l.disk.part.Some? && |l.disk.part.value| == offset
    requires Delivers(content[offset..], reply)
    ensures var (l', outcome) := Transfer(p, hash, l, offset, reply, env);
      if offset > 0 ==> l.disk.part.value == content[..offset]
      then outcome == Done && l'.disk == Disk(None, Some(content))
      else outcome == IntegrityError && l'.disk == l.disk.(part := None)
  {
    var start := if offset > 0 then l.disk.part.value else [];
    var begun := if offset > 0 then l else Write(l, Some([]));
    ReceiveAll(begun, Total(p, offset, reply), p.maxBytes, reply.body);
    assert start + content[offset..] == content <==> start == content[..offset];
  }

  /** Against an honest server one uninterrupted attempt is enough, except exactly when
      the server continues a part file that is not a prefix of the content; then the
      part file is gone. */
  lemma OneAttempt(p: Policy, hash: Bytes -> string, content: Bytes, l: Log, env: Environment)
    requires Describes(p, hash, content)
    requires HonestServer(content, Offset(p, l.disk), env)
    ensures var (l', outcome) := Attempt(p, hash, l, env);
      if Open(env.first, 0).reply.status == 206 && !(PartBytes(l.disk) <= content)
      then outcome == IntegrityError && l'.disk == Disk(None, l.disk.dest)
      else outcome == Done && l'.disk == Disk(None, Some(content))
  {
    var oversize := |PartBytes(l.disk)| > p.maxBytes;
    var kept := if oversize then Write(l, None) else l;
    var offset := |PartBytes(kept.disk)|;
    var reply := Open(env.first, 0).reply;
    if offset > 0 && reply.status in {200, 416} {
      assert content[0..] == content;
      TransferAll(p, hash, content, Write(kept, None), 0, Open(env.again, 0).reply, env);
    } else {
      assert content[0..] == content;
      TransferAll(p, hash, content, kept, offset, reply, env);
    }
  }

  /** From any leftover part file two uninterrupted attempts are enough. */
  lemma TwoAttempts(p: Policy, hash: Bytes -> string, content: Bytes, d: Disk, one: Environment, two: Environment)
    requires Describes(p, hash, content)
    requires HonestServer(content, Offset(p, d), one)
    requires var d' := NextDisk(p, hash, d, Returned(one)); HonestServer(content, Offset(p, d'), two)
    ensures History(p, hash, d, [Returned(one), Returned(two)]) == Disk(None, Some(content))
  {
    var l := Log(d, [d], []);
    OneAttempt(p, hash, content, l, one);
    var d' := Attempt(p, hash, l, one).0.disk;
    OneAttempt(p, hash, content, Log(d', [d'], []), two);
    var steps := [Returned(one), Returned(two)];
    assert steps[1..] == [Returned(two)] && [Returned(two)][1..] == [];
    assert History(p, hash, d', [Returned(two)]) == History(p, hash, NextDisk(p, hash, d', Returned(two)), []);
  }

  /** Every attempt of the history met a truthful server. */
  predicate TruthfulHistory(p: Policy, hash: Bytes -> string, content: Bytes, d: Disk, steps: seq<Step>)
    decreases |steps|
  {
    steps != [] ==>
      && TruthfulServer(content, Offset(p, d), steps[0].env)
      && TruthfulHistory(p, hash, content, NextDisk(p, hash, d, steps[0]), steps[1..])
  }

  lemma StepKeepsPrefix(p: Policy, hash: Bytes -> string, content: Bytes, d: Disk, step: Step)
    requires Concrete(p) && PartBytes(d) <= content && TruthfulServer(content, Offset(p, d), step.env)
    ensures PartBytes(NextDisk(p, hash, d, step)) <= content
  {
    AttemptEnds(p, hash, Log(d, [d], []), step.env, Some(content));
  }

  /** Interrupted, cancelled and crashed transfers from a truthful server leave a prefix
      of the content, so the first uninterrupted attempt that follows succeeds. */
  lemma {:induction false} PrefixIsEnough(p: Policy, hash: Bytes -> string, content: Bytes, d: Disk, steps: seq<Step>,
                                          last: Environment)
    requires Describes(p, hash, content) && PartBytes(d) <= content
    requires TruthfulHistory(p, hash, content, d, steps)
    requires HonestServer(content, Offset(p, History(p, hash, d, steps)), last)
    ensures PartBytes(History(p, hash, d, steps)) <= content
    ensures NextDisk(p, hash, History(p, hash, d, steps), Returned(last)) == Disk(None, Some(content))
    decreases |steps|
  {
    if steps == [] {
      OneAttempt(p, hash, content, Log(d, [d], []), last);
    } else {
      StepKeepsPrefix(p, hash, content, d, steps[0]);
      PrefixIsEnough(p, hash, content, NextDisk(p, hash, d, steps[0]), steps[1..], last);
    }
  }

  // ---------------------------------------------------------------- progress

  /** The part file's size after each write that is reported. */
  function Sizes(size: nat, max: nat, body: seq<Event>): seq<nat>
    decreases |body|
  {
    if body == [] || body[0].Breaks? || body[0].cancelled || size + |body[0].data| > max
       || (body[0].stored.Some? && body[0].stored.value < |body[0].data|)
    then []
    else [size + |body[0].data|] + Sizes(size + |body[0].data|, max, body[1..])
  }

  /** One turn's value. */
  function Share(size: nat, total: int): real
    requires total != 0
  {
    var share := size as real / total as real;
    if share <= 1.0 then share else 1.0
  }

  /** The values are non-decreasing and lie between 0 and 1. */
  predicate Steady(values: seq<real>) {
    && (forall i :: 0 <= i < |values| ==> 0.0 <= values[i] <= 1.0)
    && (forall i, j :: 0 <= i < j < |values| ==> values[i] <= values[j])
  }

  function Reported(before: Log, after: Log): seq<real>
    requires before.progress <= after.progress
  {
    after.progress[|before.progress|..]
  }

  lemma ShareGrows(a: nat, b: nat, total: int)
    requires a <= b && total > 0
    ensures 0.0 <= Share(a, total) <= Share(b, total) <= 1.0
  {
    assert a as real / total as real <= b as real / total as real;
  }

  lemma {:induction false} SizesGrow(size: nat, max: nat, body: seq<Event>)
    ensures forall i :: 0 <= i < |Sizes(size, max, body)| ==> size <= Sizes(size, max, body)[i]
    ensures forall i, j :: 0 <= i < j < |Sizes(size, max, body)| ==>
      Sizes(size, max, body)[i] <= Sizes(size, max, body)[j]
    decreases |body|
  {
    if Sizes(size, max, body) != [] {
      SizesGrow(size + |body[0].data|, max, body[1..]);
    }
  }

  /** What the callback is told of these sizes; nothing when the total is unknown. */
  function Shares(sizes: seq<nat>, total: int): seq<real> {
    if total == 0 || sizes == [] then [] else [Share(sizes[0], total)] + Shares(sizes[1..], total)
  }

  lemma {:induction false} SharesAt(sizes: seq<nat>, total: int)
    requires total != 0
    ensures |Shares(sizes, total)| == |sizes|
    ensures forall i :: 0 <= i < |sizes| ==> Shares(sizes, total)[i] == Share(sizes[i], total)
  {
    if sizes != [] {
      SharesAt(sizes[1..], total);
    }
  }

  /** The callback is told the share of each reported size, if a total is known. */
  lemma {:induction false} ReceiveReports(l: Log, total: int, max: nat, body: seq<Event>)
    ensures Receive(l, total, max, body).0.progress
         == l.progress + Shares(Sizes(|PartBytes(l.disk)|, max, body), total)
    decreases |body|
  {
    var size := |PartBytes(l.disk)|;
    var sizes := Sizes(size, max, body);
    if sizes == [] {
      assert l.progress + [] == l.progress;
    } else {
      var next := PartBytes(l.disk) + body[0].data;
      var m := Report(Write(l, Some(next)), |next|, total);
      ReceiveReports(m, total, max, body[1..]);
      if total == 0 {
        assert l.progress + [] == l.progress;
      } else {
        assert m.progress == l.progress + [Share(|next|, total)];
        Sequences.Regroup(l.progress, Share(|next|, total), Shares(sizes[1..], total));
      }
    }
  }

  /** Progress is steady exactly when the total is not negative or nothing is ever counted. */
  lemma ProgressIsSteadyIff(l: Log, total: int, max: nat, body: seq<Event>)
    ensures var l', sizes := Receive(l, total, max, body).0, Sizes(|PartBytes(l.disk)|, max, body);
      && l.progress <= l'.progress
      && (Steady(Reported(l, l')) <==> total >= 0 || forall i :: 0 <= i < |sizes| ==> sizes[i] == 0)
  {
    var l', sizes := Receive(l, total, max, body).0, Sizes(|PartBytes(l.disk)|, max, body);
    ReceiveReports(l, total, max, body);
    SizesGrow(|PartBytes(l.disk)|, max, body);
    var values := Reported(l, l');
    assert values == Shares(sizes, total);
    if total != 0 {
      SharesAt(sizes, total);
    }
    if total > 0 {
      forall i, j | 0 <= i <= j < |values| ensures 0.0 <= values[i] <= values[j] <= 1.0 {
        ShareGrows(sizes[i], sizes[j], total);
      }
    } else if total < 0 {
      forall i | 0 <= i < |values| ensures values[i] < 0.0 <==> sizes[i] > 0 {
        NegativeShare(sizes[i], total);
      }
      forall i | 0 <= i < |values| && sizes[i] == 0 ensures values[i] == 0.0 {
        NegativeShare(sizes[i], total);
      }
    }
  }

  lemma NegativeShare(size: nat, total: int)
    requires total < 0
    ensures Share(size, total) < 0.0 <==> size > 0
    ensures size == 0 ==> Share(size, total) == 0.0
  {
    if size > 0 {
      assert size as real / total as real < 0.0;
    } else {
      assert 0.0 / total as real == 0.0;
    }
  }

  /** The shares of an uninterrupted body that fits. */
  lemma {:induction false} SizesOfAll(size: nat, max: nat, body: seq<Event>)
    requires Uninterrupted(body) && size + |Stream(body)| <= max
    ensures |Sizes(size, max, body)| == |body|
    ensures forall i :: 0 <= i < |body| ==> Sizes(size, max, body)[i] == size + |Stream(body[..i + 1])|
    decreases |body|
  {
    if body != [] {
      var next := size + |body[0].data|;
      SizesOfAll(next, max, body[1..]);
      forall i | 0 <= i < |body| ensures Sizes(size, max, body)[i] == size + |Stream(body[..i + 1])| {
        StreamFirst(body, i);
        if i > 0 {
          var j := i - 1;
          assert Sizes(size, max, body)[i] == Sizes(next, max, body[1..])[j];
          assert Sizes(next, max, body[1..])[j] == next + |Stream(body[1..][..j + 1])|;
        }
      }
    }
  }

  /** What the callback is told during a transfer. */
  lemma TransferReports(p: Policy, hash: Bytes -> string, l: Log, offset: nat, reply: Reply, env: Environment)
    requires Begins(p, offset, reply) && (offset > 0 ==> |PartBytes(l.disk)| == offset)
    ensures Transfer(p, hash, l, offset, reply, env).0.progress ==
      l.progress + Shares(Sizes(offset, p.maxBytes, reply.body), Total(p, offset, reply))
  {
    ReceiveReports(if offset > 0 then l else Write(l, Some([])), Total(p, offset, reply), p.maxBytes, reply.body);
  }

  /** When neither the server nor the policy states a size, nothing is reported. */
  lemma UnknownSizeIsNotReported(p: Policy, hash: Bytes -> string, l: Log, offset: nat, reply: Reply, env: Environment)
    requires reply.contentLength in {None, Some(0)} && p.expectedSize in {None, Some(0)}
    requires offset > 0 ==> |PartBytes(l.disk)| == offset
    ensures Transfer(p, hash, l, offset, reply, env).0.progress == l.progress
  {
    if Begins(p, offset, reply) {
      TransferReports(p, hash, l, offset, reply, env);
    }
  }

  /** The shares of an uninterrupted body that fits, of a total that it does not exceed. */
  lemma SharesOfAll(size: nat, total: nat, max: nat, body: seq<Event>)
    requires Uninterrupted(body) && size + |Stream(body)| <= max && total > 0
    requires forall i :: 0 <= i < |Sizes(size, max, body)| ==> Sizes(size, max, body)[i] <= total
    ensures var told := Shares(Sizes(size, max, body), total);
      && |told| == |body|
      && (forall i :: 0 <= i < |body| ==> told[i] == Fraction(size + |Stream(body[..i + 1])|, total))
  {
    var sizes := Sizes(size, max, body);
    SizesOfAll(size, max, body);
    SharesAt(sizes, total);
    forall i | 0 <= i < |body| ensures Share(sizes[i], total) == Fraction(sizes[i], total) {
      ShareOfPart(sizes[i], total);
    }
  }

  lemma SizesFit(size: nat, max: nat, body: seq<Event>)
    requires Uninterrupted(body) && size + |Stream(body)| <= max
    ensures forall i :: 0 <= i < |Sizes(size, max, body)| ==> Sizes(size, max, body)[i] <= size + |Stream(body)|
  {
    SizesOfAll(size, max, body);
    forall i | 0 <= i < |body| ensures Sizes(size, max, body)[i] <= size + |Stream(body)| {
      StreamGrows(body, i + 1);
    }
  }

  lemma WhatIsReported(l: Log, after: Log, told: seq<real>)
    requires after.progress == l.progress + told
    ensures l.progress <= after.progress && Reported(l, after) == told
  {
  }

  /** Against an honest server, resumed or not, the callback is told after each chunk which
      share of the whole content the part file holds, and at the end that it is all there:
      the total is the part continued and the announced rest, or else the expected size. */
  lemma ProgressIsShare(p: Policy, hash: Bytes -> string, content: Bytes, l: Log, offset: nat, reply: Reply,
                        env: Environment)
    requires offset <= |content| <= p.maxBytes && content != [] && (offset > 0 ==> |PartBytes(l.disk)| == offset)
    requires Delivers(content[offset..], reply)
    requires if reply.contentLength in {None, Some(0)} then p.expectedSize == Some(|content|)
             else reply.contentLength == Some(|content| - offset)
    ensures var after, body := Transfer(p, hash, l, offset, reply, env).0, reply.body;
      && l.progress <= after.progress && |Reported(l, after)| == |body|
      && (forall i :: 0 <= i < |body| ==>
          Reported(l, after)[i] == Fraction(offset + |Stream(body[..i + 1])|, |content|))
      && (body != [] ==> Reported(l, after)[|body| - 1] == 1.0)
  {
    TransferReports(p, hash, l, offset, reply, env);
    assert Total(p, offset, reply) == |content|;
    SizesFit(offset, p.maxBytes, reply.body);
    SharesOfAll(offset, |content|, p.maxBytes, reply.body);
    assert reply.body[..|reply.body|] == reply.body;
    ShareOfPart(|content|, |content|);
    var after := Transfer(p, hash, l, offset, reply, env).0;
    WhatIsReported(l, after, Shares(Sizes(offset, p.maxBytes, reply.body), |content|));
  }

  function Fraction(part: nat, whole: nat): real
    requires whole > 0
  {
    part as real / whole as real
  }

  lemma ShareOfPart(size: nat, total: nat)
    requires size <= total && total > 0
    ensures Share(size, total) == Fraction(size, total)
    ensures size == total ==> Share(size, total) == 1.0
  {
    assert size as real / total as real <= 1.0;
  }

  lemma {:induction false} StreamGrows(body: seq<Event>, k: nat)
    requires k <= |body|
    ensures |Stream(body[..k])| <= |Stream(body)|
    decreases |body|
  {
    if k > 0 {
      assert body[..k][1..] == body[1..][..k - 1];
      StreamGrows(body[1..], k - 1);
    }
  }

  /** A negative Content-Length, which `_safe_size` accepts, makes the shares negative. */
  lemma NegativeLengthIsReported()
    ensures var reply := Reply(200, Some(-5), [Arrives([7, 7], false, None)], true, true);
      var l := Log(Disk(None, None), [], []);
      var total := Total(Policy([], 100, None), 0, reply);
      Receive(Write(l, Some([])), total, 100, reply.body).0.progress == [-0.4]
  {
    var reply := Reply(200, Some(-5), [Arrives([7, 7], false, None)], true, true);
    var l := Write(Log(Disk(None, None), [], []), Some([]));
    var next := Report(Write(l, Some([] + [7, 7])), 2, -5);
    assert Receive(next, -5, 100, reply.body[1..]).0 == next;
    assert |[] + reply.body[0].data| == 2;
    assert 2.0 / -5.0 == -0.4;
  }

  predicate NoNegativeLength(answer: Opened) {
    answer.Answer? ==> Announced(answer.reply) >= 0
  }

  /** Over a whole attempt: without negative lengths progress is steady. */
  lemma AttemptProgress(p: Policy, hash: Bytes -> string, l: Log, env: Environment)
    requires NoNegativeLength(Open(env.first, 0)) && NoNegativeLength(Open(env.again, 0))
    ensures var l' := Attempt(p, hash, l, env).0;
      l.progress <= l'.progress && Steady(Reported(l, l'))
  {
    if Concrete(p) && !env.cancelled && Open(env.first, 0).Answer? {
      var kept := if |PartBytes(l.disk)| > p.maxBytes then Write(l, None) else l;
      var reply, offset := Open(env.first, 0).reply, |PartBytes(kept.disk)|;
      if offset > 0 && reply.status in {200, 416} {
        if Open(env.again, 0).Answer? {
          TransferProgress(p, hash, Write(kept, None), 0, Open(env.again, 0).reply, env);
        }
      } else {
        TransferProgress(p, hash, kept, offset, reply, env);
      }
    }
  }

  lemma TransferProgress(p: Policy, hash: Bytes -> string, l: Log, offset: nat, reply: Reply, env: Environment)
    requires Concrete(p) && Announced(reply) >= 0
    ensures var l' := Transfer(p, hash, l, offset, reply, env).0;
      l.progress <= l'.progress && Steady(Reported(l, l'))
  {
    var begun := if offset > 0 then l else Write(l, Some([]));
    ProgressIsSteadyIff(begun, Total(p, offset, reply), p.maxBytes, reply.body);
  }
}

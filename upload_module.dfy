/** AsyncFileUploadModule: decides whether a request is a tracked upload,
    and if so publishes the upload's progress while it reads the request
    body in chunks of at most 4096 bytes. */
module AsyncFileUploadModule {
  import Wrappers
  import opened Int32
  import opened OrdinalText
  import opened ProgressDetails
  import opened RequestBody
  import opened UploadService

  const BufferSize: int := 1024 * 4
  /** Smaller requests are left to normal request processing. */
  const MinimumContentLength: int := 4096

  /** How much of the body the host pipeline has already consumed. */
  datatype ReadEntityBodyMode = None | Classic | Bufferless | Buffered

  /** What the module reads of the incoming request. */
  datatype HttpRequest = HttpRequest(
    httpMethod: string,
    contentType: string,
    contentLength: int32,
    readEntityBodyMode: ReadEntityBodyMode)

  /** `context.User.Identity`; a name of None stands for null. */
  datatype Identity = Identity(isAuthenticated: bool, name: Wrappers.Option<string>)

  predicate HasBoundary(contentType: string)
  {
    exists i :: 0 <= i <= |contentType| && OccursAt(contentType, "boundary=", i)
  }

  /** A request is tracked only when all four tests pass; any one failing
      test makes it ineligible. */
  function IsAsyncUploadRequest(request: HttpRequest): (eligible: bool)
    ensures eligible <==>
      && EqualsIgnoreCase(request.httpMethod, "POST")
      && StartsWithIgnoreCase(request.contentType, "multipart/form-data")
      && HasBoundary(request.contentType)
      && request.contentLength >= MinimumContentLength
  {
    if !EqualsIgnoreCase(request.httpMethod, "POST") then false
    else if !StartsWithIgnoreCase(request.contentType, "multipart/form-data") then false
    else if IndexOfIgnoreCase(request.contentType, "boundary=") < 0 then false
    else if request.contentLength < 4096 then false
    else true
  }

  /** "--" followed by everything after the first occurrence of "boundary="
      (in any case) in the content type. */
  function Boundary(contentType: string): (boundary: string)
    requires HasBoundary(contentType)
    ensures exists i ::
      && OccursAt(contentType, "boundary=", i)
      && (forall j :: 0 <= j < i ==> !OccursAt(contentType, "boundary=", j))
      && boundary == "--" + contentType[i + 9..]
  {
    var boundaryIndex := IndexOfIgnoreCase(contentType, "boundary=");
    assert boundaryIndex != -1;
    assert |"boundary="| == 9;
    "--" + contentType[boundaryIndex + 9..]
  }

  /** The request gets progress tracking: eligible, authenticated, and with
      a user name that is neither null nor empty. */
  predicate Tracked(request: HttpRequest, user: Identity)
  {
    IsAsyncUploadRequest(request) && user.isAuthenticated && user.name.Some? && user.name.value != ""
  }

  /** The state the `ReadStream` loop carries from one pass to the next:
      the last record, what the parser has been fed, what the stream still
      holds and how it will hand it over. */
  datatype Cursor = Cursor(progress: Details, fed: seq<byte>, rest: seq<byte>, caps: seq<nat>)

  /** What one pass from `prev` to `cur` does: it takes at most
      `min(BytesRemaining, 4096)` bytes off the front of the stream and feeds
      them to the parser. A non-empty read advances BytesRead by its length
      and takes the parser's name after every byte fed so far; an empty read
      completes the record and keeps the previous name. */
  predicate PassStep(prev: Cursor, cur: Cursor, boundary: string, scan: (string, seq<byte>) -> string)
  {
    && cur.fed + cur.rest == prev.fed + prev.rest
    && |prev.fed| <= |cur.fed| <= |prev.fed| + Min(BytesRemaining(prev.progress), BufferSize)
    && cur.progress.TotalBytes == prev.progress.TotalBytes
    && (|cur.fed| > |prev.fed| ==>
          && cur.progress.BytesRead == prev.progress.BytesRead + (|cur.fed| - |prev.fed|)
          && cur.progress.FileName == scan(boundary, cur.fed))
    && (|cur.fed| == |prev.fed| ==>
          && cur.progress.BytesRead == cur.progress.TotalBytes
          && cur.progress.FileName == prev.progress.FileName)
  }

  /** One pass of the loop, which is a `PassStep` that keeps the record well
      formed and strictly advances BytesRead. */
  function Next(c: Cursor, boundary: string, scan: (string, seq<byte>) -> string): (d: Cursor)
    requires WellFormed(c.progress) && BytesRemaining(c.progress) > 0
    ensures PassStep(c, d, boundary, scan)
    ensures WellFormed(d.progress) && c.progress.BytesRead < d.progress.BytesRead
  {
    var n := ReadLength(c.rest, c.caps, Min(BytesRemaining(c.progress), BufferSize));
    var progress := Details(
      c.progress.TotalBytes,
      if n == 0 then c.progress.TotalBytes else c.progress.BytesRead + n,
      if n > 0 then scan(boundary, c.fed + c.rest[..n]) else c.progress.FileName);
    assert c.fed + c.rest[..n] + c.rest[n..] == c.fed + c.rest;
    Cursor(progress, c.fed + c.rest[..n], c.rest[n..], NextCaps(c.caps))
  }

  /** The records the loop publishes from `c` on, in order. Each keeps the
      total and has read more than `c`, never more than the total; there is
      at least one exactly when bytes remain, and the last has read the whole
      declared total, even when the stream ended early. */
  function Steps(c: Cursor, boundary: string, scan: (string, seq<byte>) -> string): (s: seq<Details>)
    requires WellFormed(c.progress)
    ensures forall i :: 0 <= i < |s| ==>
      && s[i].TotalBytes == c.progress.TotalBytes
      && c.progress.BytesRead < s[i].BytesRead <= c.progress.TotalBytes
    ensures s != [] <==> c.progress.BytesRead < c.progress.TotalBytes
    ensures s != [] ==> s[|s| - 1].BytesRead == c.progress.TotalBytes
    decreases c.progress.TotalBytes - c.progress.BytesRead
  {
    if BytesRemaining(c.progress) > 0 then
      var d := Next(c, boundary, scan);
      [d.progress] + Steps(d, boundary, scan)
    else
      []
  }

  function BytesReadOf(records: seq<Details>): (s: seq<int>)
    ensures |s| == |records|
    ensures forall i :: 0 <= i < |s| ==> s[i] == records[i].BytesRead
  {
    seq(|records|, i requires 0 <= i < |records| => records[i].BytesRead)
  }

  lemma BytesReadOfPrepend(x: Details, records: seq<Details>)
    ensures BytesReadOf([x] + records) == [x.BytesRead] + BytesReadOf(records)
  {
    var s, t := BytesReadOf([x] + records), [x.BytesRead] + BytesReadOf(records);
    assert |s| == |t|;
    forall i | 0 <= i < |s|
      ensures s[i] == t[i]
    {
      if i > 0 {
        assert ([x] + records)[i] == records[i - 1];
      }
    }
  }

  /** Successive BytesRead values strictly increase. */
  predicate StrictlyIncreasing(records: seq<Details>)
  {
    forall i, j :: 0 <= i < j < |records| ==> records[i].BytesRead < records[j].BytesRead
  }

  /** The records the loop publishes have strictly increasing BytesRead. */
  lemma {:induction false} StepsIncrease(c: Cursor, boundary: string, scan: (string, seq<byte>) -> string)
    requires WellFormed(c.progress)
    ensures StrictlyIncreasing(Steps(c, boundary, scan))
    decreases c.progress.TotalBytes - c.progress.BytesRead
  {
    if BytesRemaining(c.progress) > 0 {
      var d := Next(c, boundary, scan);
      var s, t := Steps(c, boundary, scan), Steps(d, boundary, scan);
      assert s == [d.progress] + t;
      StepsIncrease(d, boundary, scan);
      forall i, j | 0 <= i < j < |s|
        ensures s[i].BytesRead < s[j].BytesRead
      {
        assert s[j] == t[j - 1];
        if i > 0 {
          assert s[i] == t[i - 1];
        }
      }
    }
  }

  /** The cursors the loop passes through from `c` on, one per pass; their
      records are the ones `Steps` publishes (`TraceSteps`). */
  function Trace(c: Cursor, boundary: string, scan: (string, seq<byte>) -> string): (t: seq<Cursor>)
    requires WellFormed(c.progress)
    ensures forall i :: 0 <= i < |t| ==> WellFormed(t[i].progress)
    decreases c.progress.TotalBytes - c.progress.BytesRead
  {
    if BytesRemaining(c.progress) > 0 then
      var d := Next(c, boundary, scan);
      [d] + Trace(d, boundary, scan)
    else
      []
  }

  lemma {:induction false} TraceSteps(c: Cursor, boundary: string, scan: (string, seq<byte>) -> string)
    requires WellFormed(c.progress)
    ensures |Trace(c, boundary, scan)| == |Steps(c, boundary, scan)|
    ensures forall i :: 0 <= i < |Trace(c, boundary, scan)| ==> Trace(c, boundary, scan)[i].progress == Steps(c, boundary, scan)[i]
    decreases c.progress.TotalBytes - c.progress.BytesRead
  {
    if BytesRemaining(c.progress) > 0 {
      var d := Next(c, boundary, scan);
      var t, s := Trace(c, boundary, scan), Steps(c, boundary, scan);
      var u, v := Trace(d, boundary, scan), Steps(d, boundary, scan);
      assert t == [d] + u && s == [d.progress] + v;
      TraceSteps(d, boundary, scan);
      forall i | 0 <= i < |t|
        ensures t[i].progress == s[i]
      {
        if i > 0 {
          assert t[i] == u[i - 1] && s[i] == v[i - 1];
        }
      }
    }
  }

  /** Every cursor of `t` is a `PassStep` from the one before it (`c` before
      the first); the parser is always fed a prefix of what `c`'s stream
      held; and only the last pass may read nothing, so a record keeps the
      previous file name only when it is the last one and its read was
      empty. */
  predicate Passes(c: Cursor, t: seq<Cursor>, boundary: string, scan: (string, seq<byte>) -> string)
  {
    && (forall i :: 0 <= i < |t| ==> PassStep(Before(c, t, i), t[i], boundary, scan))
    && (forall i :: 0 <= i < |t| ==> t[i].fed + t[i].rest == c.fed + c.rest)
    && (forall i :: 0 <= i < |t| - 1 ==> |Before(c, t, i).fed| < |t[i].fed|)
  }

  /** The cursor before the `i`-th of `t`, which starts from `c`. */
  function Before(c: Cursor, t: seq<Cursor>, i: nat): Cursor
    requires i < |t|
  {
    if i == 0 then c else t[i - 1]
  }

  /** The cursors the loop passes through satisfy `Passes`. */
  lemma {:induction false} TracePasses(c: Cursor, boundary: string, scan: (string, seq<byte>) -> string)
    requires WellFormed(c.progress)
    ensures Passes(c, Trace(c, boundary, scan), boundary, scan)
    decreases c.progress.TotalBytes - c.progress.BytesRead
  {
    if BytesRemaining(c.progress) > 0 {
      var d := Next(c, boundary, scan);
      var t, u := Trace(c, boundary, scan), Trace(d, boundary, scan);
      assert t == [d] + u;
      TracePasses(d, boundary, scan);
      if |d.fed| == |c.fed| {
        assert u == [];
      }
      forall i | 0 <= i < |t|
        ensures PassStep(Before(c, t, i), t[i], boundary, scan) && t[i].fed + t[i].rest == c.fed + c.rest
        ensures i < |t| - 1 ==> |Before(c, t, i).fed| < |t[i].fed|
      {
        if i > 0 {
          assert t[i] == u[i - 1] && Before(c, t, i) == Before(d, u, i - 1);
        }
      }
    }
  }

  /** The loop never reads more than one buffer per pass: every record but
      the last has read between 1 and 4096 bytes more than the one before
      it. */
  lemma TraceChunks(c: Cursor, boundary: string, scan: (string, seq<byte>) -> string)
    requires WellFormed(c.progress)
    ensures var t := Trace(c, boundary, scan);
      forall i :: 0 <= i < |t| - 1 ==>
        0 < t[i].progress.BytesRead - Before(c, t, i).progress.BytesRead <= BufferSize
  {
    var t := Trace(c, boundary, scan);
    TracePasses(c, boundary, scan);
    forall i | 0 <= i < |t| - 1
      ensures 0 < t[i].progress.BytesRead - Before(c, t, i).progress.BytesRead <= BufferSize
    {
      assert PassStep(Before(c, t, i), t[i], boundary, scan);
      assert |Before(c, t, i).fed| < |t[i].fed|;
    }
  }

  /** The cursor the loop stops at: the parser has been fed a prefix of the
      stream of at most BytesRemaining bytes, the stream holds the rest, and
      the record has read the whole total. */
  function Final(c: Cursor, boundary: string, scan: (string, seq<byte>) -> string): (f: Cursor)
    requires WellFormed(c.progress)
    ensures f.fed + f.rest == c.fed + c.rest
    ensures |c.fed| <= |f.fed| <= |c.fed| + BytesRemaining(c.progress)
    ensures f.progress.TotalBytes == c.progress.TotalBytes == f.progress.BytesRead
    decreases c.progress.TotalBytes - c.progress.BytesRead
  {
    if BytesRemaining(c.progress) > 0 then Final(Next(c, boundary, scan), boundary, scan) else c
  }

  /** The loop stops at the last cursor it passes through, or where it
      started when no bytes remain. */
  lemma {:induction false} FinalLast(c: Cursor, boundary: string, scan: (string, seq<byte>) -> string)
    requires WellFormed(c.progress)
    ensures var t := Trace(c, boundary, scan);
      Final(c, boundary, scan) == if t == [] then c else t[|t| - 1]
    decreases c.progress.TotalBytes - c.progress.BytesRead
  {
    if BytesRemaining(c.progress) > 0 {
      var d := Next(c, boundary, scan);
      assert Trace(c, boundary, scan) == [d] + Trace(d, boundary, scan);
      FinalLast(d, boundary, scan);
    }
  }

  /** On a record with a positive total the published percentages stay
      within 0..100, never go down, and the last one is 100. */
  lemma StepsPercent(c: Cursor, boundary: string, scan: (string, seq<byte>) -> string)
    requires WellFormed(c.progress) && c.progress.TotalBytes > 0
    ensures var s := Steps(c, boundary, scan);
      && (forall i :: 0 <= i < |s| ==> s[i].TotalBytes > 0 && 0 <= Progress(s[i]) <= 100)
      && (forall i, j :: 0 <= i < j < |s| ==> Progress(s[i]) <= Progress(s[j]))
      && (s != [] ==> Progress(s[|s| - 1]) == 100)
  {
    var s := Steps(c, boundary, scan);
    StepsIncrease(c, boundary, scan);
    forall i, j | 0 <= i < j < |s|
      ensures Progress(s[i]) <= Progress(s[j])
    {
      ProgressMonotone(s[i], s[j]);
    }
  }

  /** The BytesRead values the loop publishes when every read returns as
      many bytes as were asked for and are left: reading from `read` of
      `total` with `available` body bytes left, each step asks for
      `min(total - read, 4096)`, and a zero-byte read jumps to `total`. */
  function UncappedSchedule(read: int, total: int, available: nat): seq<int>
    requires read <= total
    decreases total - read
  {
    if read == total then []
    else
      var n := Min(Min(total - read, BufferSize), available);
      var next := if n == 0 then total else read + n;
      [next] + UncappedSchedule(next, total, available - n)
  }

  /** One step of a stream that never splits reads: it reads
      `min(BytesRemaining, 4096, bytes left)`, and a zero-byte read completes
      the record. */
  lemma UncappedRead(c: Cursor, boundary: string, scan: (string, seq<byte>) -> string)
    requires WellFormed(c.progress) && BytesRemaining(c.progress) > 0 && c.caps == []
    ensures var n := Min(Min(c.progress.TotalBytes - c.progress.BytesRead, BufferSize), |c.rest|);
      var d := Next(c, boundary, scan);
      && d.caps == []
      && |d.rest| == |c.rest| - n
      && d.progress.BytesRead == (if n == 0 then c.progress.TotalBytes else c.progress.BytesRead + n)
  {
  }

  /** With a stream that never splits reads, the loop publishes exactly the
      BytesRead values of `UncappedSchedule`. */
  lemma {:induction false} UncappedSteps(c: Cursor, boundary: string, scan: (string, seq<byte>) -> string)
    requires WellFormed(c.progress) && c.caps == []
    ensures BytesReadOf(Steps(c, boundary, scan))
         == UncappedSchedule(c.progress.BytesRead, c.progress.TotalBytes, |c.rest|)
    decreases c.progress.TotalBytes - c.progress.BytesRead
  {
    if BytesRemaining(c.progress) > 0 {
      var d := Next(c, boundary, scan);
      var t := Steps(d, boundary, scan);
      assert UncappedSchedule(c.progress.BytesRead, c.progress.TotalBytes, |c.rest|)
          == [d.progress.BytesRead] + UncappedSchedule(d.progress.BytesRead, d.progress.TotalBytes, |d.rest|) by {
        UncappedRead(c, boundary, scan);
      }
      assert Steps(c, boundary, scan) == [d.progress] + t;
      UncappedSteps(d, boundary, scan);
      BytesReadOfPrepend(d.progress, t);
    }
  }

  /** When the body holds every declared byte, the schedule is whole
      buffers until a short final one: the `k`-th value is
      `min(total, read + 4096 * (k + 1))`, every value before the last is
      below the total and the last is the total. */
  lemma {:induction false} FullBodySchedule(read: int, total: int, available: nat)
    requires read <= total <= read + available
    ensures UncappedSchedule(read, total, available) == [] <==> read == total
    ensures forall k :: 0 <= k < |UncappedSchedule(read, total, available)| ==>
      UncappedSchedule(read, total, available)[k] == Min(total, read + BufferSize * (k + 1))
    ensures forall k :: 0 <= k < |UncappedSchedule(read, total, available)| - 1 ==>
      UncappedSchedule(read, total, available)[k] < total
    ensures UncappedSchedule(read, total, available) != [] ==>
      UncappedSchedule(read, total, available)[|UncappedSchedule(read, total, available)| - 1] == total
    decreases total - read
  {
    if read < total {
      var n := Min(Min(total - read, BufferSize), available);
      var next := read + n;
      var s, u := UncappedSchedule(read, total, available), UncappedSchedule(next, total, available - n);
      assert s == [next] + u;
      FullBodySchedule(next, total, available - n);
      assert u != [] ==> n == BufferSize;
      forall k | 0 <= k < |s|
        ensures s[k] == Min(total, read + BufferSize * (k + 1))
        ensures k < |s| - 1 ==> s[k] < total
      {
        if k > 0 {
          assert s[k] == u[k - 1];
        }
      }
    }
  }

  /** A 10000-byte upload whose stream always fills the requested count is
      published as 4096, 8192, 10000 bytes read. */
  lemma FullReadsOfTenThousandBytes(body: seq<byte>, scan: (string, seq<byte>) -> string)
    requires |body| >= 10000
    ensures BytesReadOf(Steps(Cursor(Details(10000, 0, ""), [], body, []), "", scan)) == [4096, 8192, 10000]
  {
    UncappedSteps(Cursor(Details(10000, 0, ""), [], body, []), "", scan);
    FullSchedule(|body|);
  }

  lemma FullSchedule(n: nat)
    requires n >= 10000
    ensures UncappedSchedule(0, 10000, n) == [4096, 8192, 10000]
  {
    assert UncappedSchedule(8192, 10000, n - 8192) == [10000] + UncappedSchedule(10000, 10000, n - 10000);
    assert UncappedSchedule(4096, 10000, n - 4096) == [8192] + UncappedSchedule(8192, 10000, n - 8192);
    assert UncappedSchedule(0, 10000, n) == [4096] + UncappedSchedule(4096, 10000, n - 4096);
  }

  /** If the client stops after 5000 of 10000 declared bytes, the zero-byte
      read finalises the record: 4096, 5000, 10000 bytes read. */
  lemma EarlyEndOfTenThousandBytes(body: seq<byte>, scan: (string, seq<byte>) -> string)
    requires |body| == 5000
    ensures BytesReadOf(Steps(Cursor(Details(10000, 0, ""), [], body, []), "", scan)) == [4096, 5000, 10000]
  {
    UncappedSteps(Cursor(Details(10000, 0, ""), [], body, []), "", scan);
    EarlyEndSchedule();
  }

  lemma EarlyEndSchedule()
    ensures UncappedSchedule(0, 10000, 5000) == [4096, 5000, 10000]
  {
    assert UncappedSchedule(5000, 10000, 0) == [10000] + UncappedSchedule(10000, 10000, 0);
    assert UncappedSchedule(4096, 10000, 904) == [5000] + UncappedSchedule(5000, 10000, 0);
    assert UncappedSchedule(0, 10000, 5000) == [4096] + UncappedSchedule(4096, 10000, 904);
  }

  /** Everything `ReadUploadedFileStream` publishes for one request: nothing
      for an untracked request; otherwise the initial record, followed by
      the loop's records unless the body was already being read. */
  function Published(request: HttpRequest, user: Identity, body: seq<byte>, caps: seq<nat>,
                     scan: (string, seq<byte>) -> string): seq<Details>
  {
    if !Tracked(request, user) then []
    else
      var initial := Details(request.contentLength, 0, "");
      if request.readEntityBodyMode != None then [initial]
      else [initial] + Steps(Cursor(initial, [], body, caps), Boundary(request.contentType), scan)
  }

  /** Properties of the whole published sequence of one request. Every
      record has the declared length as its total, which is at least 4096,
      so its percentage is defined; BytesRead starts at 0 and strictly
      increases; and when the module reads the body the last record has read
      the whole total, which `Progress` reports as 100 percent. */
  lemma PublishedProgress(request: HttpRequest, user: Identity, body: seq<byte>, caps: seq<nat>,
                          scan: (string, seq<byte>) -> string)
    ensures var s := Published(request, user, body, caps, scan);
      && (s == [] <==> !Tracked(request, user))
      && (s != [] ==> s[0] == Details(request.contentLength, 0, ""))
      && (s != [] && request.readEntityBodyMode != None ==> |s| == 1)
      && (forall i :: 0 <= i < |s| ==>
            && s[i].TotalBytes == request.contentLength >= MinimumContentLength
            && WellFormed(s[i]))
      && (forall i, j :: 0 <= i < j < |s| ==> s[i].BytesRead < s[j].BytesRead)
      && (s != [] && request.readEntityBodyMode == None ==> s[|s| - 1].BytesRead == request.contentLength)
  {
    if Tracked(request, user) && request.readEntityBodyMode == None {
      var c := Cursor(Details(request.contentLength, 0, ""), [], body, caps);
      var boundary := Boundary(request.contentType);
      var t := Steps(c, boundary, scan);
      assert Published(request, user, body, caps, scan) == [c.progress] + t;
      assert && StrictlyIncreasing(t)
             && (forall i :: 0 <= i < |t| ==>
                   t[i].TotalBytes == c.progress.TotalBytes && 0 < t[i].BytesRead <= c.progress.TotalBytes)
             && (t != [] ==> t[|t| - 1].BytesRead == c.progress.TotalBytes) by {
        StepsIncrease(c, boundary, scan);
      }
      StartThenSteps(c.progress, t);
    }
  }

  /** The initial record followed by the loop's records keeps the total,
      stays well formed and strictly increases. */
  lemma StartThenSteps(start: Details, t: seq<Details>)
    requires start.BytesRead == 0 <= start.TotalBytes
    requires forall i :: 0 <= i < |t| ==> t[i].TotalBytes == start.TotalBytes && 0 < t[i].BytesRead <= start.TotalBytes
    requires StrictlyIncreasing(t)
    ensures forall i :: 0 <= i < |[start] + t| ==>
      ([start] + t)[i].TotalBytes == start.TotalBytes && WellFormed(([start] + t)[i])
    ensures StrictlyIncreasing([start] + t)
  {
    var s := [start] + t;
    forall i, j | 0 <= i < j < |s|
      ensures s[i].BytesRead < s[j].BytesRead
    {
      assert s[j] == t[j - 1];
      if i > 0 {
        assert s[i] == t[i - 1];
      }
    }
  }

  /** Sequence and map facts the loop's proof uses, each proved in a small
      context of its own rather than inside the loop body. */
  lemma AppendAssociative<T>(a: seq<T>, b: seq<T>, c: seq<T>)
    ensures a + (b + c) == (a + b) + c
  {
  }

  lemma UpdateTwice<K, V>(m: map<K, V>, k: K, u: V, v: V)
    ensures m[k := u][k := v] == m[k := v]
  {
  }

  /** `log` with `x` appended to the entry for `key` (an absent entry
      counts as empty). */
  function Appended<K, T>(log: map<K, seq<T>>, key: K, x: T): map<K, seq<T>>
  {
    log[key := (if key in log then log[key] else []) + [x]]
  }

  /** What the log holds after `done` was appended for `key` to `log0`,
      where `earlier` is the entry for `key` in `log0`. */
  function Republished<K, T>(log0: map<K, seq<T>>, key: K, earlier: seq<T>, done: seq<T>): map<K, seq<T>>
  {
    if done == [] then log0 else log0[key := earlier + done]
  }

  /** What the cache holds after the records `done` were stored under `key`
      in `cache0`: the last of them. */
  function Recached<K, V>(cache0: map<K, V>, key: K, done: seq<V>): map<K, V>
  {
    if done == [] then cache0 else cache0[key := done[|done| - 1]]
  }

  lemma RepublishedAppend<K, T>(log0: map<K, seq<T>>, key: K, earlier: seq<T>, done: seq<T>, x: T)
    requires earlier == if key in log0 then log0[key] else []
    ensures Appended(Republished(log0, key, earlier, done), key, x) == Republished(log0, key, earlier, done + [x])
  {
    if done == [] {
      assert done + [x] == [x];
    } else {
      var m := log0[key := earlier + done];
      assert key in m && m[key] == earlier + done;
      assert earlier + done + [x] == earlier + (done + [x]);
      assert m[key := earlier + done + [x]] == log0[key := earlier + (done + [x])];
    }
  }

  lemma RecachedAppend<K, V>(cache0: map<K, V>, key: K, done: seq<V>, x: V)
    ensures Recached(cache0, key, done)[key := x] == Recached(cache0, key, done + [x])
  {
  }

  /** One pass of the `ReadStream` loop: read at most
      `min(BytesRemaining, 4096)` bytes into the buffer, feed a non-empty
      read to the parser, build the next record and publish it under the
      user's key. */
  method ReadChunk(stream: BodyStream, parser: FileUploadRequestParser, buffer: array<byte>, current: Details,
                   userKey: string, uploadFileService: UploadFileService)
    returns (next: Details)
    requires WellFormed(current) && BytesRemaining(current) > 0 && buffer.Length == BufferSize
    modifies stream, parser, buffer, uploadFileService`cache, uploadFileService`published
    ensures Cursor(next, parser.fed, stream.rest, stream.caps)
         == Next(Cursor(current, old(parser.fed), old(stream.rest), old(stream.caps)), parser.boundary, parser.scan)
    ensures uploadFileService.cache == old(uploadFileService.cache)[CacheKey(userKey) := next]
    ensures uploadFileService.published == Appended(old(uploadFileService.published), userKey, next)
  {
    var bytesRead := stream.ReadAsync(buffer, Min(BytesRemaining(current), BufferSize));
    var newBytesRead := if bytesRead == 0 then current.TotalBytes else current.BytesRead + bytesRead;
    var newFileName := current.FileName;
    if bytesRead > 0 {
      parser.ParseNext(buffer, bytesRead);
      newFileName := parser.CurrentFileName();
    }
    next := Details(current.TotalBytes, newBytesRead, newFileName);
    uploadFileService.SetProgressDetails(userKey, next);
  }

  /** The `ReadStream` loop. While bytes remain it reads a chunk, publishes
      the new record under the user's key, and stops once a record has read
      the whole total. What it publishes is `Steps` of its starting state;
      the cache ends holding the last of those records. */
  method ReadStream(stream: BodyStream, userKey: string, progress: Details,
                    parser: FileUploadRequestParser, uploadFileService: UploadFileService)
    returns (r: int)
    requires WellFormed(progress)
    modifies stream, parser, uploadFileService`cache, uploadFileService`published
    ensures r == 0
    ensures var s := Steps(Cursor(progress, old(parser.fed), old(stream.rest), old(stream.caps)),
                           parser.boundary, parser.scan);
      && uploadFileService.published
           == Republished(old(uploadFileService.published), userKey, old(uploadFileService.PublishedFor(userKey)), s)
      && uploadFileService.cache == Recached(old(uploadFileService.cache), CacheKey(userKey), s)
    ensures var f := Final(Cursor(progress, old(parser.fed), old(stream.rest), old(stream.caps)),
                           parser.boundary, parser.scan);
      parser.fed == f.fed && stream.rest == f.rest && stream.caps == f.caps
    ensures parser.fed + stream.rest == old(parser.fed) + old(stream.rest)
    ensures |old(parser.fed)| <= |parser.fed| <= |old(parser.fed)| + BytesRemaining(progress)
  {
    var buffer := new byte[BufferSize];
    ghost var all := Steps(Cursor(progress, parser.fed, stream.rest, stream.caps), parser.boundary, parser.scan);
    ghost var final := Final(Cursor(progress, parser.fed, stream.rest, stream.caps), parser.boundary, parser.scan);
    ghost var cache0, published0 := uploadFileService.cache, uploadFileService.published;
    ghost var earlier := uploadFileService.PublishedFor(userKey);
    ghost var cacheKey := CacheKey(userKey);
    ghost var done: seq<Details> := [];
    var current := progress;
    while BytesRemaining(current) > 0
      invariant WellFormed(current)
      invariant all == done + Steps(Cursor(current, parser.fed, stream.rest, stream.caps), parser.boundary, parser.scan)
      invariant uploadFileService.cache == Recached(cache0, cacheKey, done)
      invariant uploadFileService.published == Republished(published0, userKey, earlier, done)
      invariant Final(Cursor(current, parser.fed, stream.rest, stream.caps), parser.boundary, parser.scan) == final
      decreases current.TotalBytes - current.BytesRead
    {
      ghost var before := Cursor(current, parser.fed, stream.rest, stream.caps);
      current := ReadChunk(stream, parser, buffer, current, userKey, uploadFileService);
      ghost var later := Steps(Cursor(current, parser.fed, stream.rest, stream.caps), parser.boundary, parser.scan);
      assert Steps(before, parser.boundary, parser.scan) == [current] + later;
      AppendAssociative(done, [current], later);
      RepublishedAppend(published0, userKey, earlier, done, current);
      RecachedAppend(cache0, cacheKey, done, current);
      done := done + [current];
    }
    assert Steps(Cursor(current, parser.fed, stream.rest, stream.caps), parser.boundary, parser.scan) == [];
    assert all == done + [] == done;
    r := 0;
  }

  /** `ReadUploadedFileStream`: the entry point for one request. An
      untracked request publishes nothing and leaves the body unread. */
  method ReadUploadedFileStream(request: HttpRequest, user: Identity, body: BodyStream,
                                scan: (string, seq<byte>) -> string, uploadFileService: UploadFileService)
    returns (r: int)
    modifies body, uploadFileService`cache, uploadFileService`published
    ensures r == 0
    ensures !Tracked(request, user) || request.readEntityBodyMode != None ==>
      body.rest == old(body.rest) && body.caps == old(body.caps)
    ensures Tracked(request, user) && request.readEntityBodyMode == None ==>
      var f := Final(Cursor(Details(request.contentLength, 0, ""), [], old(body.rest), old(body.caps)),
                     Boundary(request.contentType), scan);
      && body.rest == f.rest && body.caps == f.caps
      && old(body.rest) == f.fed + body.rest && |f.fed| <= request.contentLength
    ensures uploadFileService.published ==
      if !Tracked(request, user) then old(uploadFileService.published)
      else old(uploadFileService.published)[user.name.value :=
             old(uploadFileService.PublishedFor(user.name.value)) + Published(request, user, old(body.rest), old(body.caps), scan)]
    ensures uploadFileService.cache ==
      if !Tracked(request, user) then old(uploadFileService.cache)
      else var s := Published(request, user, old(body.rest), old(body.caps), scan);
        old(uploadFileService.cache)[CacheKey(user.name.value) := s[|s| - 1]]
  {
    if !IsAsyncUploadRequest(request) {
      return 0;
    }
    if !user.isAuthenticated {
      return 0;
    }
    if user.name.None? || user.name.value == "" {
      return 0;
    }
    var username := user.name.value;
    var boundary := Boundary(request.contentType);
    var requestParser := new FileUploadRequestParser(boundary, scan);
    var progress := Details(request.contentLength, 0, "");
    ghost var cache0, published0 := uploadFileService.cache, uploadFileService.published;
    ghost var earlier := uploadFileService.PublishedFor(username);
    uploadFileService.SetProgressDetails(username, progress);
    if request.readEntityBodyMode != None {
      return 0;
    }
    ghost var body0, caps0 := body.rest, body.caps;
    r := ReadStream(body, username, progress, requestParser, uploadFileService);
    ghost var t := Steps(Cursor(progress, [], body0, caps0), boundary, scan);
    assert Published(request, user, body0, caps0, scan) == [progress] + t;
    if t != [] {
      UpdateTwice(published0, username, earlier + [progress], earlier + [progress] + t);
      AppendAssociative(earlier, [progress], t);
      UpdateTwice(cache0, CacheKey(username), progress, t[|t| - 1]);
    }
  }
}

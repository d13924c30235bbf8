/** Uploading: the input of a single upload, the batch upload that keeps the
    locations of the uploads that succeeded, the listing of a log folder with
    its ignore list, the key a log file is stored under, and the log upload
    that decides which local files are removed. */
module Upload {

  import opened Wrappers
  import opened GoStrings
  import opened GoPath
  import opened Client

  // ---------------------------------------------------------------------------
  // UploadFile

  /** The reader handed over as `Data`: a caller's stream, or the pipe through
      which a log file is gzipped while it is uploaded. */
  datatype Body = Stream(id: nat) | GzipPipe(file: string)

  /** `map[string]*string`; a nil value pointer is `None`. */
  type Metadata = map<string, Option<string>>

  /** `UploadFileParams`. Nil pointers and a nil map are `None`; the instant of
      `CacheExpires` is a number. */
  datatype UploadFileParams = UploadFileParams(
    data: Body,
    bucket: string,
    key: string,
    metadata: Option<Metadata>,
    contentDisposition: string,
    contentType: string,
    acl: string,
    cacheControl: Option<string>,
    cacheExpires: Option<int>)

  /** The fields of the SDK's `UploadInput` that `UploadFile` sets; `None` is
      a nil pointer. */
  datatype UploadInput = UploadInput(
    bucket: Option<string>,
    key: Option<string>,
    acl: Option<string>,
    body: Body,
    cacheControl: Option<string>,
    expires: Option<int>,
    contentDisposition: Option<string>,
    contentType: Option<string>,
    metadata: Option<Metadata>)

  /** The canned ACL an upload gets when the caller names none. */
  const DefaultUploadAcl := "public-read"

  /** What an upload input holds for the caller's parameters: bucket, key,
      body, cache control and expiry copied; the ACL given, or "public-read"
      when it is empty; content disposition and content type only when they
      are not empty; the metadata map only when it is not nil. */
  predicate Describes(input: UploadInput, p: UploadFileParams)
  {
    && input.bucket == Some(p.bucket)
    && input.key == Some(p.key)
    && input.body == p.data
    && input.cacheControl == p.cacheControl
    && input.expires == p.cacheExpires
    && (p.acl == "" ==> input.acl == Some(DefaultUploadAcl))
    && (p.acl != "" ==> input.acl == Some(p.acl))
    && (p.contentDisposition == "" ==> input.contentDisposition == None)
    && (p.contentDisposition != "" ==> input.contentDisposition == Some(p.contentDisposition))
    && (p.contentType == "" ==> input.contentType == None)
    && (p.contentType != "" ==> input.contentType == Some(p.contentType))
    && (p.metadata == None ==> input.metadata == None)
    && (p.metadata != None ==> input.metadata == p.metadata)
  }

  /** The parameters determine the input: at most one input is described. */
  lemma DescribesUnique(a: UploadInput, b: UploadInput, p: UploadFileParams)
    requires Describes(a, p) && Describes(b, p)
    ensures a == b
  {
  }

  /** The upload input, as a value. */
  function UploadInputFor(p: UploadFileParams): (input: UploadInput)
    ensures Describes(input, p)
    ensures input.acl != None && input.acl.value != ""
  {
    UploadInput(
      Some(p.bucket), Some(p.key), Some(if p.acl != "" then p.acl else DefaultUploadAcl), p.data,
      p.cacheControl, p.cacheExpires,
      if p.contentDisposition != "" then Some(p.contentDisposition) else None,
      if p.contentType != "" then Some(p.contentType) else None,
      p.metadata)
  }

  /** The initial input and the conditional updates that follow it. */
  method BuildUploadInput(p: UploadFileParams) returns (input: UploadInput)
    ensures Describes(input, p)
  {
    input := UploadInput(Some(p.bucket), Some(p.key), Some(DefaultUploadAcl), p.data,
                         p.cacheControl, p.cacheExpires, None, None, None);
    if p.acl != "" {
      input := input.(acl := Some(p.acl));
    }
    if p.contentDisposition != "" {
      input := input.(contentDisposition := Some(p.contentDisposition));
    }
    if p.contentType != "" {
      input := input.(contentType := Some(p.contentType));
    }
    if p.metadata != None {
      input := input.(metadata := p.metadata);
    }
  }

  /** What `svc.Upload` does with an input: the object's location, or the
      error the SDK reports. */
  type Store = UploadInput -> Result<string, Error>

  /** The reply of `UploadFile`, given the outcome of opening the session and
      the store. */
  function UploadReply(session: SessionOutcome, store: Store, p: UploadFileParams): (r: Reply)
    ensures session.Failed? ==> r == Reply("", Some(session.err))
    ensures session.Established? && store(UploadInputFor(p)).Ok? ==>
              r == Reply(store(UploadInputFor(p)).value, None)
    ensures session.Established? && store(UploadInputFor(p)).Err? ==>
              r == Reply("", Some(store(UploadInputFor(p)).error))
  {
    match session
    case Failed(err) => Reply("", Some(err))
    case Established =>
      match store(UploadInputFor(p))
      case Ok(location) => Reply(location, None)
      case Err(err) => Reply("", Some(err))
  }

  /** `UploadFile`: open a session, build the input, upload it. */
  method UploadFile(session: SessionOutcome, store: Store, p: UploadFileParams) returns (r: Reply)
    ensures r == UploadReply(session, store, p)
  {
    if session.Failed? {
      return Reply("", Some(session.err));
    }
    var input := BuildUploadInput(p);
    DescribesUnique(input, UploadInputFor(p), p);
    var result := store(input);
    if result.Err? {
      return Reply("", Some(result.error));
    }
    return Reply(result.value, None);
  }

  /** An error comes back exactly when the session or the upload failed, and
      then the URL is empty. */
  lemma UploadErrors(session: SessionOutcome, store: Store, p: UploadFileParams)
    ensures var r := UploadReply(session, store, p);
      (r.err == None <==> session.Established? && store(UploadInputFor(p)).Ok?) &&
      (r.err != None ==> r.url == "")
  {
  }

  /** A failed session decides the reply whatever the store would have done:
      nothing is sent. */
  lemma FailedSessionSendsNothing(err: Error, s1: Store, s2: Store, p: UploadFileParams)
    ensures UploadReply(Failed(err), s1, p) == UploadReply(Failed(err), s2, p)
  {
  }

  // ---------------------------------------------------------------------------
  // UploadFiles

  /** The URL each job of a batch sends on the channel; job `i` opens its
      own session, whose outcome is `session(i)`. */
  function Sent(params: seq<UploadFileParams>, session: nat -> SessionOutcome, store: Store): (urls: seq<string>)
    ensures |urls| == |params|
  {
    seq(|params|, (i: int) requires 0 <= i < |params| => UploadReply(session(i), store, params[i]).url)
  }

  /** The URLs among the first `n` sent that are not empty, in order. */
  function Kept(urls: seq<string>, n: nat): (kept: seq<string>)
    requires n <= |urls|
    ensures |kept| <= n
    ensures "" !in kept
    decreases n
  {
    if n == 0 then []
    else Kept(urls, n - 1) + (if urls[n - 1] != "" then [urls[n - 1]] else [])
  }

  lemma KeptStep(urls: seq<string>, i: nat, u: string)
    requires i < |urls| && urls[i] == u
    ensures Kept(urls, i + 1) == Kept(urls, i) + (if u != "" then [u] else [])
  {
  }

  /** A URL is kept exactly when it is not empty and was sent. */
  lemma {:induction false} KeptMembers(urls: seq<string>, n: nat, u: string)
    requires n <= |urls|
    ensures u in Kept(urls, n) <==> u != "" && exists i :: 0 <= i < n && urls[i] == u
    decreases n
  {
    if n > 0 {
      KeptMembers(urls, n - 1, u);
      if u != "" && urls[n - 1] == u {
        assert u in Kept(urls, n);
      }
    }
  }

  /** The batch keeps exactly the locations of the jobs that succeeded and
      reported a location that is not empty. */
  lemma BatchMembers(params: seq<UploadFileParams>, session: nat -> SessionOutcome, store: Store, u: string)
    ensures u in Kept(Sent(params, session, store), |params|) <==>
              u != "" && exists i :: 0 <= i < |params| && UploadReply(session(i), store, params[i]) == Reply(u, None)
  {
    var urls := Sent(params, session, store);
    KeptMembers(urls, |params|, u);
    if u in Kept(urls, |params|) {
      var i :| 0 <= i < |params| && urls[i] == u;
      UploadErrors(session(i), store, params[i]);
      assert UploadReply(session(i), store, params[i]) == Reply(u, None);
    }
    if u != "" && exists i :: 0 <= i < |params| && UploadReply(session(i), store, params[i]) == Reply(u, None) {
      var i :| 0 <= i < |params| && UploadReply(session(i), store, params[i]) == Reply(u, None);
      assert urls[i] == u;
    }
  }

  /** The jobs of `UploadFiles`, one goroutine per parameter set, run in list
      order. Each job sends its URL on the buffered channel, then in its
      deferred block decrements the shared counter `max`, which starts at
      the number of jobs; the job that brings it to zero closes the channel.
      With no job, nothing ever closes it. */
  method RunJobs(params: seq<UploadFileParams>, session: nat -> SessionOutcome, store: Store)
    returns (channel: seq<string>, closed: bool)
    ensures channel == Sent(params, session, store)
    ensures closed <==> params != []
  {
    ghost var urls := Sent(params, session, store);
    var max := |params|;
    channel := [];
    closed := false;
    for i := 0 to |params|
      invariant max == |params| - i
      invariant channel == urls[..i]
      invariant closed <==> i > 0 && max == 0
    {
      var r := UploadFile(session(i), store, params[i]);
      assert urls[..i + 1] == urls[..i] + [r.url];
      channel := channel + [r.url];
      max := max - 1;
      if max == 0 {
        closed := true;
      }
    }
    assert urls[..|params|] == urls;
  }

  /** The collecting goroutine: the URLs received that are not empty, in the
      order received. */
  method Collect(channel: seq<string>) returns (result: seq<string>)
    ensures result == Kept(channel, |channel|)
  {
    result := [];
    for k := 0 to |channel|
      invariant result == Kept(channel, k)
    {
      KeptStep(channel, k, channel[k]);
      if channel[k] != "" {
        result := result + [channel[k]];
      }
    }
  }

  /** `UploadFiles` as written: `wg.Wait()` returns only after the collector
      has seen the channel closed, so the call completes exactly when the
      batch is not empty; an empty batch blocks forever. */
  method UploadFilesAsWritten(params: seq<UploadFileParams>, session: nat -> SessionOutcome, store: Store)
    returns (completes: bool, result: seq<string>)
    ensures completes <==> params != []
    ensures completes ==> multiset(result) == multiset(Kept(Sent(params, session, store), |params|))
  {
    var channel, closed := RunJobs(params, session, store);
    result := Collect(channel);
    completes := closed;
    SameMultiset(result, Kept(Sent(params, session, store), |params|));
  }

  /** `UploadFiles` with the channel closed once every job has finished, also
      when there is none: every location that is not empty is collected. The
      jobs run concurrently in the source, so only the multiset of the result
      is promised. */
  method UploadFiles(params: seq<UploadFileParams>, session: nat -> SessionOutcome, store: Store) returns (result: seq<string>)
    ensures multiset(result) == multiset(Kept(Sent(params, session, store), |params|))
    ensures |result| <= |params|
    ensures "" !in result
    ensures params == [] ==> result == []
  {
    var channel, _ := RunJobs(params, session, store);
    result := Collect(channel);
    SameMultiset(result, Kept(Sent(params, session, store), |params|));
  }

  /** Equal sequences have equal multisets; stated apart so that the methods
      promising a multiset reason about sequences only. */
  lemma SameMultiset<T>(a: seq<T>, b: seq<T>)
    requires a == b
    ensures multiset(a) == multiset(b)
  {
  }

  // ---------------------------------------------------------------------------
  // GetLogFiles

  /** What the walk of the folder reports for one path. */
  datatype Entry = Entry(path: string, isDir: bool)

  /** One copy of `path` for every ignore entry that is not a substring of it. */
  function Misses(path: string, ignoreFiles: seq<string>): seq<string>
    decreases |ignoreFiles|
  {
    if ignoreFiles == [] then []
    else
      var n := |ignoreFiles| - 1;
      Misses(path, ignoreFiles[..n]) + (if !Contains(path, ignoreFiles[n]) then [path] else [])
  }

  /** The paths one walk entry contributes. */
  function Emitted(e: Entry, ignoreFiles: seq<string>): seq<string>
  {
    if e.isDir then []
    else if |ignoreFiles| > 0 then Misses(e.path, ignoreFiles)
    else [e.path]
  }

  /** The listing of a walk. */
  function LogFiles(walk: seq<Entry>, ignoreFiles: seq<string>): seq<string>
    decreases |walk|
  {
    if walk == [] then []
    else LogFiles(walk[..|walk| - 1], ignoreFiles) + Emitted(walk[|walk| - 1], ignoreFiles)
  }

  /** `GetLogFiles`, over the entries the walk visits, in its order. Its error
      is always nil: a walk error ends the process first. */
  method GetLogFiles(walk: seq<Entry>, ignoreFiles: seq<string>) returns (files: seq<string>)
    ensures files == LogFiles(walk, ignoreFiles)
  {
    files := [];
    for n := 0 to |walk|
      invariant files == LogFiles(walk[..n], ignoreFiles)
    {
      var e := walk[n];
      assert walk[..n + 1][..n] == walk[..n];
      if !e.isDir {
        if |ignoreFiles| > 0 {
          for j := 0 to |ignoreFiles|
            invariant files == LogFiles(walk[..n], ignoreFiles) + Misses(e.path, ignoreFiles[..j])
          {
            assert ignoreFiles[..j + 1][..j] == ignoreFiles[..j];
            if !Contains(e.path, ignoreFiles[j]) {
              files := files + [e.path];
            }
          }
          assert ignoreFiles[..|ignoreFiles|] == ignoreFiles;
        } else {
          files := files + [e.path];
        }
      }
    }
    assert walk[..|walk|] == walk;
  }

  /** The listing of two walks one after the other is the one listing
      followed by the other: entries keep the walk's order. */
  lemma {:induction false} LogFilesAppend(w1: seq<Entry>, w2: seq<Entry>, ignoreFiles: seq<string>)
    ensures LogFiles(w1 + w2, ignoreFiles) == LogFiles(w1, ignoreFiles) + LogFiles(w2, ignoreFiles)
    decreases |w2|
  {
    if w2 == [] {
      assert w1 + w2 == w1;
    } else {
      var n := |w2| - 1;
      var init, last := w2[..n], w2[n];
      assert (w1 + w2)[..|w1 + w2| - 1] == w1 + init;
      assert (w1 + w2)[|w1 + w2| - 1] == last;
      assert LogFiles(w1 + w2, ignoreFiles) == LogFiles(w1 + init, ignoreFiles) + Emitted(last, ignoreFiles);
      LogFilesAppend(w1, init, ignoreFiles);
      assert LogFiles(w2, ignoreFiles) == LogFiles(init, ignoreFiles) + Emitted(last, ignoreFiles);
      AppendAssoc(LogFiles(w1, ignoreFiles), LogFiles(init, ignoreFiles), Emitted(last, ignoreFiles));
    }
  }

  /** One entry: no directory is listed, and with an empty ignore list a file
      is listed once. */
  lemma LogFilesOfEntry(e: Entry, ignoreFiles: seq<string>)
    ensures LogFiles([e], ignoreFiles) == Emitted(e, ignoreFiles)
    ensures e.isDir ==> LogFiles([e], ignoreFiles) == []
    ensures !e.isDir && ignoreFiles == [] ==> LogFiles([e], ignoreFiles) == [e.path]
  {
    assert [e][..0] == [];
  }

  /** Every copy `Misses` makes is the path itself; there are none exactly
      when every ignore entry is a substring of the path, and one per entry
      exactly when none is. */
  lemma {:induction false} MissesShape(path: string, ignoreFiles: seq<string>)
    ensures forall k :: 0 <= k < |Misses(path, ignoreFiles)| ==> Misses(path, ignoreFiles)[k] == path
    ensures |Misses(path, ignoreFiles)| == |MissedEntries(path, ignoreFiles)|
    ensures |Misses(path, ignoreFiles)| <= |ignoreFiles|
    ensures |Misses(path, ignoreFiles)| == 0 <==> forall j :: 0 <= j < |ignoreFiles| ==> Contains(path, ignoreFiles[j])
    ensures |Misses(path, ignoreFiles)| == |ignoreFiles| <==> forall j :: 0 <= j < |ignoreFiles| ==> !Contains(path, ignoreFiles[j])
  {
    MissesCopies(path, ignoreFiles);
    MissesCount(path, ignoreFiles);
    MissesNone(path, ignoreFiles);
    MissesAll(path, ignoreFiles);
  }

  /** The positions of the ignore entries that are not substrings of `path`. */
  function MissedEntries(path: string, ignoreFiles: seq<string>): set<int>
  {
    Below(|ignoreFiles|, Missed(path, ignoreFiles))
  }

  /** Whether position `j` holds an ignore entry that is not a substring of `path`. */
  function Missed(path: string, ignoreFiles: seq<string>): int -> bool
  {
    (j: int) => 0 <= j < |ignoreFiles| && !Contains(path, ignoreFiles[j])
  }

  /** The positions below `m` that `pick` selects. */
  function Below(m: nat, pick: int -> bool): set<int>
  {
    set j | 0 <= j < m && pick(j)
  }

  lemma BelowStep(m: nat, pick: int -> bool)
    ensures |Below(m + 1, pick)| == |Below(m, pick)| + (if pick(m) then 1 else 0)
  {
    var last: set<int> := if pick(m) then {m} else {};
    assert Below(m + 1, pick) == Below(m, pick) + last;
    assert m !in Below(m, pick);
  }

  /** One copy per ignore entry that is not a substring of the path. */
  lemma MissesCount(path: string, ignoreFiles: seq<string>)
    ensures |Misses(path, ignoreFiles)| == |MissedEntries(path, ignoreFiles)|
  {
    MissesPrefixCount(path, ignoreFiles, |ignoreFiles|);
    assert ignoreFiles[..|ignoreFiles|] == ignoreFiles;
  }

  lemma {:induction false} MissesPrefixCount(path: string, ignoreFiles: seq<string>, m: nat)
    requires m <= |ignoreFiles|
    ensures |Misses(path, ignoreFiles[..m])| == |Below(m, Missed(path, ignoreFiles))|
    decreases m
  {
    if m == 0 {
      assert Below(0, Missed(path, ignoreFiles)) == {};
    } else {
      MissesPrefixCount(path, ignoreFiles, m - 1);
      BelowStep(m - 1, Missed(path, ignoreFiles));
      assert ignoreFiles[..m][..m - 1] == ignoreFiles[..m - 1];
      assert ignoreFiles[..m][m - 1] == ignoreFiles[m - 1];
    }
  }

  lemma {:induction false} MissesCopies(path: string, ignoreFiles: seq<string>)
    ensures forall k :: 0 <= k < |Misses(path, ignoreFiles)| ==> Misses(path, ignoreFiles)[k] == path
    ensures |Misses(path, ignoreFiles)| <= |ignoreFiles|
    decreases |ignoreFiles|
  {
    if ignoreFiles != [] {
      MissesCopies(path, ignoreFiles[..|ignoreFiles| - 1]);
    }
  }

  lemma {:induction false} MissesNone(path: string, ignoreFiles: seq<string>)
    ensures |Misses(path, ignoreFiles)| == 0 <==> forall j :: 0 <= j < |ignoreFiles| ==> Contains(path, ignoreFiles[j])
    decreases |ignoreFiles|
  {
    if ignoreFiles != [] {
      var n := |ignoreFiles| - 1;
      var init := ignoreFiles[..n];
      MissesNone(path, init);
      assert forall j :: 0 <= j < n ==> init[j] == ignoreFiles[j];
    }
  }

  lemma {:induction false} MissesAll(path: string, ignoreFiles: seq<string>)
    ensures |Misses(path, ignoreFiles)| == |ignoreFiles| <==> forall j :: 0 <= j < |ignoreFiles| ==> !Contains(path, ignoreFiles[j])
    decreases |ignoreFiles|
  {
    if ignoreFiles != [] {
      var n := |ignoreFiles| - 1;
      var init := ignoreFiles[..n];
      MissesAll(path, init);
      MissesCopies(path, init);
      assert forall j :: 0 <= j < n ==> init[j] == ignoreFiles[j];
      if !(forall j :: 0 <= j < n ==> !Contains(path, init[j])) {
        var j :| 0 <= j < n && Contains(path, init[j]);
        assert Contains(path, ignoreFiles[j]);
      }
    }
  }

  /** The ignore list lets a path through: it is empty, or one of its
      entries is not a substring of the path. */
  predicate Admitted(ignoreFiles: seq<string>, p: string)
  {
    ignoreFiles == [] || exists j :: 0 <= j < |ignoreFiles| && !Contains(p, ignoreFiles[j])
  }

  /** A path is listed exactly when the walk has a file entry for it and the
      ignore list is empty or holds an entry that is not a substring of it. */
  lemma LogFilesMembers(walk: seq<Entry>, ignoreFiles: seq<string>, p: string)
    ensures p in LogFiles(walk, ignoreFiles) <==>
              (exists k :: 0 <= k < |walk| && walk[k].path == p && !walk[k].isDir) &&
              (ignoreFiles == [] || exists j :: 0 <= j < |ignoreFiles| && !Contains(p, ignoreFiles[j]))
  {
    LogFilesPrefixMembers(walk, ignoreFiles, p, |walk|);
    assert walk[..|walk|] == walk;
  }

  /** The same for the listing of the first `m` entries of a walk. */
  lemma {:induction false} LogFilesPrefixMembers(walk: seq<Entry>, ignoreFiles: seq<string>, p: string, m: nat)
    requires m <= |walk|
    ensures p in LogFiles(walk[..m], ignoreFiles) <==> ListsFile(walk, m, p) && Admitted(ignoreFiles, p)
    decreases m
  {
    if m == 0 {
      assert walk[..m] == [];
    } else {
      LogFilesPrefixMembers(walk, ignoreFiles, p, m - 1);
      EmittedMembers(walk[m - 1], ignoreFiles, p);
      ListsFileStep(walk, m, p);
      LogFilesStep(walk, ignoreFiles, m);
    }
  }

  /** Some entry among the first `m` is a file with path `p`. */
  predicate ListsFile(walk: seq<Entry>, m: nat, p: string)
    requires m <= |walk|
  {
    exists k :: 0 <= k < m && walk[k].path == p && !walk[k].isDir
  }

  lemma ListsFileStep(walk: seq<Entry>, m: nat, p: string)
    requires 0 < m <= |walk|
    ensures ListsFile(walk, m, p) <==> ListsFile(walk, m - 1, p) || (walk[m - 1].path == p && !walk[m - 1].isDir)
  {
    if ListsFile(walk, m, p) {
      var k :| 0 <= k < m && walk[k].path == p && !walk[k].isDir;
      if k < m - 1 {
        assert ListsFile(walk, m - 1, p);
      }
    }
    if walk[m - 1].path == p && !walk[m - 1].isDir {
      assert ListsFile(walk, m, p);
    }
  }

  /** One more entry of the walk adds its own paths at the end of the listing. */
  lemma LogFilesStep(walk: seq<Entry>, ignoreFiles: seq<string>, m: nat)
    requires 0 < m <= |walk|
    ensures LogFiles(walk[..m], ignoreFiles) == LogFiles(walk[..m - 1], ignoreFiles) + Emitted(walk[m - 1], ignoreFiles)
  {
    assert walk[..m][..m - 1] == walk[..m - 1];
  }

  /** A path is emitted for an entry exactly when the entry is a file with
      that path and the ignore list is empty or holds an entry that is not a
      substring of it. */
  lemma EmittedMembers(e: Entry, ignoreFiles: seq<string>, p: string)
    ensures p in Emitted(e, ignoreFiles) <==> !e.isDir && e.path == p && Admitted(ignoreFiles, p)
  {
    MissesShape(e.path, ignoreFiles);
    var m := Misses(e.path, ignoreFiles);
    if !e.isDir && e.path == p && ignoreFiles != [] && (exists j :: 0 <= j < |ignoreFiles| && !Contains(p, ignoreFiles[j])) {
      assert m[0] == p;
    }
  }

  /** With a single ignore entry a file is listed once when it does not
      contain the entry, and not at all when it does. */
  lemma SingleIgnoreEntry(path: string, x: string)
    ensures Emitted(Entry(path, false), [x]) == if Contains(path, x) then [] else [path]
  {
    assert [x][..0] == [];
    assert Misses(path, [x]) == Misses(path, []) + (if !Contains(path, x) then [path] else []);
  }

  /** A path that contains none of several ignore entries is listed once per
      entry. */
  lemma ListedPerEntry(path: string, ignoreFiles: seq<string>)
    requires forall j :: 0 <= j < |ignoreFiles| ==> !Contains(path, ignoreFiles[j])
    ensures |Emitted(Entry(path, false), ignoreFiles)| == if ignoreFiles == [] then 1 else |ignoreFiles|
    ensures forall k :: 0 <= k < |Emitted(Entry(path, false), ignoreFiles)| ==> Emitted(Entry(path, false), ignoreFiles)[k] == path
  {
    MissesShape(path, ignoreFiles);
  }

  // ---------------------------------------------------------------------------
  // extractFileKey

  /** The format that appends the gzip suffix. */
  const GzipNameFormat := "%s" + ".gz"

  /** The format that puts a folder in front of a name. */
  const KeyFormat := "%s" + "/" + "%s"

  lemma GzipName(x: string)
    ensures Conforms(GzipNameFormat, [Str(x)])
    ensures Sprintf(GzipNameFormat, [Str(x)]) == x + ".gz"
  {
    SprintfOnlyString(x);
    SprintfThenLiteral("%s", [Str(x)], ".gz");
  }

  lemma KeyText(folder: string, name: string)
    ensures Conforms(KeyFormat, [Str(folder), Str(name)])
    ensures Sprintf(KeyFormat, [Str(folder), Str(name)]) == folder + "/" + name
  {
    SprintfOnlyString(folder);
    SprintfThenLiteral("%s", [Str(folder)], "/");
    SprintfThenString("%s" + "/", [Str(folder)], name);
    assert [Str(folder)] + [Str(name)] == [Str(folder), Str(name)];
  }

  /** The base name of the path with its extension replaced by ".gz" is the
      stem followed by ".gz". */
  lemma BaseOfGzipName(file: string)
    ensures Base(DirPrefix(file) + Stem(file) + ".gz") == Stem(file) + ".gz"
  {
    SplitPath(file);
    var stem, d := Stem(file), DirPrefix(file);
    NoSlashInPrefix(stem, Ext(file));
    assert '/' !in stem + ".gz";
    BaseAfterDirectory(d, stem + ".gz");
    AppendAssoc(d, stem, ".gz");
  }

  /** A name without separators after a directory prefix is the base name. */
  lemma BaseAfterDirectory(d: string, t: string)
    requires d == "" || d[|d| - 1] == '/'
    requires t != "" && '/' !in t
    ensures Base(d + t) == t
  {
    LastElementAfterDirectory(d, t);
    assert (d + t)[|d + t| - 1] == t[|t| - 1];
    assert t[|t| - 1] in t;
    BaseOfFilePath(d + t);
  }

  lemma NoSlashInPrefix(a: string, b: string)
    requires '/' !in a + b
    ensures '/' !in a
  {
    assert forall i :: 0 <= i < |a| ==> a[i] == (a + b)[i];
  }

  /** `extractFileKey`: the key is the file's directory, '/', and the final
      element with its extension replaced by ".gz"; the name is the base name. */
  function ExtractFileKey(file: string): (r: (string, string))
    ensures r.0 == Dir(file) + "/" + Stem(file) + ".gz"
    ensures r.1 == Base(file)
  {
    var ext := Ext(file);
    DropExt(file);
    var fileName := file[..|file| - |ext|];
    GzipName(fileName);
    var gzipFileName := Sprintf(GzipNameFormat, [Str(fileName)]);
    BaseOfGzipName(file);
    var fileKey := Base(gzipFileName);
    var folder := Dir(file);
    KeyText(folder, fileKey);
    AppendAssoc(folder + "/", Stem(file), ".gz");
    var key := Sprintf(KeyFormat, [Str(folder), Str(fileKey)]);
    (key, Base(file))
  }

  /** For a file path, the name is its final element. */
  lemma ExtractedName(file: string)
    requires file != "" && file[|file| - 1] != '/'
    ensures ExtractFileKey(file).1 == LastElement(file)
  {
    BaseOfFilePath(file);
  }

  /** A final element without '.' keeps all of its text and gets ".gz"
      appended; otherwise only the text from its last '.' is replaced. */
  lemma ExtractedKeyExtension(file: string)
    ensures '.' !in LastElement(file) ==> ExtractFileKey(file).0 == Dir(file) + "/" + LastElement(file) + ".gz"
    ensures '.' in LastElement(file) ==>
              ExtractFileKey(file).0 == Dir(file) + "/" + Stem(file) + ".gz" &&
              Stem(file) + Ext(file) == LastElement(file) &&
              Ext(file) != "" && Ext(file)[0] == '.' && '.' !in Ext(file)[1..]
  {
    ExtensionStripping(file);
  }

  /** A file without a directory is stored under "./". */
  lemma ExtractedKeyWithoutDirectory(file: string)
    requires '/' !in file
    ensures ExtractFileKey(file).0 == "./" + Stem(file) + ".gz"
  {
    DirWithoutSeparator(file);
  }

  /** A file in a relative directory of plain elements is stored under that
      directory: "logs/backend/app.log" under "logs/backend/app.gz". */
  lemma ExtractedKeyInDirectory(elems: seq<string>, name: string)
    requires |elems| > 0
    requires forall i :: 0 <= i < |elems| ==> PlainName(elems[i])
    requires name != "" && '/' !in name
    ensures ExtractFileKey(Join(elems) + "/" + name).0 == Join(elems) + "/" + Stem(Join(elems) + "/" + name) + ".gz"
    ensures ExtractFileKey(Join(elems) + "/" + name).1 == name
  {
    var file := Join(elems) + "/" + name;
    DirOfPlainPath(elems, name);
    LastElementAppend(Join(elems) + "/", name);
    assert file[|file| - 1] == name[|name| - 1];
    ExtractedName(file);
  }

  /** Paths of the shape "./logs/backend/2006-01-02": the leading "./" is
      cleaned away and a final element without '.' keeps all of its text, so
      the key is "logs/backend/2006-01-02.gz" and the name "2006-01-02". */
  lemma ExtractedKeyOfDotPath(elems: seq<string>, name: string)
    requires |elems| > 0
    requires forall i :: 0 <= i < |elems| ==> PlainName(elems[i])
    requires name != "" && '/' !in name && '.' !in name
    ensures ExtractFileKey("./" + Join(elems) + "/" + name) == (Join(elems) + "/" + name + ".gz", name)
  {
    var d := "./" + Join(elems) + "/";
    var file := d + name;
    DirOfDotPath(elems, name);
    LastElementAfterDirectory(d, name);
    BaseAfterDirectory(d, name);
    ExtractedKeyExtension(file);
  }

  /** The stem of `d` + `b` + "." + `t`, for a final element `b.t` whose `t`
      holds no '.', is `b`. */
  lemma StemOfDotted(d: string, b: string, t: string)
    requires d == "" || d[|d| - 1] == '/'
    requires '/' !in b && '/' !in t && '.' !in t
    ensures Stem(d + b + "." + t) == b
  {
    var file := d + b + "." + t;
    assert file == d + (b + "." + t);
    assert '/' !in b + "." + t;
    LastElementAfterDirectory(d, b + "." + t);
    ExtAfterDot(d + b, t);
    assert Stem(file) + ("." + t) == b + ("." + t);
  }

  /** "logs/backend/app.log" is stored under "logs/backend/app.gz" with the
      name "app.log". */
  lemma ExtractedKeyOfAppLog()
    ensures ExtractFileKey("logs/backend/app.log") == ("logs/backend/app.gz", "app.log")
  {
    assert "logs/" + "backend" + "/" + "app" + "." + "log" == "logs/backend/app.log" by {}
    assert "logs/" + "backend" + "/" + "app" + ".gz" == "logs/backend/app.gz" by {}
    assert "app" + "." + "log" == "app.log" by {}
    AppLogShape("backend", "app", "log");
  }

  /** A file `logs/dir/b.t`, whose `t` holds no '.', is stored under
      `logs/dir/b.gz` with the name `b.t`. */
  lemma AppLogShape(dir: string, b: string, t: string)
    requires PlainName(dir) && b != "" && '/' !in b && '/' !in t && '.' !in t
    ensures ExtractFileKey("logs/" + dir + "/" + b + "." + t) == ("logs/" + dir + "/" + b + ".gz", b + "." + t)
  {
    var elems := ["logs", dir];
    var j := Join(elems);
    assert j == "logs/" + dir by {
      assert elems[1..] == [dir];
    }
    assert forall i :: 0 <= i < |elems| ==> PlainName(elems[i]) by {
      assert PlainName("logs");
    }
    var name := b + "." + t;
    assert '/' !in name;
    assert j + "/" + name == "logs/" + dir + "/" + b + "." + t by {
      GoStrings.AppendAssoc(j + "/" + b, ".", t);
    }
    ExtractedKeyInDirectory(elems, name);
    StemOfDotted(j + "/", b, t);
    assert j + "/" + b + "." + t == j + "/" + name;
  }

  /** The first path of the package's own key test: the leading "./" goes
      and the dated name keeps all of its text. */
  lemma ExtractedKeyOfBackendTestFile()
    ensures ExtractFileKey("./logs/backend/2006-01-02") == ("logs/backend/2006-01-02.gz", "2006-01-02")
  {
    assert "./logs/" + "backend" + "/" + "2006-01-02" == "./logs/backend/2006-01-02" by {}
    assert "logs/" + "backend" + "/" + "2006-01-02" + ".gz" == "logs/backend/2006-01-02.gz" by {}
    DatedTestFile("backend", "2006-01-02");
  }

  /** The second path of the same test. */
  lemma ExtractedKeyOfConsumerTestFile()
    ensures ExtractFileKey("./logs/consumer/2006-02-02") == ("logs/consumer/2006-02-02.gz", "2006-02-02")
  {
    assert "./logs/" + "consumer" + "/" + "2006-02-02" == "./logs/consumer/2006-02-02" by {}
    assert "logs/" + "consumer" + "/" + "2006-02-02" + ".gz" == "logs/consumer/2006-02-02.gz" by {}
    DatedTestFile("consumer", "2006-02-02");
  }

  lemma DatedTestFile(dir: string, name: string)
    requires PlainName(dir) && PlainName(name) && '.' !in name
    ensures ExtractFileKey("./logs/" + dir + "/" + name) == ("logs/" + dir + "/" + name + ".gz", name)
  {
    var elems := ["logs", dir];
    var j := Join(elems);
    assert j == "logs/" + dir by {
      assert elems[1..] == [dir];
    }
    assert forall i :: 0 <= i < |elems| ==> PlainName(elems[i]) by {
      assert PlainName("logs");
    }
    ExtractedKeyOfDotPath(elems, name);
    assert "./" + j == "./logs/" + dir by {
      assert "./" + "logs/" == "./logs/";
      GoStrings.AppendAssoc("./", "logs/", dir);
    }
  }

  // ---------------------------------------------------------------------------
  // UploadLog

  /** `UploadLogParams`; a nil keep policy is `None`. */
  datatype UploadLogParams = UploadLogParams(
    ignoreFiles: seq<string>,
    folderToUpload: string,
    uploadToBucket: string,
    shouldKeepFileAfterUpload: Option<(string, string) -> bool>)

  /** The parameters of the upload of one log file: its gzip pipe, under its
      key, into the log bucket, with every other field left empty. */
  function LogUploadParams(params: UploadLogParams, file: string): UploadFileParams
  {
    UploadFileParams(GzipPipe(file), params.uploadToBucket, ExtractFileKey(file).0,
                     None, "", "", "", None, None)
  }

  /** The URL the job of the `i`th file sends: "" when the file cannot be
      opened, otherwise the location its upload returns. */
  function LogJobUrl(params: UploadLogParams, file: string, i: nat,
                     canOpen: nat -> bool, session: nat -> SessionOutcome, store: Store): string
  {
    if !canOpen(i) then ""
    else UploadReply(session(i), store, LogUploadParams(params, file)).url
  }

  /** Whether the job of the `i`th file removes it. */
  predicate LogJobRemoves(params: UploadLogParams, file: string, i: nat,
                          canOpen: nat -> bool, session: nat -> SessionOutcome, store: Store)
  {
    var (key, name) := ExtractFileKey(file);
    LogJobUrl(params, file, i, canOpen, session, store) != "" &&
    params.shouldKeepFileAfterUpload.Some? && !params.shouldKeepFileAfterUpload.value(key, name)
  }

  /** The entries among the first `n` whose index `pick` selects, in order. */
  function Picked(files: seq<string>, n: nat, pick: nat -> bool): (picked: seq<string>)
    requires n <= |files|
    ensures |picked| <= n
    decreases n
  {
    if n == 0 then []
    else Picked(files, n - 1, pick) + (if pick(n - 1) then [files[n - 1]] else [])
  }

  lemma {:induction false} PickedMembers(files: seq<string>, n: nat, pick: nat -> bool, f: string)
    requires n <= |files|
    ensures f in Picked(files, n, pick) <==> exists i :: 0 <= i < n && files[i] == f && pick(i)
    decreases n
  {
    if n > 0 {
      PickedMembers(files, n - 1, pick, f);
      if files[n - 1] == f && pick(n - 1) {
        assert f in Picked(files, n, pick);
      }
    }
  }

  /** The files the first `n` jobs remove, in job order. */
  function Removed(params: UploadLogParams, files: seq<string>, n: nat,
                   canOpen: nat -> bool, session: nat -> SessionOutcome, store: Store): (removed: seq<string>)
    requires n <= |files|
  {
    Picked(files, n, (i: nat) => i < |files| && LogJobRemoves(params, files[i], i, canOpen, session, store))
  }

  /** One more job: its file is removed after the ones before it, or not at all. */
  lemma RemovedStep(params: UploadLogParams, files: seq<string>, i: nat,
                    canOpen: nat -> bool, session: nat -> SessionOutcome, store: Store)
    requires i < |files|
    ensures Removed(params, files, i + 1, canOpen, session, store) ==
              Removed(params, files, i, canOpen, session, store) +
              (if LogJobRemoves(params, files[i], i, canOpen, session, store) then [files[i]] else [])
  {
  }

  /** The message of the error for a walk that lists nothing. */
  const NoFilesMessage := "no have any files to upload"

  /** `UploadLog`: list the folder; with nothing listed, fail; otherwise run
      one job per listed file (open it, upload it gzipped under its key, and
      remove it when the upload gave a URL and the keep policy, if there is
      one, says no) and return the listing. The URLs are collected and then
      dropped, as in the source. `removed` is the sequence of files handed to
      `os.Remove`; the jobs run concurrently in the source, so only its
      multiset is promised. */
  method UploadLog(params: UploadLogParams, walk: seq<Entry>,
                   canOpen: nat -> bool, session: nat -> SessionOutcome, store: Store)
    returns (r: Result<seq<string>, Error>, removed: seq<string>)
    ensures LogFiles(walk, params.ignoreFiles) == [] ==> r == Err(Plain(NoFilesMessage)) && removed == []
    ensures LogFiles(walk, params.ignoreFiles) != [] ==>
              r == Ok(LogFiles(walk, params.ignoreFiles)) &&
              multiset(removed) == multiset(Removed(params, r.value, |r.value|, canOpen, session, store))
  {
    var files := GetLogFiles(walk, params.ignoreFiles);
    removed := [];
    if |files| == 0 {
      return Err(Plain(NoFilesMessage)), removed;
    }
    var uploadedUrls: seq<string> := [];
    for i := 0 to |files|
      invariant removed == Removed(params, files, i, canOpen, session, store)
    {
      var file := files[i];
      RemovedStep(params, files, i, canOpen, session, store);
      var result := "";
      if canOpen(i) {
        var (key, fileName) := ExtractFileKey(file);
        var reply := UploadFile(session(i), store, UploadFileParams(GzipPipe(file), params.uploadToBucket, key,
                                                                    None, "", "", "", None, None));
        result := reply.url;
        if result != "" {
          if params.shouldKeepFileAfterUpload.Some? && !params.shouldKeepFileAfterUpload.value(key, fileName) {
            removed := removed + [file];
          }
        }
      }
      assert result == LogJobUrl(params, file, i, canOpen, session, store);
      if result != "" {
        uploadedUrls := uploadedUrls + [result];
      }
    }
    SameMultiset(removed, Removed(params, files, |files|, canOpen, session, store));
    return Ok(files), removed;
  }

  /** A job removes its file exactly when it opened the file, its session was
      established, the store accepted the upload with a location that is not
      empty, and there is a keep policy that answers no for the file's key
      and name. */
  lemma LogJobRemovesExactly(params: UploadLogParams, file: string, i: nat,
                             canOpen: nat -> bool, session: nat -> SessionOutcome, store: Store)
    ensures LogJobRemoves(params, file, i, canOpen, session, store) <==>
              && canOpen(i)
              && session(i).Established?
              && store(UploadInputFor(LogUploadParams(params, file))).Ok?
              && store(UploadInputFor(LogUploadParams(params, file))).value != ""
              && params.shouldKeepFileAfterUpload.Some?
              && !params.shouldKeepFileAfterUpload.value(ExtractFileKey(file).0, ExtractFileKey(file).1)
  {
    UploadErrors(session(i), store, LogUploadParams(params, file));
  }

  /** A file is removed exactly when one of the jobs for it removes it. */
  lemma RemovedMembers(params: UploadLogParams, files: seq<string>, n: nat,
                       canOpen: nat -> bool, session: nat -> SessionOutcome, store: Store, f: string)
    requires n <= |files|
    ensures f in Removed(params, files, n, canOpen, session, store) <==>
              exists i :: 0 <= i < n && files[i] == f && LogJobRemoves(params, f, i, canOpen, session, store)
  {
    PickedMembers(files, n, (i: nat) => i < |files| && LogJobRemoves(params, files[i], i, canOpen, session, store), f);
  }

  /** Without a keep policy nothing is removed. */
  lemma NoPolicyKeepsEverything(params: UploadLogParams, files: seq<string>, n: nat,
                                canOpen: nat -> bool, session: nat -> SessionOutcome, store: Store)
    requires n <= |files|
    requires params.shouldKeepFileAfterUpload == None
    ensures Removed(params, files, n, canOpen, session, store) == []
  {
    var removed := Removed(params, files, n, canOpen, session, store);
    if removed != [] {
      RemovedMembers(params, files, n, canOpen, session, store, removed[0]);
    }
  }
}

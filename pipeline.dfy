/** The asset pipeline: the per-entry worker `download_and_convert_image`
    (its guard and its output name; fetching, decoding and encoding are one
    abstract outcome), the pool completing the workers in any order, and the
    loop in `main` that collects the names of the successful ones. */
module Pipeline {
  import opened Entries

  /** The result of fetching, decoding, flattening and saving one image. */
  datatype Outcome = Converted | ConvertFailed(cause: string)

  /** The message a worker returns instead of `None`. */
  datatype Message = Incomplete(info: Entry) | ProcessingFailed(id: IdValue, cause: string)

  /** What a worker returns, and the file it leaves in the working area. */
  datatype WorkerResult = WorkerResult(message: Option<Message>, written: Option<string>)

  /** `f"{username}_{image_id}.jpeg"`. */
  function JpegName(username: string, idText: string): string
  {
    username + "_" + idText + ".jpeg"
  }

  /** `image_info.get('username', 'unknown')`. */
  function UsernameOr(info: Entry): string
  {
    if info.username.Some? then info.username.value else "unknown"
  }

  /** The worker's guard: a truthy `id` and a truthy `url`. */
  predicate Complete(info: Entry)
  {
    info.id.Some? && IdTruthy(info.id.value) && TextTruthy(info.url)
  }

  /** `download_and_convert_image`: an entry without a truthy id or url is
      turned away with a message and writes nothing; otherwise the image is
      saved as `username_id.jpeg` and the worker returns `None`, unless
      processing fails, which yields a message and no file. */
  function DownloadAndConvert(info: Entry, codec: Outcome): (r: WorkerResult)
    ensures r.message.None? <==> r.written.Some?
    ensures r.written.Some? <==> Complete(info) && codec.Converted?
    ensures !Complete(info) ==> r.message == Some(Incomplete(info))
    ensures r.written.Some? ==> r.written.value == JpegName(UsernameOr(info), IdText(info.id.value))
  {
    if !Complete(info) then WorkerResult(Some(Incomplete(info)), None)
    else match codec
      case Converted => WorkerResult(None, Some(JpegName(UsernameOr(info), IdText(info.id.value))))
      case ConvertFailed(cause) => WorkerResult(Some(ProcessingFailed(info.id.value, cause)), None)
  }

  /** Where the username, the separator, the id text and the suffix sit in a name. */
  lemma NameLayout(username: string, idText: string)
    ensures var n := JpegName(username, idText);
            && |n| == |username| + |idText| + 6
            && n[..|username|] == username
            && n[|username|] == '_'
            && n[|username| + 1..|username| + 1 + |idText|] == idText
  {
  }

  /** Under one username, entries with different ids get different files. */
  lemma DistinctKeysDistinctNames(username: string, k1: string, k2: string)
    requires k1 != k2
    ensures JpegName(username, k1) != JpegName(username, k2)
  {
    NameLayout(username, k1);
    NameLayout(username, k2);
  }

  /** A name splits back into its username and id text when the id text has
      no `_` in it. */
  lemma NameInjective(u1: string, k1: string, u2: string, k2: string)
    requires '_' !in k1 && '_' !in k2
    requires JpegName(u1, k1) == JpegName(u2, k2)
    ensures u1 == u2 && k1 == k2
  {
    var n := JpegName(u1, k1);
    NameLayout(u1, k1);
    NameLayout(u2, k2);
    assert forall i :: |u1| + 1 <= i < |u1| + 1 + |k1| ==> n[i] != '_' by {
      forall i | |u1| + 1 <= i < |u1| + 1 + |k1| ensures n[i] != '_' {
        assert n[i] == n[|u1| + 1..|u1| + 1 + |k1|][i - |u1| - 1];
      }
    }
    assert forall i :: |u2| + 1 <= i < |u2| + 1 + |k2| ==> n[i] != '_' by {
      forall i | |u2| + 1 <= i < |u2| + 1 + |k2| ensures n[i] != '_' {
        assert n[i] == n[|u2| + 1..|u2| + 1 + |k2|][i - |u2| - 1];
      }
    }
    assert |u1| == |u2|;
  }

  /** With integer ids, as the service sends them, no two different
      (username, id) pairs share a file name. */
  lemma IntIdNamesInjective(u1: string, n1: int, u2: string, n2: int)
    requires JpegName(u1, IdText(IdInt(n1))) == JpegName(u2, IdText(IdInt(n2)))
    ensures u1 == u2 && n1 == n2
  {
    IntTextHasNoUnderscore(n1);
    IntTextHasNoUnderscore(n2);
    NameInjective(u1, IdText(IdInt(n1)), u2, IdText(IdInt(n2)));
    IntTextInjective(n1, n2);
  }

  /** One submitted unit of work: an entry and what processing it will yield. */
  datatype Job = Job(entry: Entry, codec: Outcome)

  predicate Succeeds(j: Job)
  {
    DownloadAndConvert(j.entry, j.codec).message.None?
  }

  /** The file a successful worker has written. */
  function WrittenName(j: Job): string
    requires Succeeds(j)
  {
    DownloadAndConvert(j.entry, j.codec).written.value
  }

  /** The files in the working area after every job has run. */
  function WrittenFiles(jobs: seq<Job>): set<string>
  {
    set j | j in jobs && Succeeds(j) :: WrittenName(j)
  }

  /** `as_completed`: the pool hands back the jobs in an order it chooses. */
  method CompleteInAnyOrder(jobs: seq<Job>) returns (done: seq<Job>)
    ensures multiset(done) == multiset(jobs)
  {
    done := [];
    var pending := jobs;
    while pending != []
      invariant multiset(done) + multiset(pending) == multiset(jobs)
      decreases |pending|
    {
      var i :| 0 <= i < |pending|;
      assert pending == pending[..i] + [pending[i]] + pending[i + 1..];
      done := done + [pending[i]];
      pending := pending[..i] + pending[i + 1..];
    }
  }

  /** What the collecting loop adds for one completed job: the name of the
      file its worker wrote, or nothing when the worker returned a message. */
  function Step(j: Job): seq<string>
  {
    if Succeeds(j) then [WrittenName(j)] else []
  }

  /** `downloaded_filenames` after the loop has seen the jobs in completion order `done`. */
  function Collected(done: seq<Job>): seq<string>
    decreases |done|
  {
    if done == [] then [] else Collected(done[..|done| - 1]) + Step(done[|done| - 1])
  }

  /** The loop over `as_completed` in `main`: a message is reported and
      skipped, a success appends its file name, and the loop goes on. */
  method CollectResults(done: seq<Job>) returns (downloadedFilenames: seq<string>)
    ensures downloadedFilenames == Collected(done)
  {
    downloadedFilenames := [];
    for i := 0 to |done|
      invariant downloadedFilenames == Collected(done[..i])
    {
      assert done[..i + 1][..i] == done[..i];
      var result := DownloadAndConvert(done[i].entry, done[i].codec);
      if result.message.None? {
        downloadedFilenames := downloadedFilenames + [result.written.value];
      }
    }
    assert done[..|done|] == done;
  }

  lemma {:induction false} CollectedAppend(a: seq<Job>, b: seq<Job>)
    ensures Collected(a + b) == Collected(a) + Collected(b)
    decreases |b|
  {
    if b == [] {
      assert a + b == a;
    } else {
      var init := b[..|b| - 1];
      assert (a + b)[..|a + b| - 1] == a + init;
      assert (a + b)[|a + b| - 1] == b[|b| - 1];
      CollectedAppend(a, init);
    }
  }

  /** A failing job adds nothing and does not stop the jobs completed after it. */
  lemma FailureIsolated(before: seq<Job>, failed: Job, after: seq<Job>)
    requires !Succeeds(failed)
    ensures Collected(before + [failed] + after) == Collected(before) + Collected(after)
  {
    assert Collected([failed]) == [] by {
      assert [failed][..0] == [];
    }
    CollectedAppend(before, [failed]);
    CollectedAppend(before + [failed], after);
    assert Collected(before + [failed]) == Collected(before);
  }

  /** The collected names are exactly the files of the successful jobs. */
  lemma {:induction false} CollectedMembers(done: seq<Job>)
    ensures forall n :: n in Collected(done) <==> exists j :: j in done && Succeeds(j) && WrittenName(j) == n
    decreases |done|
  {
    if done != [] {
      var init, last := done[..|done| - 1], done[|done| - 1];
      assert done == init + [last];
      CollectedMembers(init);
    }
  }

  lemma CollectedAround(left: seq<Job>, x: Job, right: seq<Job>)
    ensures Collected(left + [x] + right) == Collected(left) + Step(x) + Collected(right)
    ensures Collected(left + right) == Collected(left) + Collected(right)
  {
    assert Collected([x]) == Step(x) by {
      assert [x][..0] == [];
    }
    CollectedAppend(left, [x]);
    CollectedAppend(left + [x], right);
    CollectedAppend(left, right);
  }

  lemma MultisetWithout(init: seq<Job>, x: Job, left: seq<Job>, right: seq<Job>)
    requires multiset(init + [x]) == multiset(left + [x] + right)
    ensures multiset(init) == multiset(left + right)
  {
    var a, b := multiset(init), multiset(left + right);
    assert multiset(init + [x]) == a + multiset{x};
    assert multiset(left + [x] + right) == b + multiset{x};
    forall y ensures a[y] == b[y] {
      assert (a + multiset{x})[y] == a[y] + multiset{x}[y];
      assert (b + multiset{x})[y] == b[y] + multiset{x}[y];
    }
  }

  /** The completion order does not matter: any two orders of the same jobs
      collect the same names, each as often. */
  lemma {:induction false} CollectedPermutation(s: seq<Job>, t: seq<Job>)
    requires multiset(s) == multiset(t)
    ensures multiset(Collected(s)) == multiset(Collected(t))
    decreases |s|
  {
    if s == [] {
      assert |t| == |multiset(t)| == 0;
    } else {
      var init, x := s[..|s| - 1], s[|s| - 1];
      assert s == init + [x];
      assert x in multiset(t);
      var i :| 0 <= i < |t| && t[i] == x;
      var left, right := t[..i], t[i + 1..];
      assert t == left + [x] + right;
      MultisetWithout(init, x, left, right);
      CollectedPermutation(init, left + right);
      CollectedAround(left, x, right);
      assert Collected(s) == Collected(init) + Step(x);
    }
  }

  /** The collecting step exactly as `main` writes it: a success appends
      `f"{img_data['username']}_{img_data['id']}.jpeg"`, and an entry without
      `username` makes that line raise KeyError, which the loop catches, so
      nothing is appended although the worker wrote `unknown_<id>.jpeg`. */
  function StepAsWritten(j: Job): seq<string>
  {
    if !Succeeds(j) then []
    else if j.entry.username.None? then []
    else [JpegName(j.entry.username.value, IdText(j.entry.id.value))]
  }

  function CollectedAsWritten(done: seq<Job>): seq<string>
    decreases |done|
  {
    if done == [] then [] else CollectedAsWritten(done[..|done| - 1]) + StepAsWritten(done[|done| - 1])
  }

  /** An entry without `username` whose image is converted: its worker
      returns `None` and writes `unknown_5.jpeg`, yet the loop as written
      collects nothing for it, so that file never reaches the archive. */
  lemma AsWrittenDropsUnnamedSuccess()
    ensures var j := Job(Entry(Some(IdInt(5)), Some("https://image.example/5"), None, map[]), Converted);
            && DownloadAndConvert(j.entry, j.codec) == WorkerResult(None, Some("unknown_5.jpeg"))
            && CollectedAsWritten([j]) == []
            && Collected([j]) == ["unknown_5.jpeg"]
  {
    var j := Job(Entry(Some(IdInt(5)), Some("https://image.example/5"), None, map[]), Converted);
    assert Digit(5) == '5';
    assert IdText(IdInt(5)) == "5";
    assert JpegName("unknown", "5") == "unknown_5.jpeg";
    assert [j][..0] == [];
  }

  /** When every entry carries a username, the loop as written and the
      corrected one collect the same names. */
  lemma {:induction false} AsWrittenAgreesWithUsernames(done: seq<Job>)
    requires forall j :: j in done ==> j.entry.username.Some?
    ensures CollectedAsWritten(done) == Collected(done)
    decreases |done|
  {
    if done != [] {
      var init := done[..|done| - 1];
      assert forall j :: j in init ==> j in done;
      AsWrittenAgreesWithUsernames(init);
    }
  }
}

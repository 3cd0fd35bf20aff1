/** The batch driver of pass2csv: list the encrypted files, decrypt and parse them one
    by one in listing order, and hand one row per entry to the CSV writer. The first
    failure ends the whole run. The external tools (`fd` for the listing, `gpg` for
    decryption) are parameters; the CSV writer is the sequence of rows handed to it. */
module Pipeline {
  import opened TextLines
  import opened Whitespace
  import opened Entries

  datatype Option<T> = None | Some(value: T)

  /** What an external command reports: its standard output on success, or its
      exit code (none when it was killed by a signal) on failure. A zero exit is a
      success, so a real `Failure` never carries `Some(0)`; the model does not rely
      on this, and `ExitStatus` passes any code through unchanged. */
  datatype ProcessOutput = Success(stdout: string) | Failure(code: Option<int>)

  /** `output.status.code().unwrap_or(1)`. */
  function ExitStatus(code: Option<int>): int
  {
    match code
    case Some(c) => c
    case None => 1
  }

  /** Why a run stopped early: `process::exit` with a status, or the panic of
      `unwrap()` on a parse error. */
  datatype Halt = Exit(status: int) | Panic(error: ParseError)

  /** The result of loading one file. */
  datatype Load = Loaded(entry: Entry) | Halted(halt: Halt)

  /** The rows handed to the writer, and whether the run finished or was cut short. */
  datatype Outcome = Finished(rows: seq<Entry>) | Aborted(rows: seq<Entry>, halt: Halt)

  /** `Entry::from_file`: a failed decryption exits with the tool's status (or 1);
      otherwise the trimmed output is parsed, and a parse error panics. */
  function FromFile(path: string, delimiter: string, decrypt: string -> ProcessOutput): Load
  {
    match decrypt(path)
    case Failure(code) => Halted(Exit(ExitStatus(code)))
    case Success(stdout) =>
      match FromDecrypted(stdout, path, delimiter)
      case Ok(entry) => Loaded(entry)
      case Err(e) => Halted(Panic(e))
  }

  /** What loading one file can end in: an exit with the decryptor's status (or 1)
      exactly when decryption fails; a panic with `NoPassword` exactly when the
      decrypted text is whitespace only; otherwise an entry for that very path with a
      non-empty password. */
  lemma FromFileOutcomes(path: string, delimiter: string, decrypt: string -> ProcessOutput)
    ensures var r := FromFile(path, delimiter, decrypt);
            && (decrypt(path).Failure? <==> r.Halted? && r.halt.Exit?)
            && (decrypt(path).Failure? ==> r == Halted(Exit(ExitStatus(decrypt(path).code))))
            && (r == Halted(Panic(NoPassword)) <==> decrypt(path).Success? && AllWhitespace(decrypt(path).stdout))
            && (r.Loaded? ==> r.entry.filePath == path && r.entry.password != [])
  {
  }

  /** One turn of the loop of `main`: a finished run grows by the loaded entry, or
      stops at the failed load; a stopped run stays stopped. */
  function Extend(out: Outcome, load: Load): Outcome
  {
    match out
    case Aborted(_, _) => out
    case Finished(rows) =>
      match load
      case Loaded(entry) => Finished(rows + [entry])
      case Halted(halt) => Aborted(rows, halt)
  }

  /** Loading one path as the loop of `main` does it, for a given delimiter and decryptor. */
  function Loader(delimiter: string, decrypt: string -> ProcessOutput): string -> Load
  {
    path => FromFile(path, delimiter, decrypt)
  }

  /** The loop of `main` over `paths`: every path is loaded in turn and its entry
      appended to the rows, until one fails to load. */
  function Export(paths: seq<string>, load: string -> Load): Outcome
    decreases |paths|
  {
    if paths == [] then Finished([])
    else Extend(Export(paths[..|paths| - 1], load), load(paths[|paths| - 1]))
  }

  /** Once a run has stopped, later paths change nothing: no later file is decrypted. */
  lemma {:induction false} AbortedIgnoresLaterPaths(paths: seq<string>, later: seq<string>, load: string -> Load)
    requires Export(paths, load).Aborted?
    ensures Export(paths + later, load) == Export(paths, load)
    decreases |later|
  {
    if later != [] {
      var n := |later|;
      AbortedIgnoresLaterPaths(paths, later[..n - 1], load);
      assert (paths + later)[..|paths + later| - 1] == paths + later[..n - 1];
    } else {
      assert paths + later == paths;
    }
  }

  /** A finished run has one row per path, in the order of the paths, and each row
      is the entry loaded from its path; a run finishes exactly when every path loads. */
  lemma {:induction false} ExportFinished(paths: seq<string>, load: string -> Load)
    ensures var out := Export(paths, load);
            out.Finished? <==> (forall k :: 0 <= k < |paths| ==> load(paths[k]).Loaded?)
    ensures var out := Export(paths, load);
            out.Finished? ==>
              && |out.rows| == |paths|
              && (forall k :: 0 <= k < |paths| ==> Loaded(out.rows[k]) == load(paths[k]))
    decreases |paths|
  {
    if paths != [] {
      var n := |paths|;
      var init := paths[..n - 1];
      ExportFinished(init, load);
      assert forall k :: 0 <= k < n - 1 ==> init[k] == paths[k];
    }
  }

  /** An aborted run stopped at the path right after its last row: every earlier path
      loaded into its row, in order, and that path is the one that failed. */
  lemma {:induction false} ExportAborted(paths: seq<string>, load: string -> Load)
    ensures var out := Export(paths, load);
            out.Aborted? ==>
              && |out.rows| < |paths|
              && (forall k :: 0 <= k < |out.rows| ==> Loaded(out.rows[k]) == load(paths[k]))
              && load(paths[|out.rows|]) == Halted(out.halt)
    decreases |paths|
  {
    if paths != [] {
      var n := |paths|;
      var init := paths[..n - 1];
      ExportAborted(init, load);
      ExportFinished(init, load);
      assert forall k :: 0 <= k < n - 1 ==> init[k] == paths[k];
    }
  }

  /** Each row of a finished export names the file it came from, in the order of the
      paths: row `k` is the entry of path `k`. */
  lemma RowsFollowPaths(paths: seq<string>, delimiter: string, decrypt: string -> ProcessOutput)
    ensures var out := Export(paths, Loader(delimiter, decrypt));
            out.Finished? ==> |out.rows| == |paths| && forall k :: 0 <= k < |paths| ==> out.rows[k].filePath == paths[k]
  {
    var load := Loader(delimiter, decrypt);
    ExportFinished(paths, load);
    forall k | 0 <= k < |paths| && Export(paths, load).Finished?
      ensures Export(paths, load).rows[k].filePath == paths[k]
    {
      assert load(paths[k]) == FromFile(paths[k], delimiter, decrypt);
      FromFileOutcomes(paths[k], delimiter, decrypt);
    }
  }

  /** A path that fails to load, after every earlier path loaded, ends the run with
      that failure and the rows of the earlier paths, whatever the later paths are. */
  lemma ExportStopsAt(paths: seq<string>, k: nat, load: string -> Load)
    requires k < |paths|
    requires forall j :: 0 <= j < k ==> load(paths[j]).Loaded?
    requires load(paths[k]).Halted?
    ensures var out := Export(paths, load);
            out.Aborted? && |out.rows| == k && out.halt == load(paths[k]).halt
  {
    var done := paths[..k];
    assert forall j :: 0 <= j < k ==> done[j] == paths[j];
    ExportFinished(done, load);
    var upTo := paths[..k + 1];
    assert upTo[..k] == done;
    AbortedIgnoresLaterPaths(upTo, paths[k + 1..], load);
    assert upTo + paths[k + 1..] == paths;
  }

  /** A decryption failure at path `k`, after every earlier path loaded, ends the run
      with the decryptor's exit status (or 1) and the rows of the first `k` paths. */
  lemma DecryptFailureStopsRun(paths: seq<string>, k: nat, delimiter: string, decrypt: string -> ProcessOutput)
    requires k < |paths|
    requires forall j :: 0 <= j < k ==> FromFile(paths[j], delimiter, decrypt).Loaded?
    requires decrypt(paths[k]).Failure?
    ensures var out := Export(paths, Loader(delimiter, decrypt));
            out.Aborted? && |out.rows| == k && out.halt == Exit(ExitStatus(decrypt(paths[k]).code))
  {
    var load := Loader(delimiter, decrypt);
    assert forall j :: 0 <= j < k ==> load(paths[j]) == FromFile(paths[j], delimiter, decrypt);
    FromFileOutcomes(paths[k], delimiter, decrypt);
    ExportStopsAt(paths, k, load);
  }

  /** The `for` loop of `main`: loads each path (with `Entry::from_file` when `load`
      is `Loader(delimiter, decrypt)`), appends the entry to the rows handed to the
      writer, and stops at the first path that does not load. `loads` counts the
      paths it loaded: all of them when the run finishes, and none after the one
      that failed when it stops. */
  method ExportLoop(paths: seq<string>, load: string -> Load) returns (out: Outcome, loads: nat)
    ensures out == Export(paths, load)
    ensures out.Finished? ==> loads == |paths|
    ensures out.Aborted? ==> loads == |out.rows| + 1 && loads <= |paths|
  {
    var rows: seq<Entry> := [];
    var i := 0;
    loads := 0;
    while i < |paths|
      invariant 0 <= i <= |paths|
      invariant loads == i == |rows|
      invariant Export(paths[..i], load) == Finished(rows)
    {
      assert paths[..i + 1][..i] == paths[..i];
      var entry := load(paths[i]);
      loads := loads + 1;
      if entry.Halted? {
        out := Aborted(rows, entry.halt);
        AbortedIgnoresLaterPaths(paths[..i + 1], paths[i + 1..], load);
        assert paths[..i + 1] + paths[i + 1..] == paths;
        return;
      }
      rows := rows + [entry.entry];
      i := i + 1;
    }
    assert paths[..i] == paths;
    out := Finished(rows);
  }

  /** `main` after argument parsing: a failed listing exits with its status (or 1)
      before any file is touched; otherwise the listing's lines are exported in order. */
  method Run(listing: ProcessOutput, delimiter: string, decrypt: string -> ProcessOutput) returns (out: Outcome)
    ensures listing.Failure? ==> out == Aborted([], Exit(ExitStatus(listing.code)))
    ensures listing.Success? ==> out == Export(Lines(listing.stdout), Loader(delimiter, decrypt))
  {
    match listing
    case Failure(code) =>
      out := Aborted([], Exit(ExitStatus(code)));
    case Success(stdout) =>
      var loads;
      out, loads := ExportLoop(Lines(stdout), Loader(delimiter, decrypt));
  }
}

/**
 * The batch conversion worker: it collects the HEIC files of a directory walk, hands them to the
 * codec one at a time, and reports `ConversionStarted`, one `ProgressUpdate` per converted file
 * and a single terminal `ConversionComplete` or `ConversionFailed` to the front end.
 */
module ConversionWorker {
  import opened Wrappers
  import opened Paths

  /** A readable item of the walk: its path, and whether `is_file` held for it. */
  datatype DirEntry = DirEntry(path: Path, isFile: bool)

  /** What the walk yields per step: an entry that could not be read, or a readable entry. */
  datatype WalkEntry = Unreadable(reason: string) | Readable(entry: DirEntry)

  /** The recursive walk of a root, in the order the traversal yields it (filesystem oracle). */
  type Walk = Path -> seq<WalkEntry>

  /** The one inbound message: convert everything under `input` into `output`. */
  datatype WorkerInput = ConvertFolder(input: Path, output: Path)

  /** A progress value `done / total`, kept as the pair the fraction is computed from. */
  datatype Fraction = Fraction(done: nat, total: nat)

  /** The outbound messages. */
  datatype WorkerMsg =
    | ConversionStarted(count: nat)
    | ProgressUpdate(progress: Fraction)
    | ConversionComplete
    | ConversionFailed(reason: string)

  predicate IsTerminal(msg: WorkerMsg) {
    msg.ConversionComplete? || msg.ConversionFailed?
  }

  /** One call of the codec: read `source`, write it as JPEG to `target`. */
  datatype Conversion = Conversion(source: Path, target: Path)

  /**
   * The codec, as an oracle: the outcome of the call made at a given position of the batch. An
   * error carries the text of the codec's error.
   */
  type Engine = (nat, Conversion) -> Outcome<string>

  /** What the worker reports and which codec calls it makes for one job. */
  datatype Batch = Batch(events: seq<WorkerMsg>, calls: seq<Conversion>)

  // ---------------------------------------------------------------------------------------------
  // File selection

  /** A file name whose extension is "heic" in any ASCII case. */
  predicate IsHeicName(file: string) {
    match Extension(file)
    case None => false
    case Some(ext) => EqIgnoreAsciiCase(ext, "heic")
  }

  predicate HasHeicExtension(p: Path) {
    FileName(p).Some? && IsHeicName(FileName(p).value)
  }

  predicate AllHeic(files: seq<Path>) {
    forall i | 0 <= i < |files| :: HasHeicExtension(files[i])
  }

  /** The walk entries the worker keeps: readable, a regular file, and a HEIC extension. */
  predicate IsCandidate(w: WalkEntry) {
    w.Readable? && w.entry.isFile && HasHeicExtension(w.entry.path)
  }

  /** The candidate list, in walk order. */
  function Candidates(walk: seq<WalkEntry>): (files: seq<Path>)
    ensures |files| <= |walk|
    ensures AllHeic(files)
  {
    if walk == [] then []
    else (if IsCandidate(walk[0]) then [walk[0].entry.path] else []) + Candidates(walk[1..])
  }

  /** The candidate filter distributes over concatenation of walks; with the one-entry case this
      fixes both the contents and the order of the list. */
  lemma {:induction false} CandidatesAppend(a: seq<WalkEntry>, b: seq<WalkEntry>)
    ensures Candidates(a + b) == Candidates(a) + Candidates(b)
    ensures Candidates([]) == []
    ensures |a| == 1 ==> Candidates(a) == if IsCandidate(a[0]) then [a[0].entry.path] else []
  {
    if a == [] {
      assert a + b == b;
    } else {
      assert (a + b)[1..] == a[1..] + b;
      CandidatesAppend(a[1..], b);
      if |a| == 1 {
        assert a[1..] == [];
      }
    }
  }

  /** A path is a candidate exactly when some readable regular-file entry with a HEIC extension
      has it. */
  lemma {:induction false} CandidateMembership(walk: seq<WalkEntry>, p: Path)
    ensures p in Candidates(walk) <==>
      exists j :: 0 <= j < |walk| && IsCandidate(walk[j]) && walk[j].entry.path == p
  {
    if walk != [] {
      CandidateMembership(walk[1..], p);
      if p in Candidates(walk[1..]) {
        var j :| 0 <= j < |walk[1..]| && IsCandidate(walk[1..][j]) && walk[1..][j].entry.path == p;
        assert walk[j + 1] == walk[1..][j];
      }
      if exists j :: 0 <= j < |walk| && IsCandidate(walk[j]) && walk[j].entry.path == p {
        var j :| 0 <= j < |walk| && IsCandidate(walk[j]) && walk[j].entry.path == p;
        if j > 0 {
          assert walk[1..][j - 1] == walk[j];
        }
      }
    }
  }

  /** An unreadable entry anywhere in the walk is skipped without affecting the list. */
  lemma UnreadableSkipped(a: seq<WalkEntry>, reason: string, b: seq<WalkEntry>)
    ensures Candidates(a + [Unreadable(reason)] + b) == Candidates(a + b)
  {
    CandidatesAppend(a + [Unreadable(reason)], b);
    CandidatesAppend(a, [Unreadable(reason)]);
    CandidatesAppend([Unreadable(reason)], []);
    CandidatesAppend(a, b);
  }

  /** The selection rule on names: at least one character, a dot, then a four-letter extension
      that is "heic" up to ASCII case. */
  lemma HeicNames(file: string)
    ensures IsHeicName(file) <==>
      |file| >= 6 && file[|file| - 5] == '.' && EqIgnoreAsciiCase(file[|file| - 4..], "heic")
  {
    if IsHeicName(file) {
      HeicNameShape(file);
    }
    if |file| >= 6 && file[|file| - 5] == '.' && EqIgnoreAsciiCase(file[|file| - 4..], "heic") {
      HeicShapeName(file);
    }
  }

  /** A HEIC name ends in a dot and four letters spelling "heic", after at least one character. */
  lemma HeicNameShape(file: string)
    requires IsHeicName(file)
    ensures |file| >= 6 && file[|file| - 5] == '.' && EqIgnoreAsciiCase(file[|file| - 4..], "heic")
  {
    StemExtensionRoundTrip(file);
    var stem, ext := Stem(file), Extension(file).value;
    assert file == stem + "." + ext;
    assert |ext| == 4;
    assert file[|file| - 5] == (stem + "." + ext)[|stem|];
    assert file[|file| - 4..] == ext;
  }

  /** Conversely, such a name has the extension made of its last four letters. */
  lemma HeicShapeName(file: string)
    requires |file| >= 6 && file[|file| - 5] == '.' && EqIgnoreAsciiCase(file[|file| - 4..], "heic")
    ensures IsHeicName(file)
  {
    var ext := file[|file| - 4..];
    HeicSpellings(ext);
    assert '.' !in ext;
    assert file == file[..|file| - 5] + "." + ext;
    SplitIsExtension(file, file[..|file| - 5], ext);
  }

  /** Consequences of the rule: upper case counts. */
  lemma HeicNamesAnyCase()
    ensures IsHeicName("x.heic") && IsHeicName("X.HEIC")
  {
    assert "x.heic" == "x" + "." + "heic";
    assert "X.HEIC" == "X" + "." + "HEIC";
    assert EqIgnoreAsciiCase("HEIC", "heic") by {
      HeicSpellings("HEIC");
    }
    HeicSuffix("x", "heic");
    HeicSuffix("X", "HEIC");
  }

  /** A name with several dots is judged by its last extension. */
  lemma HeicNameWithInnerDot()
    ensures IsHeicName("a.b.heic")
  {
    assert "a.b.heic" == "a.b" + "." + "heic";
    HeicSuffix("a.b", "heic");
  }

  /** A non-empty base, a dot, and a HEIC spelling. */
  lemma HeicSuffix(base: string, ext: string)
    requires base != "" && EqIgnoreAsciiCase(ext, "heic")
    ensures IsHeicName(base + "." + ext)
  {
    HeicSpellings(ext);
    var file := base + "." + ext;
    assert file[|file| - 5] == '.' && file[|file| - 4..] == ext;
    HeicNames(file);
  }

  /** A bare ".heic" dotfile has no extension at all, and only the last extension is looked at. */
  lemma HeicNamesRejected()
    ensures !IsHeicName(".heic") && !IsHeicName("heic") && !IsHeicName("x.heic.png")
  {
    HeicNames(".heic");
    HeicNames("heic");
    HeicNames("x.heic.png");
  }

  // ---------------------------------------------------------------------------------------------
  // Output naming

  /**
   * The target path as the worker computes it: the output root joined with the source's stem,
   * then `with_extension("jpg")`, which cuts the joined name back to ITS stem again.
   */
  function OutputPathAsWritten(outputRoot: Path, source: Path): Path
    requires FileName(source).Some? && '/' !in FileName(source).value
  {
    WithExtension(Join(outputRoot, Stem(FileName(source).value)), "jpg")
  }

  /**
   * The target path as intended: a file directly under the output root whose name is the
   * source's stem followed by ".jpg".
   */
  function OutputPath(outputRoot: Path, source: Path): Path
    requires FileName(source).Some?
  {
    var stem := Stem(FileName(source).value);
    outputRoot + [Normal(stem + ".jpg")]
  }

  /** The intended target lies directly under the output root as an ordinary file name (never
      "." or ".."), keeps the source's stem, and has the extension "jpg". */
  lemma OutputPathPlacement(outputRoot: Path, source: Path)
    requires FileName(source).Some? && FileName(source).value != ""
    ensures var target := OutputPath(outputRoot, source);
      && |target| == |outputRoot| + 1 && target[..|outputRoot|] == outputRoot
      && FileName(target).Some?
      && Stem(FileName(target).value) == Stem(FileName(source).value)
      && Extension(FileName(target).value) == Some("jpg")
    ensures ValidPath(source) ==> IsName(FileName(OutputPath(outputRoot, source)).value)
    ensures ValidPath(outputRoot) && ValidPath(source) ==> ValidPath(OutputPath(outputRoot, source))
  {
    var stem := Stem(FileName(source).value);
    SplitIsExtension(stem + ".jpg", stem, "jpg");
    var name := stem + ".jpg";
    assert |name| >= 5;
    assert name[|name| - 1] == 'g';
  }

  /** The intended target depends only on the source's stem, not on the directory it was found
      in: two sources share a target exactly when their stems are equal. As written, equal stems
      collide too. */
  lemma SameStemSameTarget(outputRoot: Path, a: Path, b: Path)
    requires FileName(a).Some? && FileName(b).Some?
    requires '/' !in FileName(a).value && '/' !in FileName(b).value
    ensures OutputPath(outputRoot, a) == OutputPath(outputRoot, b)
        <==> Stem(FileName(a).value) == Stem(FileName(b).value)
    ensures Stem(FileName(a).value) == Stem(FileName(b).value) ==>
      OutputPathAsWritten(outputRoot, a) == OutputPathAsWritten(outputRoot, b)
  {
    var sa, sb := Stem(FileName(a).value), Stem(FileName(b).value);
    if OutputPath(outputRoot, a) == OutputPath(outputRoot, b) {
      assert OutputPath(outputRoot, a)[|outputRoot|] == Normal(sa + ".jpg");
      assert OutputPath(outputRoot, b)[|outputRoot|] == Normal(sb + ".jpg");
      assert sa == (sa + ".jpg")[..|sa|];
      assert sb == (sb + ".jpg")[..|sb|];
    }
  }

  /** As written, a stem other than "." and ".." is joined as one more component, and
      `with_extension` then replaces that component by the stem's own stem plus ".jpg". */
  lemma AsWrittenOfPlainStem(outputRoot: Path, source: Path)
    requires FileName(source).Some? && FileName(source).value != "" && '/' !in FileName(source).value
    requires var stem := Stem(FileName(source).value); stem != "." && stem != ".."
    ensures var stem := Stem(FileName(source).value);
      OutputPathAsWritten(outputRoot, source) == outputRoot + [Normal(Stem(stem) + ".jpg")]
  {
    var stem := Stem(FileName(source).value);
    var joined := Join(outputRoot, stem);
    assert joined == outputRoot + [Normal(stem)];
    assert joined[..|joined| - 1] == outputRoot;
    assert Stem(stem) + "." + "jpg" == Stem(stem) + ".jpg";
  }

  /** Both namings agree whenever the stem has no extension of its own and is not a dot entry. */
  lemma AsWrittenAgreesOnPlainStems(outputRoot: Path, source: Path)
    requires FileName(source).Some? && FileName(source).value != "" && '/' !in FileName(source).value
    requires PlainStem(Stem(FileName(source).value))
    ensures OutputPathAsWritten(outputRoot, source) == OutputPath(outputRoot, source)
  {
    AsWrittenOfPlainStem(outputRoot, source);
    StemExtensionRoundTrip(Stem(FileName(source).value));
  }

  /** As written, a stem that still has an extension loses it too, so the target differs from the
      intended one: "a.b.heic" is written as "a.jpg". */
  lemma AsWrittenStripsInnerExtension(outputRoot: Path, source: Path)
    requires FileName(source).Some? && '/' !in FileName(source).value
    requires var stem := Stem(FileName(source).value);
      stem != "." && stem != ".." && Extension(stem).Some?
    ensures var stem := Stem(FileName(source).value);
      OutputPathAsWritten(outputRoot, source) == outputRoot + [Normal(Stem(stem) + ".jpg")]
    ensures OutputPathAsWritten(outputRoot, source) != OutputPath(outputRoot, source)
  {
    var stem := Stem(FileName(source).value);
    AsWrittenOfPlainStem(outputRoot, source);
    StemExtensionRoundTrip(stem);
    var written := OutputPathAsWritten(outputRoot, source);
    var intended := OutputPath(outputRoot, source);
    assert |written[|outputRoot|].name| < |intended[|outputRoot|].name|;
  }

  /** A source named `a.<x>.heic` is written as "a.jpg" but intended as "a.<x>.jpg". */
  lemma CollisionCase(out: Path, name: string, stem: string, inner: string)
    requires name == stem + ".heic" && stem == "a." + inner && inner != "" && '.' !in inner && '/' !in inner
    ensures ValidPath([Normal(name)]) && Stem(name) == stem
    ensures OutputPathAsWritten(out, [Normal(name)]) == out + [Normal("a.jpg")]
  {
    assert "a" + ".jpg" == "a.jpg";
    assert name == stem + "." + "heic";
    SplitIsExtension(name, stem, "heic");
    assert stem == "a" + "." + inner;
    SplitIsExtension(stem, "a", inner);
    assert ValidPath([Normal(name)]) by {
      assert '/' !in name;
    }
    AsWrittenOfPlainStem(out, [Normal(name)]);
  }

  /** Two sources "a.b.heic" and "a.c.heic" share the as-written target `<out>/a.jpg`, though
      their intended targets `<out>/a.b.jpg` and `<out>/a.c.jpg` differ. */
  lemma AsWrittenCollision(out: Path)
    ensures OutputPathAsWritten(out, [Normal("a.b.heic")]) == out + [Normal("a.jpg")]
    ensures OutputPathAsWritten(out, [Normal("a.c.heic")]) == out + [Normal("a.jpg")]
    ensures OutputPath(out, [Normal("a.b.heic")]) != OutputPath(out, [Normal("a.c.heic")])
  {
    assert "a.b" + ".heic" == "a.b.heic" && "a." + "b" == "a.b";
    assert "a.c" + ".heic" == "a.c.heic" && "a." + "c" == "a.c";
    CollisionCase(out, "a.b.heic", "a.b", "b");
    CollisionCase(out, "a.c.heic", "a.c", "c");
    assert "a.b"[2] != "a.c"[2];
    SameStemSameTarget(out, [Normal("a.b.heic")], [Normal("a.c.heic")]);
  }

  /** As written, a stem "." (file "..heic") makes `with_extension` act on the output root itself:
      the target is not inside the output root but at its depth (for `/home/out`, `/home/out.jpg`;
      a root without a file name, such as `/`, comes back unchanged). */
  lemma AsWrittenEscapesOutputRoot(outputRoot: Path, source: Path)
    requires FileName(source).Some? && '/' !in FileName(source).value && Stem(FileName(source).value) == "."
    requires |outputRoot| > 0
    ensures OutputPathAsWritten(outputRoot, source) == WithExtension(outputRoot, "jpg")
    ensures |OutputPathAsWritten(outputRoot, source)| == |outputRoot|
    ensures FileName(outputRoot).None? ==> OutputPathAsWritten(outputRoot, source) == outputRoot
    ensures |OutputPath(outputRoot, source)| == |outputRoot| + 1
  {
  }

  /** A source named "..heic" converted into `<parent>/<dir>`, with a dot-free `<dir>`, is written
      to `<parent>/<dir>.jpg` rather than `<parent>/<dir>/..jpg`. */
  lemma EscapeCase(parent: Path, dir: string, name: string)
    requires IsName(dir) && '.' !in dir && name == "." + "." + "heic"
    ensures OutputPathAsWritten(parent + [Normal(dir)], [Normal(name)]) == parent + [Normal(dir + ".jpg")]
    ensures OutputPath(parent + [Normal(dir)], [Normal(name)]) == parent + [Normal(dir), Normal("." + ".jpg")]
  {
    var out := parent + [Normal(dir)];
    SplitIsExtension(name, ".", "heic");
    NoExtensionCases(dir);
    assert ValidPath([Normal(name)]);
    AsWrittenEscapesOutputRoot(out, [Normal(name)]);
    assert out[..|out| - 1] == parent;
    assert dir + "." + "jpg" == dir + ".jpg";
  }

  /** Whatever the output folder's name, "..heic" converted into `<parent>/<dir>` is written to
      `<parent>/<stem of dir>.jpg`: a dotted folder such as `my.photos` loses its own extension. */
  lemma EscapeCaseAnyFolder(parent: Path, dir: string, name: string)
    requires IsName(dir) && name == "." + "." + "heic"
    ensures OutputPathAsWritten(parent + [Normal(dir)], [Normal(name)]) == parent + [Normal(Stem(dir) + ".jpg")]
  {
    var out := parent + [Normal(dir)];
    SplitIsExtension(name, ".", "heic");
    assert ValidPath([Normal(name)]);
    AsWrittenEscapesOutputRoot(out, [Normal(name)]);
    assert out[..|out| - 1] == parent;
    assert FileName(out) == Some(dir);
    assert Stem(dir) + "." + "jpg" == Stem(dir) + ".jpg";
  }

  /** A dotted output folder loses its extension too: "..heic" converted into
      `<parent>/<base>.<ext>` is written to `<parent>/<base>.jpg`. */
  lemma EscapeDottedFolder(parent: Path, base: string, ext: string, dir: string)
    requires dir == base + "." + ext && IsName(dir) && base != "" && '.' !in ext
    ensures OutputPathAsWritten(parent + [Normal(dir)], [Normal("..heic")]) == parent + [Normal(base + ".jpg")]
  {
    SplitIsExtension(dir, base, ext);
    assert "..heic" == "." + "." + "heic";
    EscapeCaseAnyFolder(parent, dir, "..heic");
  }

  /** The concrete case: "..heic" converted into "home/my.photos" is written to "home/my.jpg". */
  lemma EscapeDottedFolderExample()
    ensures OutputPathAsWritten([Normal("home"), Normal("my.photos")], [Normal("..heic")])
         == [Normal("home"), Normal("my.jpg")]
  {
    assert "my.photos" == "my" + "." + "photos" && '.' !in "photos";
    assert "my" + ".jpg" == "my.jpg";
    assert [Normal("home")] + [Normal("my.photos")] == [Normal("home"), Normal("my.photos")];
    EscapeDottedFolder([Normal("home")], "my", "photos", "my.photos");
  }

  /** The concrete case: "..heic" converted into "/home/out" is written to "/home/out.jpg". */
  lemma AsWrittenEscapeExample()
    ensures OutputPathAsWritten([RootDir, Normal("home"), Normal("out")], [Normal("..heic")])
         == [RootDir, Normal("home"), Normal("out.jpg")]
  {
    assert "out" + ".jpg" == "out.jpg" && "." + "." + "heic" == "..heic";
    assert [RootDir, Normal("home")] + [Normal("out")] == [RootDir, Normal("home"), Normal("out")];
    EscapeCase([RootDir, Normal("home")], "out", "..heic");
  }

  /** As written, a stem ".." (file "...heic") makes the target the output root's parent
      directory itself, which `with_extension` leaves alone. */
  lemma AsWrittenTargetsParentDirectory(outputRoot: Path, source: Path)
    requires FileName(source).Some? && '/' !in FileName(source).value && Stem(FileName(source).value) == ".."
    ensures OutputPathAsWritten(outputRoot, source) == outputRoot + [ParentDir]
    ensures OutputPath(outputRoot, source) == outputRoot + [Normal("...jpg")]
  {
    assert ".." + ".jpg" == "...jpg";
  }

  /** The concrete case: "...heic" has the stem "..". */
  lemma AsWrittenParentExample()
    ensures Stem("...heic") == ".."
    ensures OutputPathAsWritten([Normal("out")], [Normal("...heic")]) == [Normal("out"), ParentDir]
  {
    SplitIsExtension("...heic", "..", "heic");
  }

  // ---------------------------------------------------------------------------------------------
  // The batch

  /** The codec call the batch makes for the i-th file. */
  function Planned(files: seq<Path>, outputRoot: Path, i: nat): Conversion
    requires i < |files| && AllHeic(files)
  {
    Conversion(files[i], OutputPath(outputRoot, files[i]))
  }

  /**
   * The codec calls of a batch, one per file in candidate order. The worker computes each target
   * just before its call; the target is a pure function of the file, so computing them up front
   * changes nothing.
   */
  function AllPlanned(files: seq<Path>, outputRoot: Path): (calls: seq<Conversion>)
    requires AllHeic(files)
    ensures |calls| == |files|
    ensures forall i | 0 <= i < |calls| ::
      calls[i].source == files[i] && calls[i].target == OutputPath(outputRoot, files[i])
  {
    seq(|files|, i requires 0 <= i < |files| => Planned(files, outputRoot, i))
  }

  /** The first `k` progress reports of a batch of `n` files: 1/n, 2/n, ..., k/n. */
  function ProgressTrace(n: nat, k: nat): seq<WorkerMsg> {
    seq(k, j requires 0 <= j => ProgressUpdate(Fraction(j + 1, n)))
  }

  /** The codec succeeds on the calls at positions `from` up to (not including) `to`. */
  predicate SucceedsBetween(calls: seq<Conversion>, engine: Engine, from: nat, to: nat)
    requires to <= |calls|
  {
    forall j | from <= j < to :: engine(j, calls[j]).Pass?
  }

  /** Position `k` is the first one from `i` on where the codec rejects its call, with error
      `reason`. */
  predicate FailsFirstAt(calls: seq<Conversion>, engine: Engine, i: nat, k: nat, reason: string) {
    && i <= k < |calls|
    && SucceedsBetween(calls, engine, i, k)
    && engine(k, calls[k]) == Fail(reason)
  }

  /** What the conversion loop produces from position `i` on: progress reports, the codec calls
      made, and the loop's own result. */
  datatype Run = Run(events: seq<WorkerMsg>, calls: seq<Conversion>, result: Outcome<string>)

  /**
   * The conversion loop from position `i`: make the call, stop at the first codec error,
   * otherwise report (i + 1)/n and go on.
   */
  function ConvertFiles(calls: seq<Conversion>, engine: Engine, i: nat): (r: Run)
    requires i <= |calls|
    ensures |r.calls| <= |calls| - i
    ensures r.result.Pass? ==> |r.calls| == |calls| - i && |r.events| == |r.calls|
    ensures r.result.Fail? ==> |r.calls| == |r.events| + 1
    decreases |calls| - i
  {
    if i == |calls| then Run([], [], Pass)
    else
      match engine(i, calls[i])
      case Fail(e) => Run([], [calls[i]], Fail(e))
      case Pass =>
        var rest := ConvertFiles(calls, engine, i + 1);
        Run([ProgressUpdate(Fraction(i + 1, |calls|))] + rest.events, [calls[i]] + rest.calls, rest.result)
  }

  /** The loop makes the calls from position i on, in order and without gaps. */
  lemma {:induction false} ConvertFilesCalls(calls: seq<Conversion>, engine: Engine, i: nat)
    requires i <= |calls|
    ensures ConvertFiles(calls, engine, i).calls == calls[i..i + |ConvertFiles(calls, engine, i).calls|]
    decreases |calls| - i
  {
    if i < |calls| && engine(i, calls[i]).Pass? {
      ConvertFilesCalls(calls, engine, i + 1);
      var rest := ConvertFiles(calls, engine, i + 1);
      assert calls[i..i + 1 + |rest.calls|] == [calls[i]] + calls[i + 1..i + 1 + |rest.calls|];
    }
  }

  /** The loop's k-th report is (i + k + 1)/n. */
  lemma {:induction false} ConvertFilesEvents(calls: seq<Conversion>, engine: Engine, i: nat)
    requires i <= |calls|
    ensures ConvertFiles(calls, engine, i).events
         == ProgressTrace(|calls|, i + |ConvertFiles(calls, engine, i).events|)[i..]
    decreases |calls| - i
  {
    if i < |calls| && engine(i, calls[i]).Pass? {
      ConvertFilesEvents(calls, engine, i + 1);
      var r := ConvertFiles(calls, engine, i);
      var rest := ConvertFiles(calls, engine, i + 1);
      var m := i + |r.events|;
      assert r.events == [ProgressUpdate(Fraction(i + 1, |calls|))] + rest.events;
      assert ProgressTrace(|calls|, m)[i..] == [ProgressUpdate(Fraction(i + 1, |calls|))] + ProgressTrace(|calls|, m)[i + 1..];
    }
  }

  /** The loop succeeds exactly when the codec accepts every remaining call. */
  lemma {:induction false} ConvertFilesPasses(calls: seq<Conversion>, engine: Engine, i: nat)
    requires i <= |calls|
    ensures ConvertFiles(calls, engine, i).result.Pass? <==> SucceedsBetween(calls, engine, i, |calls|)
    decreases |calls| - i
  {
    if i < |calls| && engine(i, calls[i]).Pass? {
      ConvertFilesPasses(calls, engine, i + 1);
    }
  }

  /** When the loop fails, its reports stop just before the first call the codec rejected, and
      the loop's error is the codec's error for that call. */
  lemma {:induction false} ConvertFilesFails(calls: seq<Conversion>, engine: Engine, i: nat)
    requires i <= |calls|
    requires ConvertFiles(calls, engine, i).result.Fail?
    ensures FailsFirstAt(calls, engine, i, i + |ConvertFiles(calls, engine, i).events|,
                         ConvertFiles(calls, engine, i).result.error)
    decreases |calls| - i
  {
    if engine(i, calls[i]).Pass? {
      ConvertFilesFails(calls, engine, i + 1);
    }
  }

  /** `convert_folder`: collect the candidates, report their number, run the loop. */
  function ConvertFolderRun(walk: seq<WalkEntry>, outputRoot: Path, engine: Engine): Run {
    var files := Candidates(walk);
    var loop := ConvertFiles(AllPlanned(files, outputRoot), engine, 0);
    Run([ConversionStarted(|files|)] + loop.events, loop.calls, loop.result)
  }

  /** The terminal message for the loop's result. */
  function Terminal(result: Outcome<string>): WorkerMsg {
    match result
    case Pass => ConversionComplete
    case Fail(e) => ConversionFailed(e)
  }

  /** `Worker::update`: one job, from its inbound message to its complete outbound trace. */
  function Update(msg: WorkerInput, walk: Walk, engine: Engine): Batch {
    match msg
    case ConvertFolder(input, output) =>
      var run := ConvertFolderRun(walk(input), output, engine);
      Batch(run.events + [Terminal(run.result)], run.calls)
  }

  // ---------------------------------------------------------------------------------------------
  // The trace of a job

  /** The codec calls a job plans: one per candidate of the walk of its input folder. */
  function JobPlan(msg: WorkerInput, walk: Walk): (plan: seq<Conversion>)
    ensures |plan| == |Candidates(walk(msg.input))|
    ensures forall i | 0 <= i < |plan| :: plan[i].source == Candidates(walk(msg.input))[i]
  {
    AllPlanned(Candidates(walk(msg.input)), msg.output)
  }

  /** A stem for which the code's naming and the `<stem>.jpg` naming coincide. */
  predicate PlainStem(stem: string) {
    stem != "." && stem != ".." && Extension(stem).None?
  }

  /** The job's i-th call converts the i-th candidate; when that candidate's stem is plain, its
      target is also exactly the one the code computes with `join` and `with_extension`. */
  lemma PlanAgreesWithCode(msg: WorkerInput, walk: Walk, i: nat)
    requires i < |JobPlan(msg, walk)|
    requires var f := Candidates(walk(msg.input))[i];
      '/' !in FileName(f).value && PlainStem(Stem(FileName(f).value))
    ensures JobPlan(msg, walk)[i].source == Candidates(walk(msg.input))[i]
    ensures JobPlan(msg, walk)[i].target == OutputPathAsWritten(msg.output, Candidates(walk(msg.input))[i])
  {
    var f := Candidates(walk(msg.input))[i];
    PlanTarget(msg, walk, i);
    HeicNameShape(FileName(f).value);
    AsWrittenAgreesOnPlainStems(msg.output, f);
  }

  /** The job's i-th call converts the i-th candidate into its `<stem>.jpg` target. */
  lemma PlanTarget(msg: WorkerInput, walk: Walk, i: nat)
    requires i < |JobPlan(msg, walk)|
    ensures JobPlan(msg, walk)[i]
         == Conversion(Candidates(walk(msg.input))[i], OutputPath(msg.output, Candidates(walk(msg.input))[i]))
  {
  }

  /**
   * The shape every job's trace has: `ConversionStarted(n)` first; then progress reports
   * 1/n, 2/n, ... (at most n of them); then one terminal message, last.
   */
  predicate WellFormedTrace(events: seq<WorkerMsg>, n: nat) {
    && 2 <= |events| <= n + 2
    && events[0] == ConversionStarted(n)
    && (forall k | 1 <= k < |events| - 1 :: events[k] == ProgressUpdate(Fraction(k, n)))
    && IsTerminal(events[|events| - 1])
  }

  /** Progress values in a trace stay within 1..n, share the total n, and strictly increase. */
  predicate ProgressIncreasing(events: seq<WorkerMsg>, n: nat) {
    && (forall i | 0 <= i < |events| && events[i].ProgressUpdate? ::
          1 <= events[i].progress.done <= n && events[i].progress.total == n)
    && (forall i, j | 0 <= i < j < |events| && events[i].ProgressUpdate? && events[j].ProgressUpdate? ::
          events[i].progress.done < events[j].progress.done)
  }

  /** Two first failures from the same position are the same failure. */
  lemma FirstFailureUnique(calls: seq<Conversion>, engine: Engine, i: nat, k: nat, k': nat, reason: string, reason': string)
    requires FailsFirstAt(calls, engine, i, k, reason) && FailsFirstAt(calls, engine, i, k', reason')
    ensures k == k' && reason == reason'
  {
  }

  /** A job the codec never fails: `Started(n)`, 1/n ... n/n, `Complete`; every candidate
      converted once, in candidate order. */
  lemma WorkerSucceeds(msg: WorkerInput, walk: Walk, engine: Engine)
    requires SucceedsBetween(JobPlan(msg, walk), engine, 0, |JobPlan(msg, walk)|)
    ensures var n := |Candidates(walk(msg.input))|;
      Update(msg, walk, engine) ==
        Batch([ConversionStarted(n)] + ProgressTrace(n, n) + [ConversionComplete], JobPlan(msg, walk))
  {
    var plan := JobPlan(msg, walk);
    ConvertFilesPasses(plan, engine, 0);
    ConvertFilesEvents(plan, engine, 0);
    ConvertFilesCalls(plan, engine, 0);
    assert plan[0..|plan|] == plan;
  }

  /** A job whose first codec error is on candidate k (counting from 0): `Started(n)`, the first
      k progress reports, `Failed(reason)`; exactly k + 1 codec calls, none after the error. */
  lemma WorkerFailsAt(msg: WorkerInput, walk: Walk, engine: Engine, k: nat, reason: string)
    requires FailsFirstAt(JobPlan(msg, walk), engine, 0, k, reason)
    ensures var n := |Candidates(walk(msg.input))|;
      Update(msg, walk, engine) ==
        Batch([ConversionStarted(n)] + ProgressTrace(n, k) + [ConversionFailed(reason)], JobPlan(msg, walk)[..k + 1])
  {
    var plan := JobPlan(msg, walk);
    var loop := ConvertFiles(plan, engine, 0);
    ConvertFilesPasses(plan, engine, 0);
    assert !SucceedsBetween(plan, engine, 0, |plan|) by {
      assert engine(k, plan[k]).Fail?;
    }
    ConvertFilesFails(plan, engine, 0);
    FirstFailureUnique(plan, engine, 0, k, |loop.events|, reason, loop.result.error);
    ConvertFilesEvents(plan, engine, 0);
    ConvertFilesCalls(plan, engine, 0);
    assert ProgressTrace(|plan|, k)[0..] == ProgressTrace(|plan|, k);
  }

  /** No candidates: exactly `Started(0)`, `Complete`, and no codec call. */
  lemma WorkerEmpty(msg: WorkerInput, walk: Walk, engine: Engine)
    requires Candidates(walk(msg.input)) == []
    ensures Update(msg, walk, engine) == Batch([ConversionStarted(0), ConversionComplete], [])
  {
    WorkerSucceeds(msg, walk, engine);
    assert ProgressTrace(0, 0) == [];
  }

  /**
   * What a job's batch looks like against its plan: the trace is well formed for n = the number
   * of planned calls, and the calls made are a prefix of the plan. It ends in `Complete` exactly
   * when the codec accepts every planned call, and then all of them are made; when it ends in
   * `Failed(e)`, the last call made is the first the codec rejects, with error e.
   */
  predicate FitsPlan(b: Batch, plan: seq<Conversion>, engine: Engine) {
    && WellFormedTrace(b.events, |plan|)
    && |b.calls| <= |plan|
    && b.calls == plan[..|b.calls|]
    && (b.events[|b.events| - 1] == ConversionComplete <==> SucceedsBetween(plan, engine, 0, |plan|))
    && (b.events[|b.events| - 1] == ConversionComplete ==> b.calls == plan)
    && (b.events[|b.events| - 1].ConversionFailed? ==>
          |b.calls| > 0 && FailsFirstAt(plan, engine, 0, |b.calls| - 1, b.events[|b.events| - 1].reason))
  }

  /** Every job's batch fits its plan, whose length is the number of candidates. */
  lemma TraceShape(msg: WorkerInput, walk: Walk, engine: Engine)
    ensures FitsPlan(Update(msg, walk, engine), JobPlan(msg, walk), engine)
    ensures WellFormedTrace(Update(msg, walk, engine).events, |Candidates(walk(msg.input))|)
  {
    var plan := JobPlan(msg, walk);
    if SucceedsBetween(plan, engine, 0, |plan|) {
      WorkerSucceeds(msg, walk, engine);
      SuccessShape(Update(msg, walk, engine), plan, engine);
    } else {
      ConvertFilesPasses(plan, engine, 0);
      var loop := ConvertFiles(plan, engine, 0);
      ConvertFilesFails(plan, engine, 0);
      WorkerFailsAt(msg, walk, engine, |loop.events|, loop.result.error);
      FailureShape(Update(msg, walk, engine), plan, engine, |loop.events|, loop.result.error);
    }
  }

  /** A successful batch fits its plan. */
  lemma SuccessShape(b: Batch, plan: seq<Conversion>, engine: Engine)
    requires SucceedsBetween(plan, engine, 0, |plan|)
    requires b == Batch([ConversionStarted(|plan|)] + ProgressTrace(|plan|, |plan|) + [ConversionComplete], plan)
    ensures FitsPlan(b, plan, engine)
  {
  }

  /** A batch whose first codec error is on call k fits its plan. */
  lemma FailureShape(b: Batch, plan: seq<Conversion>, engine: Engine, k: nat, reason: string)
    requires FailsFirstAt(plan, engine, 0, k, reason)
    requires b == Batch([ConversionStarted(|plan|)] + ProgressTrace(|plan|, k) + [ConversionFailed(reason)], plan[..k + 1])
    ensures FitsPlan(b, plan, engine)
    ensures b.events[|b.events| - 1] == ConversionFailed(reason)
  {
    assert !engine(k, plan[k]).Pass?;
  }

  /** A well-formed trace has exactly one `ConversionStarted` and exactly one terminal message,
      and its progress values increase strictly within 1..n. */
  lemma WellFormedTraceProperties(events: seq<WorkerMsg>, n: nat)
    requires WellFormedTrace(events, n)
    ensures forall k | 0 < k < |events| :: !events[k].ConversionStarted?
    ensures forall k | 0 <= k < |events| - 1 :: !IsTerminal(events[k])
    ensures ProgressIncreasing(events, n)
  {
  }

  /** On a complete job with at least one file the last progress report is n/n. */
  lemma CompleteEndsAtFull(msg: WorkerInput, walk: Walk, engine: Engine)
    requires SucceedsBetween(JobPlan(msg, walk), engine, 0, |JobPlan(msg, walk)|)
    requires |Candidates(walk(msg.input))| > 0
    ensures var b := Update(msg, walk, engine);
      var n := |Candidates(walk(msg.input))|;
      b.events[|b.events| - 2] == ProgressUpdate(Fraction(n, n))
  {
    WorkerSucceeds(msg, walk, engine);
  }
}

/**
 * The front end's state machine: which page is shown, the folders picked, and what the worker
 * last reported. Pages, dialogs and notifications are not modelled; only the model fields and
 * the transition on each message.
 */
module App {
  import opened Wrappers
  import opened Paths
  import W = ConversionWorker

  /** The page the window shows. */
  datatype Mode = InputSelection | OutputSelection | ConversionSelection | Progressing | Finished | Failed

  /** The fields of the application model that `update` reads and writes. */
  datatype Model = Model(
    inputFolder: Option<Path>,
    outputFolder: Option<Path>,
    mode: Mode,
    progress: W.Fraction,
    failure: Option<string>,
    fileCount: nat)

  /** The application's input messages. */
  datatype AppMsg =
    | InputFolderSelected(folder: Path)
    | OutputFolderSelected(folder: Path)
    | DeselectInputFolder
    | DeselectOutputFolder
    | Convert
    | ConversionStarted(count: nat)
    | ProgressUpdate(progress: W.Fraction)
    | ConversionComplete
    | ConversionFailed(reason: string)
    | StartOver
    | Quit
    | Noop

  /** What `update` does outside the model: hand a job to the worker, post the desktop
      notification that the conversion succeeded, or end the application. */
  datatype Effect = SendToWorker(job: W.WorkerInput) | NotifyComplete | QuitApplication

  /** The model after a message, and the effects the message caused, in order. */
  datatype Step = Step(model: Model, effects: seq<Effect>)

  /** The failure text shown when conversion is asked for before both folders are known. */
  const MissingFolders: string := "Please select both input and output folders"

  /** The progress value 0.0. */
  const NoProgress: W.Fraction := W.Fraction(0, 1)

  /** The model `init` builds. */
  const Initial: Model := Model(None, None, InputSelection, NoProgress, None, 0)

  /** `App::update`. */
  function Update(m: Model, msg: AppMsg): Step {
    match msg
    case ConversionStarted(n) => Step(m.(fileCount := n, mode := Progressing), [])
    case InputFolderSelected(p) => Step(m.(inputFolder := Some(p), mode := OutputSelection), [])
    case DeselectInputFolder => Step(m.(inputFolder := None, mode := InputSelection), [])
    case OutputFolderSelected(p) => Step(m.(outputFolder := Some(p), mode := ConversionSelection), [])
    case DeselectOutputFolder => Step(m.(outputFolder := None, mode := OutputSelection), [])
    case Quit => Step(m, [QuitApplication])
    case Convert =>
      if m.inputFolder.Some? && m.outputFolder.Some? then
        Step(m.(mode := Progressing), [SendToWorker(W.ConvertFolder(m.inputFolder.value, m.outputFolder.value))])
      else
        Step(m.(mode := Failed, failure := Some(MissingFolders)), [])
    case ProgressUpdate(p) =>
      if m.mode == Progressing then Step(m.(progress := p), []) else Step(m, [])
    case ConversionComplete => Step(m.(mode := Finished), [NotifyComplete])
    case ConversionFailed(e) => Step(m.(mode := Failed, failure := Some(e)), [])
    case StartOver =>
      Step(m.(inputFolder := None, outputFolder := None, progress := NoProgress,
              failure := None, fileCount := 0, mode := InputSelection), [])
    case Noop => Step(m, [])
  }

  // ---------------------------------------------------------------------------------------------
  // Message forwarding set up in `init`

  /** What a folder selector reports. */
  datatype SelectFolderOut = FolderSelected(folder: Path) | AbortLast

  /** The input folder selector's reports as application messages. */
  function ForwardInputSelector(out: SelectFolderOut): AppMsg {
    match out
    case FolderSelected(p) => InputFolderSelected(p)
    case AbortLast => Noop
  }

  /** The output folder selector's reports as application messages. */
  function ForwardOutputSelector(out: SelectFolderOut): AppMsg {
    match out
    case FolderSelected(p) => OutputFolderSelected(p)
    case AbortLast => DeselectInputFolder
  }

  /** The worker's reports as application messages, one for one. */
  function ForwardWorker(msg: W.WorkerMsg): AppMsg {
    match msg
    case ConversionStarted(n) => ConversionStarted(n)
    case ProgressUpdate(p) => ProgressUpdate(p)
    case ConversionComplete => ConversionComplete
    case ConversionFailed(e) => ConversionFailed(e)
  }

  /** The worker report an application message carries, if it is one. */
  function Received(msg: AppMsg): Option<W.WorkerMsg> {
    match msg
    case ConversionStarted(n) => Some(W.ConversionStarted(n))
    case ProgressUpdate(p) => Some(W.ProgressUpdate(p))
    case ConversionComplete => Some(W.ConversionComplete)
    case ConversionFailed(e) => Some(W.ConversionFailed(e))
    case _ => None
  }

  /** A worker trace as the application receives it: in order, nothing lost. */
  function ForwardAll(events: seq<W.WorkerMsg>): (msgs: seq<AppMsg>)
    ensures |msgs| == |events|
    ensures forall i | 0 <= i < |events| :: Received(msgs[i]) == Some(events[i])
  {
    seq(|events|, i requires 0 <= i < |events| => ForwardWorker(events[i]))
  }

  /** Different worker traces reach the application as different message lists. */
  lemma ForwardAllInjective(a: seq<W.WorkerMsg>, b: seq<W.WorkerMsg>)
    requires ForwardAll(a) == ForwardAll(b)
    ensures a == b
  {
    forall i | 0 <= i < |a|
      ensures a[i] == b[i]
    {
      assert Received(ForwardAll(a)[i]) == Some(a[i]);
    }
  }

  /** Messages handled one after the other; the effects are collected in order. */
  function Feed(m: Model, msgs: seq<AppMsg>): Step
    decreases |msgs|
  {
    if msgs == [] then Step(m, [])
    else
      var first := Update(m, msgs[0]);
      var rest := Feed(first.model, msgs[1..]);
      Step(rest.model, first.effects + rest.effects)
  }

  // ---------------------------------------------------------------------------------------------
  // Single transitions

  /** `StartOver` restores every field to its initial value, whatever the state, and does
      nothing else; afterwards the application behaves as if freshly started. */
  lemma StartOverResets(m: Model, later: seq<AppMsg>)
    ensures Update(m, StartOver) == Step(Initial, [])
    ensures Feed(m, [StartOver] + later) == Feed(Initial, later)
  {
    assert ([StartOver] + later)[1..] == later;
  }

  /** A progress report is taken only while the progress page is shown, and changes nothing but
      the progress. */
  lemma ProgressOnlyWhileProgressing(m: Model, p: W.Fraction)
    ensures Update(m, ProgressUpdate(p)).effects == []
    ensures m.mode == Progressing ==> Update(m, ProgressUpdate(p)).model == m.(progress := p)
    ensures m.mode != Progressing ==> Update(m, ProgressUpdate(p)).model == m
    ensures Update(m, ProgressUpdate(p)).model.progress == p <==> m.mode == Progressing || m.progress == p
  {
  }

  /** `Convert` hands exactly one job, for the two folders, to the worker exactly when both are
      known, and shows the progress page; otherwise it shows the failure page with the
      missing-folders text and sends nothing. */
  lemma ConvertStartsJob(m: Model)
    ensures var s := Update(m, Convert);
      && (m.inputFolder.Some? && m.outputFolder.Some? ==>
            && s.effects == [SendToWorker(W.ConvertFolder(m.inputFolder.value, m.outputFolder.value))]
            && s.model == m.(mode := Progressing))
      && (m.inputFolder.None? || m.outputFolder.None? ==>
            && s.effects == []
            && s.model == m.(mode := Failed, failure := Some(MissingFolders)))
      && (|s.effects| == 1 <==> m.inputFolder.Some? && m.outputFolder.Some?)
  {
  }

  /** The worker's reports: the count of files and the progress page; the finished page and the
      success notification; the failure page with the worker's reason. Nothing else changes. */
  lemma WorkerReportTransitions(m: Model, n: nat, reason: string)
    ensures Update(m, ConversionStarted(n)) == Step(m.(fileCount := n, mode := Progressing), [])
    ensures Update(m, ConversionComplete) == Step(m.(mode := Finished), [NotifyComplete])
    ensures Update(m, ConversionFailed(reason)) == Step(m.(mode := Failed, failure := Some(reason)), [])
  {
  }

  /** Folder selection: a picked input folder leads to the output page, a picked output folder
      to the conversion page; aborting on the output page drops the input folder and goes back
      to the input page, while an abort from the input selector does nothing. */
  lemma FolderSelection(m: Model, p: Path)
    ensures Update(m, ForwardInputSelector(FolderSelected(p)))
         == Step(m.(inputFolder := Some(p), mode := OutputSelection), [])
    ensures Update(m, ForwardOutputSelector(FolderSelected(p)))
         == Step(m.(outputFolder := Some(p), mode := ConversionSelection), [])
    ensures Update(m, ForwardOutputSelector(AbortLast))
         == Step(m.(inputFolder := None, mode := InputSelection), [])
    ensures Update(m, ForwardInputSelector(AbortLast)) == Step(m, [])
  {
  }

  /** `Noop` changes nothing and causes nothing. */
  lemma NoopUnchanged(m: Model)
    ensures Update(m, Noop) == Step(m, [])
  {
  }

  /** `Quit` changes nothing in the model and ends the application. */
  lemma QuitEndsApplication(m: Model)
    ensures Update(m, Quit) == Step(m, [QuitApplication])
  {
  }

  // ---------------------------------------------------------------------------------------------
  // Traces

  /** Handling `a` then `b` is handling `a + b`. */
  lemma {:induction false} FeedAppend(m: Model, a: seq<AppMsg>, b: seq<AppMsg>)
    ensures Feed(m, a + b) ==
      Step(Feed(Feed(m, a).model, b).model, Feed(m, a).effects + Feed(Feed(m, a).model, b).effects)
    decreases |a|
  {
    if a == [] {
      assert a + b == b;
    } else {
      var first := Update(m, a[0]);
      assert (a + b)[0] == a[0];
      assert (a + b)[1..] == a[1..] + b;
      FeedAppend(first.model, a[1..], b);
      var mid := Feed(first.model, a[1..]);
      var last := Feed(mid.model, b);
      calc {
        Feed(m, a + b);
        Step(Feed(first.model, a[1..] + b).model, first.effects + Feed(first.model, a[1..] + b).effects);
        Step(last.model, first.effects + (mid.effects + last.effects));
        { assert first.effects + (mid.effects + last.effects) == (first.effects + mid.effects) + last.effects; }
        Step(last.model, (first.effects + mid.effects) + last.effects);
      }
    }
  }

  /** A single message is handled by `Update`. */
  lemma FeedOne(m: Model, msg: AppMsg)
    ensures Feed(m, [msg]) == Update(m, msg)
  {
    assert [msg][1..] == [];
  }

  /** Forwarding distributes over concatenation. */
  lemma ForwardAllAppend(a: seq<W.WorkerMsg>, b: seq<W.WorkerMsg>)
    ensures ForwardAll(a + b) == ForwardAll(a) + ForwardAll(b)
  {
  }

  /** On the progress page, the reports 1/n .. k/n leave the last of them as the progress and
      change nothing else. */
  lemma {:induction false} FeedProgress(m: Model, n: nat, k: nat)
    requires m.mode == Progressing
    ensures Feed(m, ForwardAll(W.ProgressTrace(n, k)))
         == Step(if k == 0 then m else m.(progress := W.Fraction(k, n)), [])
  {
    if k > 0 {
      var prefix := W.ProgressTrace(n, k - 1);
      assert W.ProgressTrace(n, k) == prefix + [W.ProgressUpdate(W.Fraction(k, n))];
      ForwardAllAppend(prefix, [W.ProgressUpdate(W.Fraction(k, n))]);
      assert ForwardAll([W.ProgressUpdate(W.Fraction(k, n))]) == [ProgressUpdate(W.Fraction(k, n))];
      FeedProgress(m, n, k - 1);
      FeedAppend(m, ForwardAll(prefix), [ProgressUpdate(W.Fraction(k, n))]);
      var mid := if k - 1 == 0 then m else m.(progress := W.Fraction(k - 1, n));
      FeedOne(mid, ProgressUpdate(W.Fraction(k, n)));
    } else {
      assert ForwardAll(W.ProgressTrace(n, 0)) == [];
    }
  }

  /** A trace `Started(n)`, progress 1/n .. k/n, then `last`, fed into any model. */
  lemma FeedJobTrace(m: Model, n: nat, k: nat, last: W.WorkerMsg)
    ensures Feed(m, ForwardAll([W.ConversionStarted(n)] + W.ProgressTrace(n, k) + [last]))
         == Update(if k == 0 then m.(fileCount := n, mode := Progressing)
                   else m.(fileCount := n, mode := Progressing, progress := W.Fraction(k, n)),
                   ForwardWorker(last))
  {
    var started := m.(fileCount := n, mode := Progressing);
    var after := if k == 0 then started else started.(progress := W.Fraction(k, n));
    var a := ForwardAll([W.ConversionStarted(n)]);
    var b := ForwardAll(W.ProgressTrace(n, k));
    var c := [ForwardWorker(last)];
    ForwardAllAppend([W.ConversionStarted(n)] + W.ProgressTrace(n, k), [last]);
    ForwardAllAppend([W.ConversionStarted(n)], W.ProgressTrace(n, k));
    assert ForwardAll([last]) == c;
    assert ForwardAll([W.ConversionStarted(n)] + W.ProgressTrace(n, k) + [last]) == a + b + c;
    assert a == [ConversionStarted(n)];
    FeedOne(m, ConversionStarted(n));
    FeedProgress(started, n, k);
    FeedAppend(m, a, b);
    assert Feed(m, a + b) == Step(after, []);
    FeedAppend(m, a + b, c);
    assert Feed(m, a + b + c) == Step(Feed(after, c).model, [] + Feed(after, c).effects);
    assert [] + Feed(after, c).effects == Feed(after, c).effects;
    FeedOne(after, ForwardWorker(last));
  }

  /**
   * End to end: whatever the application's state, the worker's trace for a job, forwarded one
   * for one, leaves the application on the finished page with the job's file count when every
   * conversion succeeds, and on the failure page with the codec's reason when one fails. The
   * progress is the last one reported, the folders are untouched, and the only effect is the
   * success notification, posted exactly when the job succeeds.
   */
  lemma WorkerTraceDrivesApp(m: Model, job: W.WorkerInput, walk: W.Walk, engine: W.Engine)
    ensures var plan := W.JobPlan(job, walk);
      var n := |plan|;
      var s := Feed(m, ForwardAll(W.Update(job, walk, engine).events));
      && (s.effects == [NotifyComplete] <==> W.SucceedsBetween(plan, engine, 0, n))
      && (s.effects == [] <==> !W.SucceedsBetween(plan, engine, 0, n))
      && (s.model.mode == Finished <==> W.SucceedsBetween(plan, engine, 0, n))
      && (s.model.mode == Finished || s.model.mode == Failed)
      && s.model.inputFolder == m.inputFolder && s.model.outputFolder == m.outputFolder
      && s.model.fileCount == n
      && (W.SucceedsBetween(plan, engine, 0, n) ==>
            s.model == m.(fileCount := n, mode := Finished,
                          progress := if n == 0 then m.progress else W.Fraction(n, n)))
  {
    var plan := W.JobPlan(job, walk);
    var n := |plan|;
    if W.SucceedsBetween(plan, engine, 0, n) {
      WorkerSuccessDrivesApp(m, job, walk, engine);
    } else {
      W.ConvertFilesPasses(plan, engine, 0);
      var loop := W.ConvertFiles(plan, engine, 0);
      W.ConvertFilesFails(plan, engine, 0);
      WorkerFailureDrivesApp(m, job, walk, engine, |loop.events|, loop.result.error);
    }
  }

  /** End to end, successful job: the finished page, the job's file count, progress n/n (or
      unchanged when there were no files), and the notification. */
  lemma WorkerSuccessDrivesApp(m: Model, job: W.WorkerInput, walk: W.Walk, engine: W.Engine)
    requires W.SucceedsBetween(W.JobPlan(job, walk), engine, 0, |W.JobPlan(job, walk)|)
    ensures var n := |W.JobPlan(job, walk)|;
      Feed(m, ForwardAll(W.Update(job, walk, engine).events)) ==
        Step(m.(fileCount := n, mode := Finished,
                progress := if n == 0 then m.progress else W.Fraction(n, n)), [NotifyComplete])
  {
    var n := |W.JobPlan(job, walk)|;
    W.WorkerSucceeds(job, walk, engine);
    FeedSuccessTrace(m, W.Update(job, walk, engine).events, n);
  }

  /** A successful trace with n progress reports, fed into any model. */
  lemma FeedSuccessTrace(m: Model, events: seq<W.WorkerMsg>, n: nat)
    requires events == [W.ConversionStarted(n)] + W.ProgressTrace(n, n) + [W.ConversionComplete]
    ensures Feed(m, ForwardAll(events)) ==
      Step(m.(fileCount := n, mode := Finished, progress := if n == 0 then m.progress else W.Fraction(n, n)),
           [NotifyComplete])
  {
    FeedJobTrace(m, n, n, W.ConversionComplete);
  }

  /** End to end, failing job: the first codec error, on candidate k, is what the failure page
      shows; the progress is k/n (or unchanged when k = 0). */
  lemma WorkerFailureDrivesApp(m: Model, job: W.WorkerInput, walk: W.Walk, engine: W.Engine, k: nat, reason: string)
    requires W.FailsFirstAt(W.JobPlan(job, walk), engine, 0, k, reason)
    ensures var n := |W.JobPlan(job, walk)|;
      Feed(m, ForwardAll(W.Update(job, walk, engine).events)) ==
        Step(m.(fileCount := n, mode := Failed, failure := Some(reason),
                progress := if k == 0 then m.progress else W.Fraction(k, n)), [])
  {
    var n := |W.JobPlan(job, walk)|;
    W.WorkerFailsAt(job, walk, engine, k, reason);
    FeedFailureTrace(m, W.Update(job, walk, engine).events, n, k, reason);
  }

  /** A failing trace with k progress reports, fed into any model. */
  lemma FeedFailureTrace(m: Model, events: seq<W.WorkerMsg>, n: nat, k: nat, reason: string)
    requires events == [W.ConversionStarted(n)] + W.ProgressTrace(n, k) + [W.ConversionFailed(reason)]
    ensures Feed(m, ForwardAll(events)) ==
      Step(m.(fileCount := n, mode := Failed, failure := Some(reason),
              progress := if k == 0 then m.progress else W.Fraction(k, n)), [])
  {
    FeedJobTrace(m, n, k, W.ConversionFailed(reason));
  }

  /** Start-up, input folder, output folder, convert: the application sends exactly the job
      for those folders and shows the progress page. */
  lemma SessionStart(input: Path, output: Path)
    ensures Feed(Initial, [InputFolderSelected(input), OutputFolderSelected(output), Convert])
         == Step(Model(Some(input), Some(output), Progressing, NoProgress, None, 0),
                 [SendToWorker(W.ConvertFolder(input, output))])
  {
    var msgs := [InputFolderSelected(input), OutputFolderSelected(output), Convert];
    var m1 := Update(Initial, msgs[0]).model;
    var m2 := Update(m1, msgs[1]).model;
    assert msgs[1..] == [OutputFolderSelected(output), Convert];
    assert msgs[1..][1..] == [Convert];
    FeedOne(m2, Convert);
  }

  /**
   * A whole session from start-up: pick the input folder, pick the output folder, convert; the
   * worker's answer to that job ends on the finished page exactly when every conversion
   * succeeds, else on the failure page, with both folders still shown.
   */
  lemma Session(input: Path, output: Path, walk: W.Walk, engine: W.Engine)
    ensures var job := W.ConvertFolder(input, output);
      var plan := W.JobPlan(job, walk);
      var start := Feed(Initial, [InputFolderSelected(input), OutputFolderSelected(output), Convert]);
      var end := Feed(start.model, ForwardAll(W.Update(job, walk, engine).events));
      && start.effects == [SendToWorker(job)]
      && end.model.inputFolder == Some(input) && end.model.outputFolder == Some(output)
      && end.model.fileCount == |plan|
      && (end.model.mode == Finished <==> W.SucceedsBetween(plan, engine, 0, |plan|))
      && (end.model.mode == Failed <==> !W.SucceedsBetween(plan, engine, 0, |plan|))
  {
    SessionStart(input, output);
    WorkerTraceDrivesApp(Model(Some(input), Some(output), Progressing, NoProgress, None, 0),
                         W.ConvertFolder(input, output), walk, engine);
  }
}

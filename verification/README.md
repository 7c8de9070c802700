# heic2jpg: the batch worker and the window's state machine

heic2jpg is a small desktop tool that converts every HEIC image below an input folder into a JPEG
in an output folder. This project models the two pieces of it that hold logic. Everything else is
GTK glue.

- **The conversion worker** (`ConversionWorker`, in `worker.dfy`). It takes one
  `ConvertFolder(input, output)` job and collects the readable regular files below `input` whose
  extension is `heic` in any ASCII case, in walk order. It reports `ConversionStarted(n)`, then
  converts each file in order. The code names the target `output.join(stem).with_extension("jpg")`;
  the model's worker uses `output/<stem>.jpg` instead, which agrees with the code except for the
  stems listed under Findings. After each success it reports progress
  `k/n`. It stops at the first codec error and ends with exactly one `ConversionComplete` or
  `ConversionFailed(reason)`.
- **The application model** (`App`, in `app.dfy`). This covers six modes (pages), the two chosen
  folders, the last progress, the failure text and the file count. `update` is a pure transition
  that returns the new model and its effects: a job for the worker, the success notification, or
  quitting. The folder selectors' and the worker's reports are forwarded into `update` by the
  closures set up in `init`.
- **File naming** (`Paths`, in `paths.dfy`). The worker relies on Rust's `std::path` rules for
  `file_name`, `extension`, `file_stem`, `join` and `with_extension`. They are modelled on a path's
  component list (`RootDir`, `CurDir`, `ParentDir`, `Normal(name)`):
  - The split is at the last dot.
  - A name whose only dot is its first character has no extension, and neither does "..".
  - `with_extension` cuts the file name back to its stem before adding the new extension.
- **Shared types** (`Wrappers`, in `wrappers.dfy`). `Option` carries the `or`/`and` combinators
  the path rules use. `Outcome` is the codec's success or error.

The environment becomes parameters:
- **The directory walk** is a function `Walk` from a folder to the entries the walk yields, in
  order. Each entry is either unreadable (`Unreadable(reason)`) or a path with an `is_file` flag.
- **The image codec** is an oracle `Engine`. It takes a call's position in the batch and its
  `(source, target)` pair, and returns `Pass` or `Fail(reason)`.
- **Progress** is the exact pair `Fraction(done, total)` instead of a floating-point quotient.
  The initial value 0.0 is `Fraction(0, 1)`.

The worker computes every target path in advance, as the list of planned calls `JobPlan`. The
loop runs over that list. This equals computing each target just before its call, because a
target depends on nothing but its source file.

## Model

| member | source | states |
|---|---|---|
| Paths.LastDot | src/conversion_worker.rs:74 | the position found holds a dot and no dot follows it; no position means the name has no dot |
| Paths.StemExtensionRoundTrip | src/conversion_worker.rs:74 | a name with an extension is exactly its non-empty stem, a dot and the dot-free extension; a name without one is its own stem |
| Paths.SplitIsExtension | src/conversion_worker.rs:74 | any name `before.after` with non-empty `before` and dot-free `after` has extension `after` and stem `before` (so `a.b.heic` has stem `a.b`) |
| Paths.NoExtensionCases | src/conversion_worker.rs:74 | a name without a dot, or whose only dot is its first character, has no extension and is its own stem |
| Paths.HeicSpellings | src/conversion_worker.rs:75 | an extension equals "heic" ignoring ASCII case exactly when it is one of the sixteen upper/lower-case spellings of h, e, i, c |
| Paths.FileName | src/conversion_worker.rs:92 | in a well-formed path the file name is an ordinary name: not empty, not "." or "..", no separator |
| Paths.Join | src/conversion_worker.rs:92 | joining a separator-free segment keeps the whole base path as a prefix and adds at most one component: an ordinary name becomes the new file name, ".." adds a parent component and leaves no file name, and "" or "." add nothing to a non-empty path |
| Paths.WithExtension | src/conversion_worker.rs:93 | replacing the extension keeps every component before the file name and the number of components; a path without a file name is returned unchanged, and otherwise the new file name is the old stem, a dot and the extension |
| Paths.WithExtensionRoundTrip | src/conversion_worker.rs:93 | after `with_extension(ext)` the file name has extension `ext` and the same stem as before |
| ConversionWorker.Candidates | src/conversion_worker.rs:65-82 | the candidate list is no longer than the walk, and every path on it has a HEIC extension |
| ConversionWorker.CandidatesAppend | src/conversion_worker.rs:65-82 | the filter distributes over concatenated walks and keeps one entry exactly when it is a candidate, so walk order is preserved |
| ConversionWorker.CandidateMembership | src/conversion_worker.rs:69-81 | a path is on the list exactly when some readable regular-file entry with a HEIC extension has that path |
| ConversionWorker.UnreadableSkipped | src/conversion_worker.rs:70 | an unreadable entry anywhere in the walk leaves the list as it would be without that entry |
| ConversionWorker.HeicNames | src/conversion_worker.rs:72-75 | a name is selected exactly when it has at least one character, then a dot, then four letters spelling "heic" in any case |
| ConversionWorker.HeicNameShape | src/conversion_worker.rs:73-75 | a selected name ends in a dot and a HEIC spelling after at least one more character |
| ConversionWorker.HeicShapeName | src/conversion_worker.rs:73-75 | conversely, such a name is selected |
| ConversionWorker.HeicSuffix | src/conversion_worker.rs:73-75 | any non-empty base followed by a dot and a HEIC spelling is selected |
| ConversionWorker.HeicNamesAnyCase | src/conversion_worker.rs:75 | "x.heic" and "X.HEIC" are both selected |
| ConversionWorker.HeicNameWithInnerDot | src/conversion_worker.rs:74-75 | "a.b.heic" is selected: only the last extension is looked at |
| ConversionWorker.HeicNamesRejected | src/conversion_worker.rs:74-75 | the dotfile ".heic", the bare name "heic" and "x.heic.png" are not selected |
| ConversionWorker.OutputPathPlacement | src/conversion_worker.rs:91-93 | the intended target lies directly under the output root, is an ordinary file name, keeps the source's stem and has extension "jpg" |
| ConversionWorker.SameStemSameTarget | src/conversion_worker.rs:91-93 | the intended target depends only on the stem: two sources share one exactly when their stems are equal, whatever their folders; as written, equal stems collide too |
| ConversionWorker.AsWrittenOfPlainStem | src/conversion_worker.rs:91-93 | as written, a stem other than "." and ".." becomes one more component whose name is the stem's own stem plus ".jpg" |
| ConversionWorker.AsWrittenAgreesOnPlainStems | src/conversion_worker.rs:91-93 | as written and intended targets coincide when the stem has no extension of its own and is not a dot entry |
| ConversionWorker.AsWrittenStripsInnerExtension | src/conversion_worker.rs:91-93 | as written, a stem with its own extension loses it as well, so the target differs from the intended one |
| ConversionWorker.CollisionCase | src/conversion_worker.rs:91-93 | every source `a.<x>.heic` with a dot-free `<x>` has stem `a.<x>` and is written to `<out>/a.jpg` |
| ConversionWorker.AsWrittenCollision | src/conversion_worker.rs:91-93 | "a.b.heic" and "a.c.heic" are both written to `<out>/a.jpg`, while their intended targets differ |
| ConversionWorker.AsWrittenEscapesOutputRoot | src/conversion_worker.rs:91-93 | as written, a stem "." makes `with_extension("jpg")` apply to the output root itself (for `/home/out`, `/home/out.jpg`; a root without a file name such as `/` is left as it is): the target has the root's depth, where the intended one is one level deeper |
| ConversionWorker.EscapeCase | src/conversion_worker.rs:91-93 | "..heic" converted into `<parent>/<dir>` with a dot-free `<dir>` is written to `<parent>/<dir>.jpg` instead of `<parent>/<dir>/..jpg` |
| ConversionWorker.EscapeCaseAnyFolder | src/conversion_worker.rs:91-93 | for any output folder name, "..heic" converted into `<parent>/<dir>` is written to `<parent>/<stem of dir>.jpg` |
| ConversionWorker.EscapeDottedFolder | src/conversion_worker.rs:91-93 | "..heic" converted into `<parent>/<base>.<ext>` with a dot-free `<ext>` is written to `<parent>/<base>.jpg` |
| ConversionWorker.EscapeDottedFolderExample | src/conversion_worker.rs:91-93 | "..heic" converted into `home/my.photos` is written to `home/my.jpg`: the output folder's own extension is cut off as well |
| ConversionWorker.AsWrittenEscapeExample | src/conversion_worker.rs:91-93 | "..heic" converted into "/home/out" is written to "/home/out.jpg" |
| ConversionWorker.AsWrittenTargetsParentDirectory | src/conversion_worker.rs:91-93 | as written, a stem ".." makes the target the output root's parent directory, where the intended one is `<out>/...jpg` |
| ConversionWorker.AsWrittenParentExample | src/conversion_worker.rs:91-93 | "...heic" has the stem "..", and its as-written target is `out/..` |
| ConversionWorker.AllPlanned | src/conversion_worker.rs:89-93 | there is exactly one planned codec call per candidate, and call i converts candidate i into its `<stem>.jpg` target |
| ConversionWorker.ConvertFiles | src/conversion_worker.rs:89-104 | the loop makes at most one call per remaining file; it makes all of them and reports each one when it succeeds; when it fails it makes one more call than it reports |
| ConversionWorker.ConvertFilesCalls | src/conversion_worker.rs:89-96 | the calls made are the planned ones from the current position on, in order and without gaps |
| ConversionWorker.ConvertFilesEvents | src/conversion_worker.rs:99-103 | the reports are (i+1)/n, (i+2)/n, ... for the positions completed |
| ConversionWorker.ConvertFilesPasses | src/conversion_worker.rs:96 | the loop succeeds exactly when the codec accepts every remaining call |
| ConversionWorker.ConvertFilesFails | src/conversion_worker.rs:96 | on failure the reports stop just before the first call the codec rejected, and the error is the codec's error for that call |
| ConversionWorker.JobPlan | src/conversion_worker.rs:65-93 | a job plans exactly one call per candidate of its input folder, and call i converts candidate i, so calls follow candidate order |
| ConversionWorker.PlanTarget | src/conversion_worker.rs:89-93 | the job's call i converts candidate i into `<out>/<stem>.jpg` |
| ConversionWorker.PlanAgreesWithCode | src/conversion_worker.rs:89-93 | when candidate i's stem has no extension of its own and is not "." or "..", the job's call i has exactly the target the code computes with `join` and `with_extension` |
| ConversionWorker.FirstFailureUnique | src/conversion_worker.rs:96 | the first rejected call and its reason are unique |
| ConversionWorker.WorkerSucceeds | src/conversion_worker.rs:33-51 | when the codec accepts everything, the trace is `Started(n)`, 1/n ... n/n, `Complete`, and every planned call is made once, in order |
| ConversionWorker.WorkerFailsAt | src/conversion_worker.rs:41-47 | when the codec first rejects call k, the trace is `Started(n)`, 1/n ... k/n, `Failed(reason)`, and exactly the first k+1 planned calls are made |
| ConversionWorker.WorkerEmpty | src/conversion_worker.rs:83-104 | with no candidates, the trace is exactly `Started(0)`, `Complete`, with no call and no progress report |
| ConversionWorker.TraceShape | src/conversion_worker.rs:33-107 | every job's trace is well formed for n candidates and its calls are a prefix of the plan; it ends in `Complete` exactly when the codec accepts every call, and then all calls are made; on `Failed` the last call is the first one rejected, with that reason (the predicate `FitsPlan`) |
| ConversionWorker.SuccessShape | src/conversion_worker.rs:41-44 | a successful batch fits its plan: a well-formed trace ending in `Complete` after the whole plan |
| ConversionWorker.FailureShape | src/conversion_worker.rs:45-47 | a failed batch fits its plan: a well-formed trace ending in `Failed(reason)`, whose last call is the first one rejected |
| ConversionWorker.WellFormedTraceProperties | src/conversion_worker.rs:83-103 | a well-formed trace has exactly one `Started` and exactly one terminal message, and its progress values lie in 1..n and strictly increase |
| ConversionWorker.CompleteEndsAtFull | src/conversion_worker.rs:99-102 | on a successful job with files, the last progress report is n/n |
| App.ForwardAll | src/app.rs:274-284 | forwarding keeps the length of the worker's trace, and app message i carries worker report i with the same kind and payload |
| App.ForwardAllInjective | src/app.rs:274-284 | two worker traces that reach the application as the same messages are the same trace, so forwarding loses nothing |
| App.StartOverResets | src/app.rs:385-392 | `StartOver` restores every field to the value `init` gives it and causes no effect; whatever follows behaves as after a fresh start |
| App.ProgressOnlyWhileProgressing | src/app.rs:366-370 | a progress report is taken only on the progress page, and changes nothing but the progress; no effect |
| App.ConvertStartsJob | src/app.rs:349-365 | `Convert` sends exactly one job, for the two chosen folders, exactly when both are set, and shows the progress page; otherwise it sends nothing and shows the failure page with the missing-folders text |
| App.WorkerReportTransitions | src/app.rs:328-384 | `ConversionStarted(n)` records n and shows the progress page; `Complete` shows the finished page and posts the notification; `Failed(e)` shows the failure page with e |
| App.FolderSelection | src/app.rs:263-347 | picking folders moves input, output and conversion pages forward; the output selector's abort drops the input folder and returns to the input page; the input selector's abort changes nothing |
| App.NoopUnchanged | src/app.rs:393 | `Noop` changes nothing and causes no effect |
| App.QuitEndsApplication | src/app.rs:348 | `Quit` changes nothing in the model; its only effect is quitting |
| App.FeedAppend | src/app.rs:326-395 | handling two message lists in turn is handling their concatenation, with the effects in order |
| App.FeedProgress | src/app.rs:366-370 | on the progress page, the reports 1/n ... k/n leave k/n as the progress and change nothing else |
| App.FeedJobTrace | src/app.rs:328-384 | a job trace `Started(n)`, k reports, then a terminal message leaves the count n, the progress page and progress k/n before the terminal message is handled |
| App.WorkerTraceDrivesApp | src/app.rs:274-384 | from any state, a job's forwarded trace ends on the finished page exactly when every conversion succeeds, and otherwise on the failure page; the count is n, the folders are untouched, and the notification is the only effect, posted exactly on success |
| App.WorkerSuccessDrivesApp | src/app.rs:371-380 | a successful job ends on the finished page with count n, progress n/n (unchanged when n = 0) and the notification |
| App.WorkerFailureDrivesApp | src/app.rs:381-384 | a job whose first codec error is on call k ends on the failure page with the codec's reason, count n and progress k/n (unchanged when k = 0) |
| App.SessionStart | src/app.rs:286-297 | from start-up, picking input, picking output and converting sends exactly the job for those folders and shows the progress page |
| App.Session | src/app.rs:326-395 | after such a session, the worker's answer to the job ends on the finished page exactly when every conversion succeeds, else on the failure page, with both folders still shown and the count of candidates |

## Left out

- The image codec is not modelled (src/conversion_worker.rs:109-127). ImageMagick's read, format change and write are a foreign library, so the engine is an oracle that may fail on any call.
- Writing the output file is not modelled, because the engine oracle owns it. So "a later file with the same target overwrites an earlier one" is not stated. Only the collision of the targets is stated.
- The one-time codec initialisation in src/main.rs:25-30 is not part of this model. It is a process-wide foreign set-up that happens before any job.
- The directory walk is taken as given (following links, crossing file systems, `is_file` checks, order). This is file-system I/O; `Walk` supplies the entries in the order the walk yields them.
- The oracle `Engine` is indexed by the call's position in the batch. The codec's answer may depend on the file system at that moment, which the model does not track.
- Progress as `f64` is not modelled. A report `k/n` is the exact pair (k, n), and two pairs with equal quotients are distinct values here.
- The view's label arithmetic on the file count and progress (src/app.rs:136) is not modelled; it is display code.
- Panics on non-UTF-8 paths (`to_str().unwrap()`), `file_stem().unwrap()` and failed channel sends are not modelled. These are runtime plumbing: `file_stem` always exists for a selected file, and the channels are assumed lossless.
- The worker thread and the channels between it and the window are not modelled. Delivery is assumed in order and complete, and the forwarding itself is one for one, as `App.ForwardAll` and `App.ForwardAllInjective` state. A second job sent while one is running is not modelled either; the source neither queues nor rejects it explicitly.
- Views, dialogs, window-size settings (src/app.rs:402-428), translation and the notification's text are left out as UI and I/O. The notification appears as the effect `NotifyComplete`. The failure text is the untranslated string.
- `Quit` ends the application through the GTK main application. It is the effect `QuitApplication`.
- src/select_folder.rs, src/modals/about.rs and src/main.rs are not part of this model, apart from the two outcomes of a folder selector (`SelectFolderOut`). They are dialog and start-up glue.
- src/pages/progressing_page.rs and src/pages/finished_page.rs are not part of this model. They are view code and are not declared as modules in src/main.rs:1-6.
- The worker does not leave a separate batch-state value (idle, running, completed, failed) in the model. The source keeps none, and the state is observable only through the emitted trace, which `TraceShape` describes.
- The code applies `with_extension` to the stem a second time. For stems that contain a dot or are a dot entry, this differs from a `<stem>.jpg` target. `ConversionWorker.OutputPathAsWritten` follows the code; `ConversionWorker.OutputPath` is the `<stem>.jpg` naming (see Findings).
- ConversionWorker.AllPlanned: the target it fixes for each call is the corrected `<out>/<stem>.jpg`, not the code's `join(stem).with_extension("jpg")`; `ConversionWorker.PlanAgreesWithCode` states where the two coincide.
- ConversionWorker.PlanTarget: the target it states for call i is the corrected `<out>/<stem>.jpg`, not the code's `join(stem).with_extension("jpg")`; `ConversionWorker.PlanAgreesWithCode` states where the two coincide.
- ConversionWorker.JobPlan: the worker's codec targets are the corrected `<out>/<stem>.jpg` ones, not the code's. So for a stem with its own extension, or a stem "." or "..", the modelled calls differ from the program's. `ConversionWorker.PlanAgreesWithCode` states that every other call has the code's target.
- The `info!` tracing calls (src/conversion_worker.rs:37, 62, 83, 90, 105) are not modelled. They only write log lines.

## Findings

| source | as written | input that shows it | evidently intended | confidence | as-written member | corrected member |
|---|---|---|---|---|---|---|
| src/conversion_worker.rs:91-93 | the target is `output.join(stem).with_extension("jpg")`, and `with_extension` cuts the joined stem back to its own stem | sources "a.b.heic" and "a.c.heic": both become `<out>/a.jpg`, so the second overwrites the first | `<out>/a.b.jpg` and `<out>/a.c.jpg`: the stem kept whole, plus ".jpg" | medium, not executed | ConversionWorker.AsWrittenCollision | ConversionWorker.SameStemSameTarget |
| src/conversion_worker.rs:91-93 | joining the stem "." adds no component, so `with_extension` is applied to the output root itself (for `/home/out`, `/home/out.jpg`) | source "..heic" with output root "/home/out": the target is "/home/out.jpg", outside the output root | `/home/out/..jpg`, directly under the output root | medium, not executed | ConversionWorker.AsWrittenEscapeExample | ConversionWorker.OutputPathPlacement |
| src/conversion_worker.rs:91-93 | joining the stem ".." adds a parent component, which `with_extension` leaves as it is | source "...heic" with output root "out": the target is `out/..`, a directory, so the write fails and the whole job stops | `out/...jpg`, directly under the output root | medium, not executed | ConversionWorker.AsWrittenParentExample | ConversionWorker.OutputPathPlacement |

The worker in `ConversionWorker.Update` uses the corrected naming `ConversionWorker.OutputPath`. `ConversionWorker.AsWrittenAgreesOnPlainStems` shows that the two namings coincide for every stem without a dot-extension of its own that is not "." or "..". That covers nearly every real file.

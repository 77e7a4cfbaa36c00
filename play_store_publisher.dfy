/**
 * The publish workflow: reset the progress, check the configuration and the
 * artifact, open an edit, upload the artifact while polling its progress
 * into the progress channel, then commit the edit or raise the failure.
 *
 * The remote store, the filesystem and the running upload are inputs: the
 * files present with their lengths, the id the store gives the new edit,
 * and the answers that successive progress polls return. What the publisher
 * does towards the outside is recorded in an event log.
 */
module PlayStorePublishing {
  import opened Wrappers
  import opened DistributionSettings
  import opened UploadProtocol

  /** The two artifact uploaders. */
  datatype Uploader = AppBundleUploader | ApkUploader

  /** What the publisher does towards the store and towards progress observers. */
  datatype Event =
    | Notify(snapshot: ProgressData)                      // a value pushed to the progress channel
    | CreateEdit(packageName: NullableString)             // an edit opened on the store
    | StartUpload(uploader: Uploader)                     // the artifact upload started
    | Commit(packageName: NullableString, editId: string) // an edit committed

  /** The bundle uploader for a bundle, the APK uploader for anything else. */
  function SelectUploader(isAppBundle: bool): (u: Uploader)
    ensures u == AppBundleUploader <==> isAppBundle
    ensures u == ApkUploader <==> !isAppBundle
  {
    if isAppBundle then AppBundleUploader else ApkUploader
  }

  /** `File.Exists`: false for a null path, otherwise whether the file is present. */
  predicate FileExists(files: map<string, nat>, path: NullableString)
  {
    path.Some? && path.value in files
  }

  /** One notification per forwarded report, each a snapshot written over `base`. */
  function NotifyEvents(base: ProgressData, uploadSize: nat, ps: seq<UploadProgress>): seq<Event>
  {
    seq(|ps|, j requires 0 <= j < |ps| => Notify(Snapshot(base, ps[j], uploadSize)))
  }

  /** The progress value after the forwarded reports. */
  function LastSnapshot(base: ProgressData, uploadSize: nat, ps: seq<UploadProgress>): ProgressData
  {
    if ps == [] then base else Snapshot(base, ps[|ps| - 1], uploadSize)
  }

  /** The result of a publish (or of its upload stage): outcome, events, upload size, progress value. */
  datatype Run = Run(outcome: Outcome, log: seq<Event>, uploadSize: nat, progress: ProgressData)

  /** What the upload stage does, from the progress value `base` it starts from. */
  function UploadRun(base: ProgressData, uploadSize: nat, uploader: Uploader,
                     packageName: NullableString, editId: string, polls: seq<Poll>): Run
  {
    var forwarded := Forwarded(polls, PollCount(polls));
    var outcome := UploadOutcome(polls);
    var commit := if outcome == Published then [Commit(packageName, editId)] else [];
    Run(outcome, [StartUpload(uploader)] + NotifyEvents(base, uploadSize, forwarded) + commit,
        uploadSize, LastSnapshot(base, uploadSize, forwarded))
  }

  /** What a whole publish does; `configs` is None for a null configuration. */
  function PublishRun(configs: Option<DistributionData>, files: map<string, nat>,
                      editId: string, polls: seq<Poll>): Run
  {
    if configs.None? then
      Run(Raised(NoConfigMessage), [Notify(EmptyProgress)], 0, EmptyProgress)
    else if !FileExists(files, configs.value.artifactPath) then
      Run(FileMissing, [Notify(EmptyProgress)], 0, EmptyProgress)
    else
      var c := configs.value;
      var base := EmptyProgress.(title := c.artifactPath);
      var u := UploadRun(base, files[c.artifactPath.value], SelectUploader(c.IsAppBundle()),
                         c.packageName, editId, polls);
      u.(log := [Notify(EmptyProgress), CreateEdit(c.packageName)] + u.log)
  }

  /** Forwarding one more report appends its snapshot to the notifications. */
  lemma NotifyStep(base: ProgressData, uploadSize: nat, ps: seq<UploadProgress>, p: UploadProgress)
    ensures NotifyEvents(base, uploadSize, ps + [p]) ==
      NotifyEvents(base, uploadSize, ps) + [Notify(Snapshot(base, p, uploadSize))]
    ensures LastSnapshot(base, uploadSize, ps + [p]) ==
      Snapshot(LastSnapshot(base, uploadSize, ps), p, uploadSize)
  {
  }

  /** When no poll ends the loop, it consumes every poll. */
  lemma LoopRanOut(polls: seq<Poll>)
    requires polls != [] && forall j :: 0 <= j < |polls| ==> !Ends(polls[j])
    ensures TerminalIndex(polls).None? && PollCount(polls) == |polls|
  {
  }

  /** The loop leaves at the first poll that ends it, having consumed the polls up to it. */
  lemma LoopExit(polls: seq<Poll>, i: nat)
    requires 1 <= i <= |polls| && Ends(polls[i - 1])
    requires forall j :: 0 <= j < i - 1 ==> !Ends(polls[j])
    ensures TerminalIndex(polls) == Some(i - 1) && PollCount(polls) == i
  {
  }

  /** The report that ends polling, or None when the polls run out first. */
  function EndingReport(polls: seq<Poll>): (r: Poll)
    ensures r.Some? <==> TerminalIndex(polls).Some?
    ensures r.Some? ==> IsTerminal(r.value.status)
    ensures r.Some? ==> r == polls[TerminalIndex(polls).value]
  {
    match TerminalIndex(polls)
    case None => None
    case Some(k) => polls[k]
  }

  class PlayStorePublisher {
    /** The length of the artifact being uploaded, 0 before it is known. */
    var uploadSize: nat
    /** The value of the progress channel; the progress object it holds is updated in place. */
    var progress: Option<ProgressData>
    /** Everything sent to the store and to progress observers so far. */
    var events: seq<Event>

    constructor ()
      ensures uploadSize == 0 && progress == None && events == []
    {
      uploadSize := 0;
      progress := None;
      events := [];
    }

    /**
     * Publishes the artifact `configs` names. `files` stands for the
     * filesystem, `editId` for the id the store gives the new edit, and
     * `polls` for the successive answers of the upload's progress query.
     */
    method Publish(configs: AndroidDistributionSettings?, files: map<string, nat>,
                   editId: string, polls: seq<Poll>) returns (outcome: Outcome)
      modifies this
      ensures var r := PublishRun(if configs == null then None else Some(configs.Data()),
                                  files, editId, polls);
        outcome == r.outcome && events == old(events) + r.log &&
        uploadSize == r.uploadSize && progress == Some(r.progress)
    {
      uploadSize := 0;
      progress := Some(EmptyProgress);
      events := events + [Notify(EmptyProgress)];

      if configs == null {
        return Raised(NoConfigMessage);
      }

      var uploadedFile := configs.artifactPath;
      if !FileExists(files, uploadedFile) {
        return FileMissing;
      }

      uploadSize := files[uploadedFile.value];
      progress := Some(progress.value.(title := uploadedFile));

      var appEdit := CreateAppEdit(configs, editId);
      outcome := UploadArtifact(configs, appEdit, polls);
    }

    /** Opens an edit for the package; the store answers with `editId`. */
    method CreateAppEdit(configs: AndroidDistributionSettings, editId: string) returns (edit: string)
      modifies this
      ensures edit == editId
      ensures events == old(events) + [CreateEdit(configs.packageName)]
      ensures uploadSize == old(uploadSize) && progress == old(progress)
    {
      events := events + [CreateEdit(configs.packageName)];
      edit := editId;
    }

    /** Commits the edit `edit` of the package. */
    method CommitChangesToGooglePlay(configs: AndroidDistributionSettings, edit: string)
      modifies this
      ensures events == old(events) + [Commit(configs.packageName, edit)]
      ensures uploadSize == old(uploadSize) && progress == old(progress)
    {
      events := events + [Commit(configs.packageName, edit)];
    }

    /** Turns a report into the progress value and pushes it, even when it repeats the last one. */
    method OnUploadProgressChanged(upload: UploadProgress)
      requires progress.Some?
      modifies this
      ensures progress == Some(Snapshot(old(progress).value, upload, uploadSize))
      ensures events == old(events) + [Notify(progress.value)]
      ensures uploadSize == old(uploadSize)
    {
      progress := Some(Snapshot(progress.value, upload, uploadSize));
      events := events + [Notify(progress.value)];
    }

    /**
     * Starts the upload with the uploader the artifact kind calls for, polls
     * it until it ends, then commits or raises.
     */
    method UploadArtifact(configs: AndroidDistributionSettings, appEdit: string,
                          polls: seq<Poll>) returns (outcome: Outcome)
      requires progress.Some?
      modifies this
      ensures var r := UploadRun(old(progress).value, old(uploadSize),
                                 SelectUploader(configs.IsAppBundle()),
                                 configs.packageName, appEdit, polls);
        outcome == r.outcome && events == old(events) + r.log &&
        uploadSize == old(uploadSize) && progress == Some(r.progress)
    {
      var uploader := SelectUploader(configs.IsAppBundle());
      events := events + [StartUpload(uploader)];

      var uploadProgress := PollProgress(polls);
      if uploadProgress.None? {
        outcome := StillPolling;
      } else {
        outcome := FinishUpload(configs, appEdit, uploadProgress.value);
      }
    }

    /**
     * The polling loop: the first poll is only tested; each further poll is
     * fetched and, when not null, forwarded, until one is Completed or
     * Failed. Returns that poll, or None when the polls run out first.
     */
    method PollProgress(polls: seq<Poll>) returns (uploadProgress: Poll)
      requires progress.Some?
      modifies this
      ensures uploadProgress == EndingReport(polls)
      ensures var forwarded := Forwarded(polls, PollCount(polls));
        events == old(events) + NotifyEvents(old(progress).value, uploadSize, forwarded) &&
        progress == Some(LastSnapshot(old(progress).value, uploadSize, forwarded))
      ensures uploadSize == old(uploadSize)
    {
      ghost var base := progress.value;
      if polls == [] {
        assert NotifyEvents(base, uploadSize, []) == [];
        return None;
      }
      uploadProgress := polls[0];
      var i := 1;
      ghost var forwarded: seq<UploadProgress> := [];
      while !Ends(uploadProgress)
        invariant 1 <= i <= |polls|
        invariant uploadProgress == polls[i - 1]
        invariant forall j :: 0 <= j < i - 1 ==> !Ends(polls[j])
        invariant forwarded == Forwarded(polls, i)
        invariant uploadSize == old(uploadSize)
        invariant events == old(events) + NotifyEvents(base, uploadSize, forwarded)
        invariant progress == Some(LastSnapshot(base, uploadSize, forwarded))
        decreases |polls| - i
      {
        if i == |polls| {
          LoopRanOut(polls);
          return None;
        }
        uploadProgress := polls[i];
        i := i + 1;
        if uploadProgress.Some? {
          NotifyStep(base, uploadSize, forwarded, uploadProgress.value);
          OnUploadProgressChanged(uploadProgress.value);
          forwarded := forwarded + [uploadProgress.value];
        }
      }
      LoopExit(polls, i);
    }

    /** The switch on the report that ended polling: commit on Completed, otherwise raise. */
    method FinishUpload(configs: AndroidDistributionSettings, appEdit: string,
                        finished: UploadProgress) returns (outcome: Outcome)
      modifies this
      ensures outcome == Classify(finished)
      ensures events == old(events) + (if outcome == Published then [Commit(configs.packageName, appEdit)] else [])
      ensures uploadSize == old(uploadSize) && progress == old(progress)
    {
      if finished.status == Completed {
        CommitChangesToGooglePlay(configs, appEdit);
        outcome := Published;
      } else if finished.exception.Some? {
        outcome := Raised(finished.exception.value);
      } else {
        // the source's catch-all: any other non-null report that is not Completed
        outcome := Raised(UnknownFailureMessage);
      }
    }
  }
}

/**
 * Properties of the publish workflow, stated on `PublishRun`, the function
 * that `PlayStorePublisher.Publish` is proved to follow.
 */
module PublishProperties {
  import opened Wrappers
  import opened DistributionSettings
  import opened UploadProtocol
  import opened PlayStorePublishing

  /** Forwarded reports only ever produce notifications. */
  lemma NotifyEventsAreNotifications(base: ProgressData, uploadSize: nat, ps: seq<UploadProgress>)
    ensures forall e :: e in NotifyEvents(base, uploadSize, ps) ==> e.Notify?
  {
  }

  /** The first three events of a publish whose artifact exists. */
  function Opening(c: DistributionData): seq<Event>
  {
    [Notify(EmptyProgress), CreateEdit(c.packageName), StartUpload(SelectUploader(c.IsAppBundle()))]
  }

  /** The log of a publish whose artifact exists: opening, notifications, then the commit if any. */
  lemma PublishRunShape(c: DistributionData, files: map<string, nat>, editId: string, polls: seq<Poll>)
    requires FileExists(files, c.artifactPath)
    ensures var r := PublishRun(Some(c), files, editId, polls);
      var notes := NotifyEvents(EmptyProgress.(title := c.artifactPath), files[c.artifactPath.value],
                                Forwarded(polls, PollCount(polls)));
      r.outcome == UploadOutcome(polls) &&
      r.log == Opening(c) + notes + (if r.outcome == Published then [Commit(c.packageName, editId)] else [])
  {
  }

  /** Every publish first pushes a fresh, empty progress value, whatever follows. */
  lemma PublishResetsProgressFirst(configs: Option<DistributionData>, files: map<string, nat>,
                                   editId: string, polls: seq<Poll>)
    ensures var r := PublishRun(configs, files, editId, polls);
      |r.log| >= 1 && r.log[0] == Notify(EmptyProgress) &&
      EmptyProgress.progress == 0.0 && !EmptyProgress.isDone && EmptyProgress.title.None?
  {
  }

  /** A null configuration raises, after the reset and before anything reaches the store. */
  lemma NullConfigRaises(files: map<string, nat>, editId: string, polls: seq<Poll>)
    ensures var r := PublishRun(None, files, editId, polls);
      r.outcome == Raised(NoConfigMessage) && r.log == [Notify(EmptyProgress)] && r.uploadSize == 0
  {
  }

  /** A missing artifact ends the publish quietly: no edit, no upload, no commit. */
  lemma MissingArtifactSendsNothing(c: DistributionData, files: map<string, nat>,
                                    editId: string, polls: seq<Poll>)
    requires !FileExists(files, c.artifactPath)
    ensures var r := PublishRun(Some(c), files, editId, polls);
      r.outcome == FileMissing && r.uploadSize == 0 &&
      forall e :: e in r.log ==> e.Notify?
  {
  }

  /**
   * For an existing artifact the title is its path and the upload size its
   * length; exactly one edit is opened, right after the reset, and the
   * upload, started once with the uploader the artifact kind calls for,
   * comes after it.
   */
  lemma ExistingArtifactOpensOneEdit(c: DistributionData, files: map<string, nat>,
                                     editId: string, polls: seq<Poll>)
    requires FileExists(files, c.artifactPath)
    ensures var r := PublishRun(Some(c), files, editId, polls);
      r.progress.title == c.artifactPath &&
      r.uploadSize == files[c.artifactPath.value] &&
      |r.log| >= 3 &&
      r.log[1] == CreateEdit(c.packageName) &&
      r.log[2] == StartUpload(SelectUploader(c.IsAppBundle())) &&
      (forall j :: 0 <= j < |r.log| && j != 1 ==> !r.log[j].CreateEdit?) &&
      (forall j :: 0 <= j < |r.log| && j != 2 ==> !r.log[j].StartUpload?)
  {
    var r := PublishRun(Some(c), files, editId, polls);
    PublishRunShape(c, files, editId, polls);
    var notes := NotifyEvents(EmptyProgress.(title := c.artifactPath), files[c.artifactPath.value],
                              Forwarded(polls, PollCount(polls)));
    var commit := if r.outcome == Published then [Commit(c.packageName, editId)] else [];
    NotifyEventsAreNotifications(EmptyProgress.(title := c.artifactPath), files[c.artifactPath.value],
                                 Forwarded(polls, PollCount(polls)));
    forall j | 3 <= j < |r.log|
      ensures r.log[j].Notify? || r.log[j].Commit?
    {
      if j < 3 + |notes| {
        assert r.log[j] == notes[j - 3];
      } else {
        assert r.log[j] == commit[j - 3 - |notes|];
      }
    }
  }

  /**
   * The store sees a commit exactly when the upload ended Completed; there is
   * then one commit, the last event, for the edit that was opened.
   */
  lemma CommitOnlyOnCompletion(c: DistributionData, files: map<string, nat>,
                               editId: string, polls: seq<Poll>)
    requires FileExists(files, c.artifactPath)
    ensures var r := PublishRun(Some(c), files, editId, polls);
      ((exists j :: 0 <= j < |r.log| && r.log[j].Commit?) <==> r.outcome == Published) &&
      (r.outcome == Published <==>
        TerminalIndex(polls).Some? && polls[TerminalIndex(polls).value].value.status == Completed) &&
      (r.outcome == Published ==>
        r.log[|r.log| - 1] == Commit(c.packageName, editId) &&
        forall j :: 0 <= j < |r.log| - 1 ==> !r.log[j].Commit?)
  {
    var r := PublishRun(Some(c), files, editId, polls);
    PublishRunShape(c, files, editId, polls);
    var notes := NotifyEvents(EmptyProgress.(title := c.artifactPath), files[c.artifactPath.value],
                              Forwarded(polls, PollCount(polls)));
    var commit := if r.outcome == Published then [Commit(c.packageName, editId)] else [];
    var prefix := Opening(c) + notes;
    assert r.log == prefix + commit;
    assert forall j :: 0 <= j < |prefix| ==> !prefix[j].Commit? by {
      forall j | 3 <= j < |prefix| ensures !prefix[j].Commit? {
        assert prefix[j] == notes[j - 3];
      }
    }
    if r.outcome == Published {
      assert r.log[|r.log| - 1] == Commit(c.packageName, editId);
    } else {
      assert r.log == prefix;
    }
  }

  /**
   * An upload that ended Failed raises its exception's message verbatim, or
   * the "unknown" message when it carries none.
   */
  lemma FailureRaisesItsMessage(c: DistributionData, files: map<string, nat>,
                                editId: string, polls: seq<Poll>, k: nat)
    requires FileExists(files, c.artifactPath)
    requires TerminalIndex(polls) == Some(k) && polls[k].value.status == Failed
    ensures var r := PublishRun(Some(c), files, editId, polls);
      (polls[k].value.exception.Some? ==> r.outcome == Raised(polls[k].value.exception.value)) &&
      (polls[k].value.exception.None? ==> r.outcome == Raised(UnknownFailureMessage))
  {
  }

  /**
   * The notifications after the upload starts are one per non-null poll
   * fetched by the loop, in order (see `NonNullCounts` for repetitions and
   * `Fetched` for which polls the loop fetches).
   */
  lemma ForwardedArePolledReports(c: DistributionData, files: map<string, nat>,
                                  editId: string, polls: seq<Poll>)
    requires FileExists(files, c.artifactPath)
    ensures var r := PublishRun(Some(c), files, editId, polls);
      var base := EmptyProgress.(title := c.artifactPath);
      var size := files[c.artifactPath.value];
      var forwarded := Forwarded(polls, PollCount(polls));
      forwarded == NonNull(Fetched(polls)) &&
      |r.log| >= 3 + |forwarded| &&
      r.log[3..3 + |forwarded|] == NotifyEvents(base, size, forwarded)
  {
    var r := PublishRun(Some(c), files, editId, polls);
    PublishRunShape(c, files, editId, polls);
    ForwardedAreFetchedReports(polls);
    var notes := NotifyEvents(EmptyProgress.(title := c.artifactPath), files[c.artifactPath.value],
                              Forwarded(polls, PollCount(polls)));
    var commit := if r.outcome == Published then [Commit(c.packageName, editId)] else [];
  }

  /** A first poll that already ends the loop is never forwarded, and nothing else is either. */
  lemma InitialPollNeverForwarded(c: DistributionData, files: map<string, nat>,
                                  editId: string, polls: seq<Poll>)
    requires FileExists(files, c.artifactPath)
    requires polls != [] && Ends(polls[0])
    ensures var r := PublishRun(Some(c), files, editId, polls);
      r.log == [Notify(EmptyProgress), CreateEdit(c.packageName), StartUpload(SelectUploader(c.IsAppBundle()))] +
               (if r.outcome == Published then [Commit(c.packageName, editId)] else [])
  {
    var base := EmptyProgress.(title := c.artifactPath);
    assert PollCount(polls) == 1;
    assert NotifyEvents(base, files[c.artifactPath.value], []) == [];
  }

  /** Non-decreasing bytes sent give non-decreasing fractions on the progress channel. */
  lemma FractionsNonDecreasing(base: ProgressData, uploadSize: nat, ps: seq<UploadProgress>)
    requires forall i, j :: 0 <= i < j < |ps| ==> ps[i].bytesSent <= ps[j].bytesSent
    ensures var es := NotifyEvents(base, uploadSize, ps);
      forall i, j :: 0 <= i < j < |es| ==> es[i].snapshot.progress <= es[j].snapshot.progress
  {
    var es := NotifyEvents(base, uploadSize, ps);
    forall i, j | 0 <= i < j < |es|
      ensures es[i].snapshot.progress <= es[j].snapshot.progress
    {
      FractionMonotone(ps[i].bytesSent, ps[j].bytesSent, uploadSize);
    }
  }

  /** For an empty artifact every notified fraction is 1, whatever the status. */
  lemma EmptyArtifactIsFullyProgressed(base: ProgressData, ps: seq<UploadProgress>)
    ensures var es := NotifyEvents(base, 0, ps);
      forall i :: 0 <= i < |es| ==> es[i].snapshot.progress == 1.0
  {
  }

  /** A notification is done exactly when its report is Completed or Failed. */
  lemma NotificationDoneIffTerminal(base: ProgressData, uploadSize: nat, ps: seq<UploadProgress>)
    ensures var es := NotifyEvents(base, uploadSize, ps);
      forall i :: 0 <= i < |es| ==> (es[i].snapshot.isDone <==> IsTerminal(ps[i].status))
  {
  }

  /**
   * A 1000-byte bundle polled as null, 200 Uploading, 700 Uploading, 1000
   * Completed: fractions 0.2, 0.7, 1.0, the last one done, then the commit.
   */
  lemma ThousandByteScenario(c: DistributionData, editId: string)
    requires c.artifactPath == Some("game.aab")
    ensures var polls := [None, Some(UploadProgress(200, Uploading, None)),
                          Some(UploadProgress(700, Uploading, None)),
                          Some(UploadProgress(1000, Completed, None))];
      var r := PublishRun(Some(c), map["game.aab" := 1000], editId, polls);
      r.outcome == Published &&
      |r.log| == 7 &&
      r.log[2] == StartUpload(AppBundleUploader) &&
      r.log[3].snapshot.progress == 0.2 &&
      r.log[4].snapshot.progress == 0.7 &&
      r.log[5].snapshot.progress == 1.0 && r.log[5].snapshot.isDone &&
      r.log[6] == Commit(c.packageName, editId)
  {
    var polls := [None, Some(UploadProgress(200, Uploading, None)),
                  Some(UploadProgress(700, Uploading, None)),
                  Some(UploadProgress(1000, Completed, None))];
    assert OccursAt("game.aab", AppBundleExtension, 4);
    assert TerminalIndex(polls) == Some(3);
    assert Forwarded(polls, 4) == [polls[1].value, polls[2].value, polls[3].value];
  }

  /**
   * When the very first poll already reports completion, the caller sees no
   * progress beyond the reset value: nothing says the upload is done.
   */
  lemma CompletedAtFirstPollIsNeverShown(c: DistributionData, files: map<string, nat>, editId: string)
    requires FileExists(files, c.artifactPath)
    ensures var r := PublishRun(Some(c), files, editId, [Some(UploadProgress(0, Completed, None))]);
      r.outcome == Published &&
      forall j :: 0 <= j < |r.log| && r.log[j].Notify? ==> !r.log[j].snapshot.isDone
  {
    var polls := [Some(UploadProgress(0, Completed, None))];
    assert TerminalIndex(polls) == Some(0);
    var base := EmptyProgress.(title := c.artifactPath);
    assert NotifyEvents(base, files[c.artifactPath.value], []) == [];
  }
}

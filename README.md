# Play Store publisher — a Dafny model

This project models the decision core of a Unity editor tool that publishes an
Android artifact (an `.apk` or an `.aab` App Bundle) to Google Play:

- `PlayStorePublisher.Publish` resets its progress value, checks the
  configuration and the artifact file, records the artifact's size and
  title, opens an edit on the store and runs the upload;
- `UploadArtifact` picks the bundle or APK uploader, starts the upload, polls
  its progress until a report is Completed or Failed, forwarding every
  non-null report fetched in the loop to the progress channel, then commits
  the edit or raises the failure;
- `OnUploadProgressChanged` turns a report into the caller-facing progress
  value (fraction, status text, done flag) and force-notifies it;
- `AndroidDistributionSettings` holds the settings, detects bundles by the
  ".aab" substring, fills empty fields from the build settings in
  `Validate`, and lists the track branches and statuses.

The remote side is abstracted. The filesystem is a map from path to file
length. The store's id for the new edit is an input. The running upload is a finite
sequence of poll answers (`Option<UploadProgress>`, None for a null
answer). What the publisher does towards the store and towards observers is
an event log: `Notify(snapshot)`, `CreateEdit`, `StartUpload(uploader)`,
`Commit(package, editId)`. The single-slot reactive progress property
is one field, `progress`, together with the `Notify` events. The source
updates one shared progress object in place and force-notifies it, so
repeated values are notified again.

Files:

- `wrappers.dfy`: `Option`, nullable strings, `IsNullOrEmpty`.
- `distribution_settings.dfy`: `DistributionSettings`, covering the settings class, its value `DistributionData`, substring search, `Validate` and its specification `Validated`.
- `upload_protocol.dfy`: `UploadProtocol`, covering poll results, where the loop stops (`TerminalIndex`), which polls the loop fetches (`Fetched`), null filtering (`NonNull`), what it forwards (`Forwarded`), the fraction, the snapshot and the terminal switch (`Classify`).
- `play_store_publisher.dfy`: `PlayStorePublishing`, covering the publisher class, with the loop in `PollProgress` (called from `UploadArtifact`) proved against the specification functions `UploadRun` and `PublishRun`.
- `publish_properties.dfy`: `PublishProperties`, holding the workflow's properties as lemmas on `PublishRun`.

The model follows these facts about the code:

- The code does not clamp the fraction to [0, 1].
- On completion the code does not check the byte count against the file size.
- The polling loop has no timeout and no cancellation.
- The upload ends in one of three ways: a commit, the exception's message, or the "unknown" message. There is no typed error taxonomy.
- A missing artifact is logged and the call returns without raising an error.
- The notified fractions are non-decreasing when the reported byte counts are (`FractionsNonDecreasing`). The code does not enforce this itself.
- A successful upload need not end with a "done" snapshot. If the very first poll already reports completion, nothing after the reset value is notified (`CompletedAtFirstPollIsNeverShown`).

## Model

| member | source | states |
|---|---|---|
| `DistributionSettings.FirstOrDefault` | Editor/PlayStore/AndroidDistributionSettings.cs:48 | null for an empty list, otherwise the first entry |
| `DistributionSettings.ContainsIffOccurs` | Editor/PlayStore/AndroidDistributionSettings.cs:70 | `Contains(s, sub)` holds iff `sub` occurs in `s` at some index |
| `DistributionSettings.DistributionData.IsAppBundle` | Editor/PlayStore/AndroidDistributionSettings.cs:70 | a bundle iff the artifact path is non-null and ".aab" occurs anywhere in it, not only at the end |
| `DistributionSettings.BundleDetectionExamples` | Editor/PlayStore/AndroidDistributionSettings.cs:70 | "out/game.aab.bak" is a bundle; "a.apk" and a null path are not |
| `DistributionSettings.DistributionData.Validated` | Editor/PlayStore/AndroidDistributionSettings.cs:76-81 | an empty package name becomes the application identifier. An empty release name or empty release notes become the bundle version. Non-empty values are kept, and every other field is unchanged |
| `DistributionSettings.ValidateIdempotent` | Editor/PlayStore/AndroidDistributionSettings.cs:76-81 | validating twice with the same build values equals validating once |
| `DistributionSettings.ValidateFillsDefaults` | Editor/PlayStore/AndroidDistributionSettings.cs:78-80 | with non-empty build values, the three defaulted fields are non-empty afterwards |
| `DistributionSettings.AndroidDistributionSettings.Validate` | Editor/PlayStore/AndroidDistributionSettings.cs:76-81 | the object's new value is `Validated` of its old value |
| `DistributionSettings.AndroidDistributionSettings.constructor` | Editor/PlayStore/AndroidDistributionSettings.cs:25-57 | the language is "en" and the track branch and status are the first list entries ("internal", "inProgress"). The fraction is 1 and the other fields are null |
| `DistributionSettings.AndroidDistributionSettings.GetBranchType` | Editor/PlayStore/AndroidDistributionSettings.cs:72 | exactly ["internal","alpha","beta","production"], whose first entry is the default branch |
| `DistributionSettings.AndroidDistributionSettings.GetTrackStatus` | Editor/PlayStore/AndroidDistributionSettings.cs:73 | exactly ["inProgress","completed","draft"], whose first entry is the default status |
| `UploadProtocol.TerminalIndex` | Editor/PlayStore/PlayStorePublisher.cs:81 | the first poll that is non-null with status Completed or Failed. Every earlier poll is null or non-terminal. None means no poll is terminal |
| `UploadProtocol.FetchedShape` | Editor/PlayStore/PlayStorePublisher.cs:79-90 | the polls the loop body fetches are a prefix of the polls after the first, reaching exactly the first terminal one (as many fetched as polls before it). None of them is terminal except the last, and none is fetched when the first poll already ends the loop |
| `UploadProtocol.PollCount` | Editor/PlayStore/PlayStorePublisher.cs:79-90 | the loop consumes at least one and at most all of the polls |
| `UploadProtocol.ForwardedIsNonNull` | Editor/PlayStore/PlayStorePublisher.cs:83-87 | after the first `n` polls, the reports forwarded so far are the non-null polls among polls 1 to n-1, in order |
| `UploadProtocol.ForwardedAreFetchedReports` | Editor/PlayStore/PlayStorePublisher.cs:81-90 | what the whole loop forwards is exactly the non-null polls it fetches, in order |
| `UploadProtocol.NonNullAppend` | Editor/PlayStore/PlayStorePublisher.cs:83-87 | forwarding keeps the order of the polls |
| `UploadProtocol.NonNullCounts` | Editor/PlayStore/PlayStorePublisher.cs:83-87 | each report is forwarded as many times as it was polled, duplicates included. Null answers are dropped |
| `UploadProtocol.FractionMeaning` | Editor/PlayStore/PlayStorePublisher.cs:107 | 1 for an empty file. Otherwise the fraction times the size equals the bytes sent, with no clamping |
| `UploadProtocol.FractionMonotone` | Editor/PlayStore/PlayStorePublisher.cs:107 | more bytes sent never gives a smaller fraction |
| `UploadProtocol.FractionBounded` | Editor/PlayStore/PlayStorePublisher.cs:107 | for 0 <= bytes sent <= size, the fraction lies in [0, 1] |
| `UploadProtocol.SnapshotOverwrites` | Editor/PlayStore/PlayStorePublisher.cs:105-110 | a snapshot keeps the title and takes its fraction from the formula. It is done iff the status is Completed or Failed, and it depends only on the report, the size and the title |
| `UploadProtocol.Classify` | Editor/PlayStore/PlayStorePublisher.cs:92-101 | commit iff Completed. Otherwise an exception's message verbatim, or the "Reason: unknown" message when there is no exception |
| `UploadProtocol.UploadOutcomeMeaning` | Editor/PlayStore/PlayStorePublisher.cs:81-101 | still polling iff no poll ends the loop. The edit is published iff the first poll that ends the loop is Completed |
| `PlayStorePublishing.SelectUploader` | Editor/PlayStore/PlayStorePublisher.cs:67-70 | the bundle uploader iff the artifact is a bundle, otherwise the APK uploader |
| `PlayStorePublishing.EndingReport` | Editor/PlayStore/PlayStorePublisher.cs:81-92 | the poll that ends the loop exists iff some poll is non-null and terminal. It is the first such poll, and it is Completed or Failed |
| `PlayStorePublishing.LoopExit` | Editor/PlayStore/PlayStorePublisher.cs:81 | a loop that stops at poll `i-1` after `i-1` polls that do not end it has found the first terminal poll and consumed `i` polls |
| `PlayStorePublishing.PlayStorePublisher.constructor` | Editor/PlayStore/PlayStorePublisher.cs:27-29 | size 0, no progress value, nothing sent |
| `PlayStorePublishing.PlayStorePublisher.Publish` | Editor/PlayStore/PlayStorePublisher.cs:33-62 | outcome, event log, size and progress value are those of `PublishRun` |
| `PlayStorePublishing.PlayStorePublisher.CreateAppEdit` | Editor/PlayStore/PlayStorePublisher.cs:114-125 | logs one `CreateEdit` for the package and returns the store's edit id |
| `PlayStorePublishing.PlayStorePublisher.CommitChangesToGooglePlay` | Editor/PlayStore/PlayStorePublisher.cs:127-135 | logs one `Commit` of the given edit for the package |
| `PlayStorePublishing.PlayStorePublisher.OnUploadProgressChanged` | Editor/PlayStore/PlayStorePublisher.cs:105-112 | the progress value becomes the report's snapshot and is notified, also when it repeats the last one |
| `PlayStorePublishing.PlayStorePublisher.UploadArtifact` | Editor/PlayStore/PlayStorePublisher.cs:64-103 | the uploader choice, the polling loop and the terminal switch produce the outcome, events and progress value of `UploadRun` |
| `PlayStorePublishing.PlayStorePublisher.PollProgress` | Editor/PlayStore/PlayStorePublisher.cs:79-90 | the loop returns the first terminal poll, or None when the polls run out. It notifies one snapshot per forwarded report, in order, and leaves the last one as the progress value. The loop invariant ties the log to the non-null polls fetched so far |
| `PlayStorePublishing.PlayStorePublisher.FinishUpload` | Editor/PlayStore/PlayStorePublisher.cs:92-101 | the outcome is `Classify` of the ending report, and exactly one commit is logged iff it is Completed |
| `PublishProperties.PublishResetsProgressFirst` | Editor/PlayStore/PlayStorePublisher.cs:35-37 | every publish first notifies a fresh, empty progress value |
| `PublishProperties.NullConfigRaises` | Editor/PlayStore/PlayStorePublisher.cs:39-42 | a null configuration raises "Cannot load a valid BundleConfig" with size 0, and only the reset is notified |
| `PublishProperties.MissingArtifactSendsNothing` | Editor/PlayStore/PlayStorePublisher.cs:44-49 | a missing artifact returns without an edit, an upload or a commit |
| `PublishProperties.ExistingArtifactOpensOneEdit` | Editor/PlayStore/PlayStorePublisher.cs:51-60 | the title is the artifact path and the size is the file length. Exactly one edit is opened, right after the reset, and it comes before the single upload start |
| `PublishProperties.CommitOnlyOnCompletion` | Editor/PlayStore/PlayStorePublisher.cs:92-96 | a commit happens iff the terminal report is Completed. It is then the only commit and the last event, for the opened edit's id |
| `PublishProperties.FailureRaisesItsMessage` | Editor/PlayStore/PlayStorePublisher.cs:97-100 | a Failed upload raises its exception's message verbatim, or the "unknown" message |
| `PublishProperties.ForwardedArePolledReports` | Editor/PlayStore/PlayStorePublisher.cs:81-90 | the reports forwarded are the non-null fetched polls, and the events right after the upload start are one snapshot of each, in order |
| `PublishProperties.InitialPollNeverForwarded` | Editor/PlayStore/PlayStorePublisher.cs:79-90 | when the first poll already ends the loop, no report is notified |
| `PublishProperties.FractionsNonDecreasing` | Editor/PlayStore/PlayStorePublisher.cs:107 | non-decreasing bytes sent give non-decreasing notified fractions |
| `PublishProperties.EmptyArtifactIsFullyProgressed` | Editor/PlayStore/PlayStorePublisher.cs:107 | for a 0-byte artifact every notified fraction is 1 |
| `PublishProperties.NotificationDoneIffTerminal` | Editor/PlayStore/PlayStorePublisher.cs:110 | a notification is done iff its report is Completed or Failed |
| `PublishProperties.ThousandByteScenario` | Editor/PlayStore/PlayStorePublisher.cs:79-111 | a 1000-byte bundle polled as null, 200, 700, 1000 Completed notifies 0.2, 0.7 and 1.0 (done), then commits |
| `PublishProperties.CompletedAtFirstPollIsNeverShown` | Editor/PlayStore/PlayStorePublisher.cs:79-94 | completion at the first poll commits without any done snapshot |

## Left out

- Google API calls are not modelled: credentials from the key file, service construction, the 600-second HTTP timeout, and the `Edits.Insert` / `Edits.Commit` requests. The edit id is an input, and opening and committing always succeed. A failing remote call, which would throw out of `Publish`, is not modelled.
- `File.Exists`, `FileInfo.Length` and `File.ReadAllText` are filesystem I/O. The files are a map from path to length, and a null path does not exist. .NET's rejection of empty or malformed paths is not modelled.
- `async void`, `UniTask`, `UploadAsync().Start()` and `Thread.Sleep(200)` are concurrency and timing. The sleep is one loop step with no effect. How exceptions of an `async void` method reach the synchronisation context is not modelled: "raised" is the exception the call ends with.
- The source polls forever when no report ever ends the loop. The model has finitely many polls and reports `StillPolling` when they run out.
- The `AndroidAppBundlerUploader` and `AndroidApkUploader` implementations are not part of this model. Only the chosen uploader is recorded.
- Floating point is not modelled: the division in double and the cast to float are exact real division, and `userFraction` is a real.
- The `Content` text is the triple (status, bytes sent, size) and not the formatted string. `Debug.Log` output and inspector attributes are left out.
- `ProgressData` is not part of this model. It is taken to be a reference type with default equality, whose fresh instance has a null title, fraction 0, no content and not done. A new instance therefore differs from the old one, and setting the property at the start always notifies.
- Observers receive a reference to the one shared progress object. The log records its value at each notification, so later in-place changes are not seen through earlier notifications. Subscription and unsubscription of observers are not modelled.
- `PlayerSettings.applicationIdentifier` and `PlayerSettings.bundleVersion` are parameters of `Validate`.

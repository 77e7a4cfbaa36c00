/**
 * What the publisher observes of a running upload: the results of polling
 * it, where the polling loop stops, which results reach the progress
 * channel, the caller-facing progress snapshot, and the verdict on the
 * terminal result.
 */
module UploadProtocol {
  import opened Wrappers

  /** The states an upload reports. */
  datatype UploadStatus = NotStarted | Starting | Uploading | Completed | Failed

  predicate IsTerminal(s: UploadStatus)
  {
    s == Completed || s == Failed
  }

  /** One progress report: bytes sent, status, and the message of the exception, if one is attached. */
  datatype UploadProgress = UploadProgress(bytesSent: int, status: UploadStatus, exception: Option<string>)

  /** One answer of `GetProgress()`, which may be null. */
  type Poll = Option<UploadProgress>

  /** The polling loop stops at a poll exactly when this holds of it. */
  predicate Ends(p: Poll)
  {
    p.Some? && IsTerminal(p.value.status)
  }

  /** The index of the first poll that ends the polling loop, if any poll does. */
  function TerminalIndex(polls: seq<Poll>): (r: Option<nat>)
    ensures r.Some? ==> r.value < |polls| && Ends(polls[r.value])
    ensures r.Some? ==> forall j :: 0 <= j < r.value ==> !Ends(polls[j])
    ensures r.None? ==> forall j :: 0 <= j < |polls| ==> !Ends(polls[j])
  {
    if polls == [] then None
    else if Ends(polls[0]) then Some(0)
    else match TerminalIndex(polls[1..])
      case None => None
      case Some(k) => Some(k + 1)
  }

  /**
   * The polls fetched inside the loop body: the first poll is taken before
   * the loop and only tested, the loop then fetches one poll per iteration
   * up to and including the first that ends it (or all of them, when none
   * does).
   */
  function Fetched(polls: seq<Poll>): seq<Poll>
  {
    if polls == [] then []
    else match TerminalIndex(polls)
      case Some(k) => polls[1..k + 1]
      case None => polls[1..]
  }

  /**
   * The fetched polls are the polls after the first, up to the first that
   * ends the loop; none is fetched when the first poll already ends it.
   */
  lemma FetchedShape(polls: seq<Poll>)
    ensures var r := Fetched(polls);
      (polls == [] ==> r == []) &&
      (polls != [] ==> |r| < |polls| && r == polls[1..1 + |r|]) &&
      (polls != [] && Ends(polls[0]) ==> r == []) &&
      (forall j :: 0 <= j < |r| - 1 ==> !Ends(r[j])) &&
      (TerminalIndex(polls).Some? && r != [] ==> Ends(r[|r| - 1])) &&
      (TerminalIndex(polls).Some? ==> |r| == TerminalIndex(polls).value) &&
      (TerminalIndex(polls).None? && polls != [] ==> |r| == |polls| - 1)
  {
    var r := Fetched(polls);
    if polls != [] {
      match TerminalIndex(polls)
      case Some(k) =>
        assert forall j :: 0 <= j < |r| ==> r[j] == polls[j + 1];
      case None =>
        assert forall j :: 0 <= j < |r| ==> r[j] == polls[j + 1];
    }
  }

  /** The reports among the polls, in order, skipping the nulls. */
  function NonNull(ps: seq<Poll>): seq<UploadProgress>
  {
    if ps == [] then []
    else (if ps[0].Some? then [ps[0].value] else []) + NonNull(ps[1..])
  }

  lemma {:induction false} NonNullAppend(a: seq<Poll>, b: seq<Poll>)
    ensures NonNull(a + b) == NonNull(a) + NonNull(b)
  {
    if a == [] {
      assert a + b == b;
    } else {
      var ab := a + b;
      assert ab[0] == a[0] && ab[1..] == a[1..] + b;
      NonNullAppend(a[1..], b);
      assert NonNull(ab) == (if a[0].Some? then [a[0].value] else []) + NonNull(ab[1..]);
    }
  }

  /** Each report is kept as often as it was polled, duplicates included; nulls are dropped. */
  lemma {:induction false} NonNullCounts(ps: seq<Poll>)
    ensures forall x :: multiset(NonNull(ps))[x] == multiset(ps)[Some(x)]
  {
    if ps != [] {
      NonNullCounts(ps[1..]);
      assert ps == [ps[0]] + ps[1..];
      assert multiset(ps) == multiset{ps[0]} + multiset(ps[1..]);
    }
  }

  /** How many polls the loop consumes: up to and including the first that ends it, or all of them. */
  function PollCount(polls: seq<Poll>): (n: nat)
    ensures n <= |polls|
    ensures polls != [] ==> n >= 1
  {
    match TerminalIndex(polls)
    case None => |polls|
    case Some(k) => k + 1
  }

  /** The reports forwarded while consuming the first `n` polls: the non-null ones after the first. */
  function Forwarded(polls: seq<Poll>, n: nat): seq<UploadProgress>
    requires n <= |polls|
  {
    if n <= 1 then []
    else Forwarded(polls, n - 1) + (if polls[n - 1].Some? then [polls[n - 1].value] else [])
  }

  lemma {:induction false} ForwardedIsNonNull(polls: seq<Poll>, n: nat)
    requires 1 <= n <= |polls|
    ensures Forwarded(polls, n) == NonNull(polls[1..n])
  {
    if n > 1 {
      ForwardedIsNonNull(polls, n - 1);
      assert polls[1..n] == polls[1..n - 1] + [polls[n - 1]];
      NonNullAppend(polls[1..n - 1], [polls[n - 1]]);
      assert NonNull([polls[n - 1]]) == (if polls[n - 1].Some? then [polls[n - 1].value] else []);
    } else {
      assert polls[1..n] == [];
    }
  }

  /** What the loop forwards is exactly the non-null polls it fetches, in order. */
  lemma ForwardedAreFetchedReports(polls: seq<Poll>)
    ensures Forwarded(polls, PollCount(polls)) == NonNull(Fetched(polls))
  {
    if polls != [] {
      ForwardedIsNonNull(polls, PollCount(polls));
      assert Fetched(polls) == polls[1..PollCount(polls)];
    }
  }

  /**
   * The progress fraction of `bytesSent` out of `uploadSize`: 1 for an empty
   * file, otherwise the plain ratio, which is not clamped to [0, 1].
   */
  function Fraction(bytesSent: int, uploadSize: nat): real
  {
    if uploadSize == 0 then 1.0 else bytesSent as real / uploadSize as real
  }

  /** The fraction is 1 for an empty file and otherwise the exact share of the size sent. */
  lemma FractionMeaning(bytesSent: int, uploadSize: nat)
    ensures uploadSize == 0 ==> Fraction(bytesSent, uploadSize) == 1.0
    ensures uploadSize > 0 ==> Fraction(bytesSent, uploadSize) * (uploadSize as real) == bytesSent as real
  {
  }

  /** More bytes sent never gives a smaller fraction. */
  lemma FractionMonotone(a: int, b: int, uploadSize: nat)
    requires a <= b
    ensures Fraction(a, uploadSize) <= Fraction(b, uploadSize)
  {
    if uploadSize > 0 {
      var s := uploadSize as real;
      assert Fraction(b, uploadSize) - Fraction(a, uploadSize) == (b - a) as real / s;
    }
  }

  /** Within [0, uploadSize] the fraction stays within [0, 1]. */
  lemma FractionBounded(bytesSent: int, uploadSize: nat)
    requires 0 <= bytesSent <= uploadSize
    ensures 0.0 <= Fraction(bytesSent, uploadSize) <= 1.0
  {
    FractionMonotone(0, bytesSent, uploadSize);
    FractionMonotone(bytesSent, uploadSize, uploadSize);
  }

  /** The status text of a snapshot, standing for "STATUS: <status> : <bytes> : <size> bytes". */
  datatype StatusLine = StatusLine(status: UploadStatus, bytesSent: int, uploadSize: nat)

  /** The caller-facing progress value: title, fraction, status text, done flag. */
  datatype ProgressData = ProgressData(title: NullableString, progress: real, content: Option<StatusLine>, isDone: bool)

  /** A freshly constructed progress value. */
  const EmptyProgress := ProgressData(None, 0.0, None, false)

  /** The progress value after a report: the title is kept, the rest derived from the report. */
  function Snapshot(prev: ProgressData, p: UploadProgress, uploadSize: nat): ProgressData
  {
    prev.(progress := Fraction(p.bytesSent, uploadSize),
          content := Some(StatusLine(p.status, p.bytesSent, uploadSize)),
          isDone := IsTerminal(p.status))
  }

  /** A snapshot depends only on the report, the size and the title it is written over. */
  lemma SnapshotOverwrites(prev: ProgressData, p: UploadProgress, uploadSize: nat)
    ensures var r := Snapshot(prev, p, uploadSize);
      r.title == prev.title &&
      (uploadSize == 0 ==> r.progress == 1.0) &&
      (uploadSize > 0 ==> r.progress == Fraction(p.bytesSent, uploadSize)) &&
      (r.isDone <==> p.status == Completed || p.status == Failed) &&
      forall q: ProgressData :: q.title == prev.title ==> Snapshot(q, p, uploadSize) == r
  {
  }

  /** How one publish ends. */
  datatype Outcome =
    | Published            // the edit was committed
    | FileMissing          // the artifact file does not exist; nothing was sent
    | Raised(message: string)  // an exception with this message is thrown
    | StillPolling         // the given polls ran out before the upload ended

  const NoConfigMessage: string := "Cannot load a valid BundleConfig"
  const UnknownFailureMessage: string := "File upload failed. Reason: unknown :("

  /** The switch on the report that ended the polling loop. */
  function Classify(p: UploadProgress): (r: Outcome)
    ensures r.Published? || r.Raised?
    ensures r.Published? <==> p.status == Completed
    ensures p.status != Completed && p.exception.Some? ==> r == Raised(p.exception.value)
    ensures p.status != Completed && p.exception.None? ==> r == Raised(UnknownFailureMessage)
  {
    if p.status == Completed then Published
    else if p.exception.Some? then Raised(p.exception.value)
    else Raised(UnknownFailureMessage)
  }

  /** The outcome of the polling loop and the switch after it. */
  function UploadOutcome(polls: seq<Poll>): Outcome
  {
    match TerminalIndex(polls)
    case None => StillPolling
    case Some(k) => Classify(polls[k].value)
  }

  /**
   * Polling is still going on exactly when no poll ends the loop, and the
   * upload is published exactly when the first poll that ends it is Completed.
   */
  lemma UploadOutcomeMeaning(polls: seq<Poll>)
    ensures UploadOutcome(polls).StillPolling? <==> forall j :: 0 <= j < |polls| ==> !Ends(polls[j])
    ensures UploadOutcome(polls).Published? <==>
      (exists k :: 0 <= k < |polls| && Ends(polls[k]) && polls[k].value.status == Completed &&
                   forall j :: 0 <= j < k ==> !Ends(polls[j]))
  {
    if TerminalIndex(polls).Some? {
      var k := TerminalIndex(polls).value;
      assert Ends(polls[k]);
    }
  }
}

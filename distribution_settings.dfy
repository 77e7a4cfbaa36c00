/**
 * The distribution settings of an Android artifact: package name, key and
 * artifact paths, release notes, target track and rollout fraction, with the
 * defaults they start from and the defaulting `Validate` performs.
 */
module DistributionSettings {
  import opened Wrappers

  /** The extension that marks an Android App Bundle. */
  const AppBundleExtension: string := ".aab"

  /** The track branches offered, in the order they are listed. */
  const BranchVersions: seq<string> := ["internal", "alpha", "beta", "production"]

  /** The track statuses offered, in the order they are listed. */
  const TrackNameStatus: seq<string> := ["inProgress", "completed", "draft"]

  /** LINQ `FirstOrDefault` on a list of strings: the first entry, or null. */
  function FirstOrDefault(xs: seq<string>): (r: NullableString)
    ensures r.None? <==> xs == []
    ensures r.Some? ==> r.value == xs[0]
  {
    if xs == [] then None else Some(xs[0])
  }

  /** `sub` occurs in `s` starting at index `i`. */
  predicate OccursAt(s: string, sub: string, i: int)
  {
    0 <= i && i + |sub| <= |s| && s[i..i + |sub|] == sub
  }

  /** Ordinal `string.Contains`: the empty string occurs in every string. */
  function Contains(s: string, sub: string): bool
    decreases |s|
  {
    if |sub| > |s| then false
    else s[..|sub|] == sub || Contains(s[1..], sub)
  }

  lemma OccursAtTail(s: string, sub: string, i: int)
    requires |s| > 0 && i >= 1
    ensures OccursAt(s, sub, i) <==> OccursAt(s[1..], sub, i - 1)
  {
    if i + |sub| <= |s| {
      assert s[1..][i - 1..i - 1 + |sub|] == s[i..i + |sub|];
    }
  }

  /** `Contains` finds an occurrence anywhere in the string, not only at its end. */
  lemma {:induction false} ContainsIffOccurs(s: string, sub: string)
    ensures Contains(s, sub) <==> exists i :: OccursAt(s, sub, i)
    decreases |s|
  {
    if |sub| > |s| {
      assert forall i :: !OccursAt(s, sub, i);
    } else if s[..|sub|] == sub {
      assert OccursAt(s, sub, 0);
    } else {
      ContainsIffOccurs(s[1..], sub);
      if Contains(s[1..], sub) {
        var i :| OccursAt(s[1..], sub, i);
        OccursAtTail(s, sub, i + 1);
      } else {
        forall i ensures !OccursAt(s, sub, i) {
          if i == 0 {
            assert s[0..|sub|] == s[..|sub|];
          } else if i >= 1 {
            OccursAtTail(s, sub, i);
          }
        }
      }
    }
  }

  /**
   * The value of an `AndroidDistributionSettings` object. `Validate` is
   * specified through `Validated` on this value.
   */
  datatype DistributionData = DistributionData(
    packageName: NullableString,
    jsonKeyPath: NullableString,
    artifactPath: NullableString,
    recentChangedLang: NullableString,
    recentChangesText: NullableString,
    trackBranch: NullableString,
    releaseName: NullableString,
    trackStatus: NullableString,
    userFraction: real)
  {
    /** The artifact is a bundle when its path is set and contains ".aab" anywhere. */
    predicate IsAppBundle()
      ensures IsAppBundle() <==>
        artifactPath.Some? && exists i :: OccursAt(artifactPath.value, AppBundleExtension, i)
    {
      artifactPath.Some? &&
      (ContainsIffOccurs(artifactPath.value, AppBundleExtension);
       Contains(artifactPath.value, AppBundleExtension))
    }

    /**
     * The settings after `Validate`: an empty package name falls back to the
     * application identifier, an empty release name and release notes to the
     * bundle version; every other field is kept.
     */
    function Validated(applicationIdentifier: string, bundleVersion: string): (r: DistributionData)
      ensures IsNullOrEmpty(packageName) ==> r.packageName == Some(applicationIdentifier)
      ensures !IsNullOrEmpty(packageName) ==> r.packageName == packageName
      ensures IsNullOrEmpty(releaseName) ==> r.releaseName == Some(bundleVersion)
      ensures !IsNullOrEmpty(releaseName) ==> r.releaseName == releaseName
      ensures IsNullOrEmpty(recentChangesText) ==> r.recentChangesText == Some(bundleVersion)
      ensures !IsNullOrEmpty(recentChangesText) ==> r.recentChangesText == recentChangesText
      ensures r.(packageName := packageName, releaseName := releaseName,
                 recentChangesText := recentChangesText) == this
    {
      this.(
        packageName := if IsNullOrEmpty(packageName) then Some(applicationIdentifier) else packageName,
        releaseName := if IsNullOrEmpty(releaseName) then Some(bundleVersion) else releaseName,
        recentChangesText := if IsNullOrEmpty(recentChangesText) then Some(bundleVersion) else recentChangesText)
    }
  }

  /** Validating twice with the same build values is the same as validating once. */
  lemma ValidateIdempotent(d: DistributionData, applicationIdentifier: string, bundleVersion: string)
    ensures d.Validated(applicationIdentifier, bundleVersion).Validated(applicationIdentifier, bundleVersion)
         == d.Validated(applicationIdentifier, bundleVersion)
  {
  }

  /** After validation the three defaulted fields are set, provided the build values are non-empty. */
  lemma ValidateFillsDefaults(d: DistributionData, applicationIdentifier: string, bundleVersion: string)
    requires applicationIdentifier != "" && bundleVersion != ""
    ensures var r := d.Validated(applicationIdentifier, bundleVersion);
      !IsNullOrEmpty(r.packageName) && !IsNullOrEmpty(r.releaseName) && !IsNullOrEmpty(r.recentChangesText)
  {
  }

  class AndroidDistributionSettings {
    var packageName: NullableString
    var jsonKeyPath: NullableString
    var artifactPath: NullableString
    var recentChangedLang: NullableString
    var recentChangesText: NullableString
    var trackBranch: NullableString
    var releaseName: NullableString
    var trackStatus: NullableString
    var userFraction: real

    /** Field initialisers: language "en", the first track branch and status, full rollout. */
    constructor ()
      ensures Data() == DistributionData(None, None, None, Some("en"), None,
                                         FirstOrDefault(BranchVersions), None,
                                         FirstOrDefault(TrackNameStatus), 1.0)
      ensures trackBranch == Some("internal") && trackStatus == Some("inProgress")
    {
      packageName := None;
      jsonKeyPath := None;
      artifactPath := None;
      recentChangedLang := Some("en");
      recentChangesText := None;
      trackBranch := FirstOrDefault(BranchVersions);
      releaseName := None;
      trackStatus := FirstOrDefault(TrackNameStatus);
      userFraction := 1.0;
    }

    /** The object's fields as a value. */
    function Data(): DistributionData
      reads this
    {
      DistributionData(packageName, jsonKeyPath, artifactPath, recentChangedLang,
                       recentChangesText, trackBranch, releaseName, trackStatus, userFraction)
    }

    function IsAppBundle(): bool
      reads this
    {
      Data().IsAppBundle()
    }

    function GetBranchType(): (r: seq<string>)
      ensures r == ["internal", "alpha", "beta", "production"]
      ensures FirstOrDefault(r) == Some("internal")
    {
      BranchVersions
    }

    function GetTrackStatus(): (r: seq<string>)
      ensures r == ["inProgress", "completed", "draft"]
      ensures FirstOrDefault(r) == Some("inProgress")
    {
      TrackNameStatus
    }

    /**
     * Fills the empty package name, release name and release notes in place;
     * `applicationIdentifier` and `bundleVersion` are the build system's values.
     */
    method Validate(applicationIdentifier: string, bundleVersion: string)
      modifies this
      ensures Data() == old(Data()).Validated(applicationIdentifier, bundleVersion)
    {
      packageName := if IsNullOrEmpty(packageName) then Some(applicationIdentifier) else packageName;
      releaseName := if IsNullOrEmpty(releaseName) then Some(bundleVersion) else releaseName;
      recentChangesText := if IsNullOrEmpty(recentChangesText) then Some(bundleVersion) else recentChangesText;
    }
  }

  /** A path with ".aab" in the middle still counts as a bundle; an APK path does not. */
  lemma BundleDetectionExamples()
    ensures DistributionData(None, None, Some("out/game.aab.bak"), None, None, None, None, None, 1.0).IsAppBundle()
    ensures !DistributionData(None, None, Some("a.apk"), None, None, None, None, None, 1.0).IsAppBundle()
    ensures !DistributionData(None, None, None, None, None, None, None, None, 1.0).IsAppBundle()
  {
    assert OccursAt("out/game.aab.bak", AppBundleExtension, 8);
    var apk := "a.apk";
    assert apk[0..4] != AppBundleExtension && apk[1..5] != AppBundleExtension by {
      assert apk[0..4][0] == 'a' && apk[1..5][2] == 'p';
    }
    assert forall i :: !OccursAt(apk, AppBundleExtension, i);
  }
}

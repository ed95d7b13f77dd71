/** The platform choices of the installer: which platform id the host
    reports, which release asset belongs to it, which asset of a release
    carries it, and the name the downloaded archive is saved under. */
module SetupPlatform {

  import opened Wrappers
  import opened Text

  /** `detect_platform`, given `platform.system()` and `platform.machine()`;
      both are lower-cased before they are compared. */
  function DetectPlatform(system: string, machine: string): (r: Option<string>)
    ensures r.Some? ==> r.value in PlatformIds
  {
    var sys, mach := Lower(system), Lower(machine);
    if sys == "darwin" then
      if Contains(mach, "arm64") || Contains(mach, "aarch64") then Some("macos-arm64") else Some("macos-x64")
    else if sys == "linux" then
      if Contains(mach, "x86_64") then Some("linux-x64")
      else if Contains(mach, "aarch64") then Some("linux-arm64")
      else Some("linux-x86")
    else if sys == "windows" then Some("windows-x64")
    else None
  }

  /** The platform ids `detect_platform` can return. */
  const PlatformIds: set<string> := {"macos-arm64", "macos-x64", "linux-x64", "linux-arm64", "linux-x86", "windows-x64"}

  /** The release asset the installer looks for on each platform; there is
      none for `linux-x86`, nor for any other string. */
  function AssetName(platformType: string): (r: Option<string>)
    ensures r.Some? ==> "xmrig-6.25.0-" <= r.value
  {
    if platformType == "macos-arm64" then Some("xmrig-6.25.0-macos-arm64.tar.gz")
    else if platformType == "macos-x64" then Some("xmrig-6.25.0-macos-x64.tar.gz")
    else if platformType == "linux-x64" then Some("xmrig-6.25.0-linux-x64.tar.gz")
    else if platformType == "linux-arm64" then Some("xmrig-6.25.0-linux-arm64.tar.gz")
    else if platformType == "windows-x64" then Some("xmrig-6.25.0-msvc-win64.zip")
    else None
  }

  /** The local file name of the downloaded archive. */
  function ArchiveName(platformType: string): (r: string)
    ensures "xmrig-" + platformType + "." <= r
  {
    if platformType != "windows-x64" then "xmrig-" + platformType + ".tar.gz"
    else "xmrig-" + platformType + ".zip"
  }

  predicate EndsWith(s: string, suffix: string) {
    |suffix| <= |s| && s[|s| - |suffix|..] == suffix
  }

  /** One entry of the release's `assets` list: its name and its
      `browser_download_url`. */
  datatype Asset = Asset(name: string, url: string)

  /** The first asset whose name contains `wanted`. */
  function FirstAsset(assets: seq<Asset>, wanted: string): (r: Option<nat>)
    ensures r.Some? ==> r.value < |assets| && Contains(assets[r.value].name, wanted)
    ensures r.Some? ==> forall j :: 0 <= j < r.value ==> !Contains(assets[j].name, wanted)
    ensures r.None? <==> forall j :: 0 <= j < |assets| ==> !Contains(assets[j].name, wanted)
  {
    if assets == [] then None
    else if Contains(assets[0].name, wanted) then Some(0)
    else match FirstAsset(assets[1..], wanted)
      case None => None
      case Some(i) => Some(i + 1)
  }

  /** The search loop of `download_xmrig`: the URL of the first asset whose
      name contains the wanted asset name, or `None`. */
  method FindDownloadUrl(assets: seq<Asset>, wanted: string) returns (url: Option<string>)
    ensures url.Some? <==> FirstAsset(assets, wanted).Some?
    ensures url.Some? ==> url.value == assets[FirstAsset(assets, wanted).value].url
  {
    url := None;
    var i := 0;
    while i < |assets|
      invariant 0 <= i <= |assets|
      invariant forall j :: 0 <= j < i ==> !Contains(assets[j].name, wanted)
      invariant url == None
    {
      if Contains(assets[i].name, wanted) {
        url := Some(assets[i].url);
        break;
      }
      i := i + 1;
    }
  }

  /** What `download_xmrig` sets out to do once the release list is in
      hand: give up on an unsupported platform, give up when no asset (or
      only an empty URL) is found, or fetch a URL into a named archive. */
  datatype DownloadPlan =
    | Unsupported(platformType: string)
    | NoDownloadUrl(assetName: string)
    | Fetch(url: string, filename: string)

  method PlanDownload(platformType: string, assets: seq<Asset>) returns (plan: DownloadPlan)
    ensures AssetName(platformType).None? <==> plan == Unsupported(platformType)
    ensures plan.NoDownloadUrl? ==> AssetName(platformType) == Some(plan.assetName)
    ensures plan.Fetch? <==>
      AssetName(platformType).Some? &&
      match FirstAsset(assets, AssetName(platformType).value)
      case None => false
      case Some(i) => assets[i].url != ""
    ensures plan.Fetch? ==>
      plan.url == assets[FirstAsset(assets, AssetName(platformType).value).value].url
      && plan.filename == ArchiveName(platformType)
  {
    var assetName := AssetName(platformType);
    if assetName.None? {
      return Unsupported(platformType);
    }
    var url := FindDownloadUrl(assets, assetName.value);
    if url.None? || url.value == "" {
      return NoDownloadUrl(assetName.value);
    }
    return Fetch(url.value, ArchiveName(platformType));
  }

  // ---------------------------------------------------------------------
  // Properties

  /** Detection yields one of six ids, or `None` exactly for a system that
      is none of darwin, linux and windows. */
  lemma DetectPlatformRange(system: string, machine: string)
    ensures DetectPlatform(system, machine).None? <==> Lower(system) !in {"darwin", "linux", "windows"}
  {
  }

  /** On macOS the ARM id is chosen exactly when the machine names arm64 or
      aarch64. */
  lemma DarwinArm(system: string, machine: string)
    requires Lower(system) == "darwin"
    ensures DetectPlatform(system, machine) == Some("macos-arm64")
        <==> Contains(Lower(machine), "arm64") || Contains(Lower(machine), "aarch64")
    ensures DetectPlatform(system, machine) != Some("macos-arm64") ==> DetectPlatform(system, machine) == Some("macos-x64")
  {
  }

  /** On Linux x86_64 is tested before aarch64; anything else, such as
      armv7l, counts as 32-bit x86. */
  lemma LinuxOrder(system: string, machine: string)
    requires Lower(system) == "linux"
    ensures DetectPlatform(system, machine) == Some("linux-x64") <==> Contains(Lower(machine), "x86_64")
    ensures DetectPlatform(system, machine) == Some("linux-arm64")
        <==> !Contains(Lower(machine), "x86_64") && Contains(Lower(machine), "aarch64")
    ensures DetectPlatform(system, machine) == Some("linux-x86")
        <==> !Contains(Lower(machine), "x86_64") && !Contains(Lower(machine), "aarch64")
  {
  }

  /** A Windows host is `windows-x64` whatever its machine reports. */
  lemma WindowsAnyMachine(system: string, machine: string)
    requires Lower(system) == "windows"
    ensures DetectPlatform(system, machine) == Some("windows-x64")
  {
  }

  /** Detection does not depend on the case of its inputs. */
  lemma DetectIgnoresCase(system: string, machine: string)
    ensures DetectPlatform(Lower(system), Lower(machine)) == DetectPlatform(system, machine)
  {
    LowerIsLower(system);
    LowerIsLower(machine);
    LowerOfLower(Lower(system));
    LowerOfLower(Lower(machine));
  }

  /** Every detected platform but `linux-x86` has an asset. */
  lemma AssetCoverage(p: string)
    requires p in PlatformIds
    ensures AssetName(p).Some? <==> p != "linux-x86"
  {
  }

  /** Different platforms download different assets. */
  lemma AssetsDistinct(p: string, q: string)
    requires AssetName(p).Some? && AssetName(q).Some? && p != q
    ensures AssetName(p) != AssetName(q)
  {
  }

  lemma EndsWithOwn(a: string, suffix: string)
    ensures EndsWith(a + suffix, suffix)
  {
    assert (a + suffix)[|a|..] == suffix;
  }

  /** On every platform other than `windows-x64` the archive is saved as a
      gzipped tarball. */
  lemma ArchiveTarGz(p: string)
    requires p != "windows-x64"
    ensures EndsWith(ArchiveName(p), ".tar.gz")
  {
    EndsWithOwn("xmrig-" + p, ".tar.gz");
  }

  /** The saved archive is a zip exactly when the platform is `windows-x64`,
      and so exactly when the asset fetched is a zip. */
  lemma ArchiveMatchesAsset(p: string)
    requires AssetName(p).Some?
    ensures EndsWith(ArchiveName(p), ".zip") <==> p == "windows-x64"
    ensures EndsWith(AssetName(p).value, ".zip") <==> EndsWith(ArchiveName(p), ".zip")
  {
    if p == "windows-x64" {
      EndsWithOwn("xmrig-" + p, ".zip");
      EndsWithOwn("xmrig-6.25.0-msvc-win64", ".zip");
      assert AssetName(p).value == "xmrig-6.25.0-msvc-win64" + ".zip";
    } else {
      var a := ArchiveName(p);
      assert a == ("xmrig-" + p + ".tar") + ".gz";
      assert a[|a| - 1] == 'z' && a[|a| - 2] == 'g';
      assert a[|a| - 3] == '.';
      var n := AssetName(p).value;
      assert n[|n| - 3] == '.';
    }
  }

  /** A 32-bit ARM Linux host is detected as `linux-x86`, for which no asset
      exists, so the download is refused as unsupported. */
  lemma Armv7Unsupported()
    ensures DetectPlatform("Linux", "armv7l") == Some("linux-x86")
    ensures AssetName("linux-x86").None?
  {
    MissingCharExcludes("armv7l", "x86_64", '_');
    MissingCharExcludes("armv7l", "aarch64", 'c');
  }
}

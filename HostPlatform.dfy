/** Resolution of the requested platform against the host's os.name.

    CommandTranslator.detectActualOS and CommandExecutorService.detectOperatingSystem
    are the same code; both are modelled by ResolvePlatform. The host's os.name is
    a parameter (the source reads it once, lower-cased, into a static field). */
module HostPlatform {
  import opened JavaLang

  const Auto: string := "AUTO"
  const Windows: string := "WINDOWS"
  const Linux: string := "LINUX"
  const Mac: string := "MAC"

  /** The request leaves the choice to the host: null or "AUTO" in any case. */
  predicate LeavesToHost(requested: Option<string>) {
    requested.None? || EqualsIgnoreCase(Auto, requested.value)
  }

  /** The platform the host name designates, if it designates one:
      "win" is looked for first, then "mac", then "nix", "nux" or "aix". */
  function HostFamily(osName: string): (r: Option<string>)
    ensures r.Some? ==> r.value in {Windows, Mac, Linux}
    ensures Contains(ToLower(osName), "win") ==> r == Some(Windows)
  {
    var host := ToLower(osName);
    if Contains(host, "win") then Some(Windows)
    else if Contains(host, "mac") then Some(Mac)
    else if Contains(host, "nix") || Contains(host, "nux") || Contains(host, "aix") then Some(Linux)
    else None
  }

  /** detectOperatingSystem(requested) on a host whose os.name is osName. */
  function ResolvePlatform(requested: Option<string>, osName: string): (r: Option<string>)
    ensures !LeavesToHost(requested) ==> r == requested
    ensures LeavesToHost(requested) && HostFamily(osName).Some? ==> r == HostFamily(osName)
    ensures LeavesToHost(requested) && HostFamily(osName).None? ==> r == requested
  {
    if LeavesToHost(requested) then
      match HostFamily(osName)
      case Some(p) => Some(p)
      case None => requested
    else requested
  }

  /** None of the three concrete platform names reads as "AUTO". */
  lemma ConcreteIsNotAuto(p: string)
    requires p in {Windows, Mac, Linux}
    ensures !LeavesToHost(Some(p))
  {
    assert |ToLower(p)| != |ToLower(Auto)|;
  }

  /** Resolving twice is resolving once; the translator re-resolves the platform
      the executor already resolved, and this is why it sees the same value. */
  lemma ResolveIdempotent(requested: Option<string>, osName: string)
    ensures ResolvePlatform(ResolvePlatform(requested, osName), osName) == ResolvePlatform(requested, osName)
  {
    var r := ResolvePlatform(requested, osName);
    if LeavesToHost(requested) && HostFamily(osName).Some? {
      ConcreteIsNotAuto(r.value);
    }
  }

  // The names Java reports on the three desktop systems, and one it does not know.

  lemma WindowsHostName()
    ensures ResolvePlatform(None, "Windows 11") == Some(Windows)
  {
    assert ToLower("Windows 11") == "windows 11";
    assert OccursAt("windows 11", "win", 0);
  }

  lemma MacHostName()
    ensures ResolvePlatform(Some("auto"), "Mac OS X") == Some(Mac)
  {
    assert ToLower("auto") == ToLower(Auto);
    assert ToLower("Mac OS X") == "mac os x";
    assert OccursAt("mac os x", "mac", 0);
    MissingCharNotContained("mac os x", "win", 0);
  }

  lemma LinuxHostName()
    ensures ResolvePlatform(Some(Auto), "Linux") == Some(Linux)
  {
    assert ToLower("Linux") == "linux";
    assert OccursAt("linux", "nux", 2);
    MissingCharNotContained("linux", "win", 0);
    MissingCharNotContained("linux", "mac", 0);
  }

  /** An unrecognised host leaves "AUTO" in place. */
  lemma UnknownHostName()
    ensures ResolvePlatform(Some(Auto), "SunOS") == Some(Auto)
  {
    var host := ToLower("SunOS");
    assert LowerChar('S') == 's' && LowerChar('O') == 'o';
    assert host == "sunos";
    MissingCharNotContained("sunos", "win", 0);
    MissingCharNotContained("sunos", "mac", 0);
    MissingCharNotContained("sunos", "nix", 1);
    MissingCharNotContained("sunos", "nux", 2);
    MissingCharNotContained("sunos", "aix", 0);
  }
}

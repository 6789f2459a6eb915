/** The platform names handed to the Eclipse launcher, derived from the JVM's
    os.arch and os.name values (WebRCP.determineArch, determineOS, getWindowSystem). */
module Platform {
  import opened Failures
  import opened Text

  // Architectures, as org.eclipse.core.runtime.Platform spells them.
  const ArchX86 := "x86"
  const ArchPaRisc := "PA_RISC"
  const ArchPpc := "ppc"
  const ArchSparc := "sparc"
  const ArchAmd64 := "amd64"
  const ArchIa64 := "ia64"

  // Windowing systems.
  const WsWin32 := "win32"
  const WsMotif := "motif"
  const WsGtk := "gtk"
  const WsPhoton := "photon"
  const WsCarbon := "carbon"

  // Operating systems.
  const OsWin32 := "win32"
  const OsLinux := "linux"
  const OsAix := "aix"
  const OsSolaris := "solaris"
  const OsHpux := "hpux"
  const OsQnx := "qnx"
  const OsMacosx := "macosx"

  const Architectures: set<string> := {ArchX86, ArchPaRisc, ArchPpc, ArchSparc, ArchAmd64, ArchIa64}
  const OperatingSystems: set<string> := {OsWin32, OsLinux, OsAix, OsSolaris, OsHpux, OsQnx, OsMacosx}
  const WindowSystems: set<string> := {WsWin32, WsMotif, WsGtk, WsPhoton, WsCarbon}

  /** The characters that the regular-expression `.` does not match. */
  predicate IsLineTerminator(c: char)
  {
    c == '\n' || c == '\r' || c == '\U{85}' || c == '\U{2028}' || c == '\U{2029}'
  }

  /** String.matches("i.86"): the whole string is `i`, any one character, `86`. */
  predicate MatchesI86(s: string)
  {
    |s| == 4 && s[0] == 'i' && !IsLineTerminator(s[1]) && s[2] == '8' && s[3] == '6'
  }

  predicate IsX86(a: string) { Contains(a, "x86") || MatchesI86(a) }
  predicate IsPpc(a: string) { Contains(a, "ppc") || Contains(a, "power") }
  predicate IsAmd64(a: string) { Contains(a, "x86_64") || Contains(a, "amd64") }

  /** determineArch: the first matching test of an ordered chain over the
      lower-cased os.arch value, or an "Unknown Architecture" failure. */
  function DetermineArch(osArch: string): (r: Result<string>)
    ensures r.Ok? ==> r.value in Architectures
    ensures r == Ok(ArchX86) <==> IsX86(ToLower(osArch))
    ensures r == Ok(ArchPpc) <==> !IsX86(ToLower(osArch)) && IsPpc(ToLower(osArch))
    ensures r == Ok(ArchAmd64) <==>
      !IsX86(ToLower(osArch)) && !IsPpc(ToLower(osArch)) && IsAmd64(ToLower(osArch))
    ensures r == Ok(ArchIa64) <==>
      !IsX86(ToLower(osArch)) && !IsPpc(ToLower(osArch)) && !IsAmd64(ToLower(osArch))
      && Contains(ToLower(osArch), "ia64")
    ensures r == Ok(ArchPaRisc) <==>
      !IsX86(ToLower(osArch)) && !IsPpc(ToLower(osArch)) && !IsAmd64(ToLower(osArch))
      && !Contains(ToLower(osArch), "ia64") && Contains(ToLower(osArch), "risc")
    ensures r == Ok(ArchSparc) <==>
      !IsX86(ToLower(osArch)) && !IsPpc(ToLower(osArch)) && !IsAmd64(ToLower(osArch))
      && !Contains(ToLower(osArch), "ia64") && !Contains(ToLower(osArch), "risc")
      && Contains(ToLower(osArch), "sparc")
    ensures r.Err? <==>
      !IsX86(ToLower(osArch)) && !IsPpc(ToLower(osArch)) && !Contains(ToLower(osArch), "amd64")
      && !Contains(ToLower(osArch), "ia64") && !Contains(ToLower(osArch), "risc")
      && !Contains(ToLower(osArch), "sparc")
    ensures r.Err? ==> r.failure == UnknownArchitecture(ToLower(osArch))
  {
    var arch := ToLower(osArch);
    X86_64IsX86(arch);
    if IsX86(arch) then Ok(ArchX86)
    else if IsPpc(arch) then Ok(ArchPpc)
    else if IsAmd64(arch) then Ok(ArchAmd64)
    else if Contains(arch, "ia64") then Ok(ArchIa64)
    else if Contains(arch, "risc") then Ok(ArchPaRisc)
    else if Contains(arch, "sparc") then Ok(ArchSparc)
    else Err(UnknownArchitecture(arch))
  }

  /** Every string that contains "x86_64" contains "x86", so the x86_64 test of the
      amd64 branch can never be what selects it. */
  lemma X86_64IsX86(a: string)
    ensures Contains(a, "x86_64") ==> IsX86(a)
  {
    if Contains(a, "x86_64") {
      assert Contains("x86_64", "x86") by { OccursContains("x86_64", "x86", 0); }
      ContainsTransitive(a, "x86_64", "x86");
    }
  }

  /** The quirk of the chain: a 64-bit x86 JVM that reports "x86_64" (in any case)
      is told it runs on x86; only strings such as "amd64" reach the amd64 branch. */
  lemma X86_64MapsToX86(osArch: string)
    requires Contains(ToLower(osArch), "x86_64")
    ensures DetermineArch(osArch) == Ok(ArchX86)
  {
    X86_64IsX86(ToLower(osArch));
  }

  /** The arch tests read the lower-cased value, so the case of os.arch is irrelevant. */
  lemma DetermineArchIgnoresCase(osArch: string)
    ensures DetermineArch(ToLower(osArch)) == DetermineArch(osArch)
  {
    ToLowerIdempotent(osArch);
  }

  /** determineOS: the first matching test of an ordered chain over the lower-cased
      os.name value, or an "Unknown Operating System" failure. */
  function DetermineOS(osName: string): (r: Result<string>)
    ensures r.Ok? ==> r.value in OperatingSystems
    ensures r == Ok(OsLinux) <==> Contains(ToLower(osName), "linux")
    ensures r == Ok(OsMacosx) <==> !Contains(ToLower(osName), "linux") && Contains(ToLower(osName), "mac")
    ensures r == Ok(OsWin32) <==>
      !Contains(ToLower(osName), "linux") && !Contains(ToLower(osName), "mac")
      && Contains(ToLower(osName), "windows")
    ensures r == Ok(OsHpux) <==>
      !Contains(ToLower(osName), "linux") && !Contains(ToLower(osName), "mac")
      && !Contains(ToLower(osName), "windows")
      && Contains(ToLower(osName), "hp") && Contains(ToLower(osName), "ux")
    ensures r == Ok(OsSolaris) <==>
      !Contains(ToLower(osName), "linux") && !Contains(ToLower(osName), "mac")
      && !Contains(ToLower(osName), "windows")
      && !(Contains(ToLower(osName), "hp") && Contains(ToLower(osName), "ux"))
      && Contains(ToLower(osName), "solaris")
    ensures r == Ok(OsAix) <==>
      !Contains(ToLower(osName), "linux") && !Contains(ToLower(osName), "mac")
      && !Contains(ToLower(osName), "windows")
      && !(Contains(ToLower(osName), "hp") && Contains(ToLower(osName), "ux"))
      && !Contains(ToLower(osName), "solaris") && Contains(ToLower(osName), "aix")
    ensures r == Ok(OsQnx) <==>
      !Contains(ToLower(osName), "linux") && !Contains(ToLower(osName), "mac")
      && !Contains(ToLower(osName), "windows")
      && !(Contains(ToLower(osName), "hp") && Contains(ToLower(osName), "ux"))
      && !Contains(ToLower(osName), "solaris") && !Contains(ToLower(osName), "aix")
      && Contains(ToLower(osName), "qnx")
    ensures r.Err? <==>
      !Contains(ToLower(osName), "linux") && !Contains(ToLower(osName), "mac")
      && !Contains(ToLower(osName), "windows")
      && !(Contains(ToLower(osName), "hp") && Contains(ToLower(osName), "ux"))
      && !Contains(ToLower(osName), "solaris") && !Contains(ToLower(osName), "aix")
      && !Contains(ToLower(osName), "qnx")
    ensures r.Err? ==> r.failure == UnknownOperatingSystem(ToLower(osName))
  {
    var os := ToLower(osName);
    if Contains(os, "linux") then Ok(OsLinux)
    else if Contains(os, "mac") then Ok(OsMacosx)
    else if Contains(os, "windows") then Ok(OsWin32)
    else if Contains(os, "hp") && Contains(os, "ux") then Ok(OsHpux)
    else if Contains(os, "solaris") then Ok(OsSolaris)
    else if Contains(os, "aix") then Ok(OsAix)
    else if Contains(os, "qnx") then Ok(OsQnx)
    else Err(UnknownOperatingSystem(os))
  }

  /** getWindowSystem: a total map from operating system to windowing system. */
  function WindowSystem(os: string): (r: string)
    ensures r in WindowSystems
    ensures os == OsWin32 ==> r == WsWin32
    ensures os == OsLinux ==> r == WsGtk
    ensures os == OsQnx ==> r == WsPhoton
    ensures os == OsMacosx ==> r == WsCarbon
    ensures r == WsMotif <==> os !in {OsWin32, OsLinux, OsQnx, OsMacosx}
  {
    if os == OsWin32 then WsWin32
    else if os == OsLinux then WsGtk
    else if os == OsQnx then WsPhoton
    else if os == OsMacosx then WsCarbon
    else WsMotif
  }

  /** The windowing system of a detected operating system, read off the os.name
      value: gtk for anything that mentions linux, carbon for mac, win32 for
      windows, photon for qnx, and motif for hp-ux, solaris and aix. */
  lemma WindowSystemOfDetected(osName: string)
    requires DetermineOS(osName).Ok?
    ensures var os, n := DetermineOS(osName).value, ToLower(osName);
      && (WindowSystem(os) == WsGtk <==> Contains(n, "linux"))
      && (WindowSystem(os) == WsCarbon <==> !Contains(n, "linux") && Contains(n, "mac"))
      && (WindowSystem(os) == WsWin32 <==>
            !Contains(n, "linux") && !Contains(n, "mac") && Contains(n, "windows"))
      && (WindowSystem(os) == WsPhoton <==>
            !Contains(n, "linux") && !Contains(n, "mac") && !Contains(n, "windows")
            && !(Contains(n, "hp") && Contains(n, "ux")) && !Contains(n, "solaris")
            && !Contains(n, "aix") && Contains(n, "qnx"))
      && (WindowSystem(os) == WsMotif <==> os in {OsAix, OsHpux, OsSolaris})
  {
    var os := DetermineOS(osName).value;
    assert os == OsLinux || os == OsMacosx || os == OsWin32 || os == OsHpux
      || os == OsSolaris || os == OsAix || os == OsQnx;
  }
}

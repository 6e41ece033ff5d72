/** The classification record of one candidate file (`PEMetadata`), and its
    one derived property, `IsNetFrameworkAssembly`. */
module PEMetadata {
  import opened Common

  /** `System.Version`: `build` and `revision` are -1 when the version string
      did not give them (and then a missing build implies a missing revision). */
  datatype Version = Version(major: nat, minor: nat, build: int, revision: int)

  /** `System.Runtime.Versioning.FrameworkName`: identifier and version. */
  datatype FrameworkName = FrameworkName(identifier: string, version: Version)

  /** The COFF machine type, `Machine.I386` in the PE/COFF specification. */
  const MachineI386: nat := 0x014C

  /** The fields of `PEMetadata` that the core reads or writes. The CLI header
      flags (ILOnly, Requires32Bit, ...) are not part of this model. */
  datatype Metadata = Metadata(
    path: string,
    sha256: string,
    isPortableExecutable: bool,
    magic: nat,
    isLibrary: bool,
    isExecutable: bool,
    architecture: nat,
    exports: seq<string>,
    isCOM: bool,
    isAssembly: bool,
    framework: Option<FrameworkName>)

  /** A freshly constructed record: only `Path` is set, `Exports` is the empty list. */
  function Fresh(path: string): (m: Metadata)
  {
    Metadata(path, "", false, 0, false, false, 0, [], false, false, None)
  }

  // ---------------------------------------------------------------------
  // Version.ToString()

  function DigitChar(d: nat): char
    requires d < 10
  {
    ['0', '1', '2', '3', '4', '5', '6', '7', '8', '9'][d]
  }

  /** Decimal rendering of a natural number, as `int.ToString()` gives it. */
  function NatToString(n: nat): (s: string)
    ensures |s| >= 1
    decreases n
  {
    if n < 10 then [DigitChar(n)] else NatToString(n / 10) + [DigitChar(n % 10)]
  }

  /** `Version.ToString()`: `major.minor`, then `.build` and `.revision` only
      when they are defined. */
  function VersionString(v: Version): string
  {
    NatToString(v.major) + "." + NatToString(v.minor)
    + (if v.build >= 0 then "." + NatToString(v.build)
                          + (if v.revision >= 0 then "." + NatToString(v.revision) else "")
       else "")
  }

  /** The ten version strings `IsNetFrameworkAssembly` accepts. */
  const FrameworkVersions: set<string> := {
    "2.0.0.0", "3.5.0.0", "4.0.0.0", "4.5.0.0", "4.5.2.0",
    "4.6.1.0", "4.7.0.0", "4.7.2.0", "4.8.0.0", "4.8.1.0"
  }

  /** `IsNetFrameworkAssembly` as written: only for an assembly with a target
      framework, and then only by the framework's version string. */
  predicate IsNetFrameworkAssembly(m: Metadata)
  {
    m.isAssembly && m.framework.Some?
    && VersionString(m.framework.value.version) in FrameworkVersions
  }

  /** Without the assembly flag or without a framework it is false, whatever the version. */
  lemma NotAssemblyNotFramework(m: Metadata)
    requires !m.isAssembly || m.framework.None?
    ensures !IsNetFrameworkAssembly(m)
  {
  }

  /** Only the version is consulted, never the framework identifier: retargeting
      the same version to another identifier does not change the answer. */
  lemma IdentifierIgnored(m: Metadata, identifier: string)
    requires m.framework.Some?
    ensures IsNetFrameworkAssembly(m)
        == IsNetFrameworkAssembly(m.(framework := Some(m.framework.value.(identifier := identifier))))
  {
  }

  /** A `.NETStandard` 2.0 target whose version carries all four components is accepted. */
  lemma NetStandardAccepted()
    ensures IsNetFrameworkAssembly(
      Fresh("lib.dll").(isAssembly := true,
                        framework := Some(FrameworkName(".NETStandard", Version(2, 0, 0, 0)))))
  {
    assert VersionString(Version(2, 0, 0, 0)) == "2.0.0.0";
  }

  /** A target framework string `.NETFramework,Version=v4.8` gives `Version(4, 8)`
      (build and revision undefined), whose string is "4.8", so the as-written
      check rejects every classic framework target in its two- or three-part form. */
  lemma ClassicTargetRejected()
    ensures !IsNetFrameworkAssembly(
      Fresh("lib.dll").(isAssembly := true,
                        framework := Some(FrameworkName(".NETFramework", Version(4, 8, -1, -1)))))
  {
    assert VersionString(Version(4, 8, -1, -1)) == "4.8";
  }

  // ---------------------------------------------------------------------
  // The evidently intended check

  /** The version padded to four components, reading undefined parts as 0. */
  function Normalize(v: Version): (n: Version)
    ensures n.build >= 0 && n.revision >= 0
    ensures n.major == v.major && n.minor == v.minor
    ensures v.build >= 0 ==> n.build == v.build
    ensures v.revision >= 0 ==> n.revision == v.revision
  {
    Version(v.major, v.minor, if v.build < 0 then 0 else v.build,
            if v.revision < 0 then 0 else v.revision)
  }

  /** `IsNetFrameworkAssembly` as the comments beside the switch describe it:
      the version normalised to four components is compared. */
  predicate IsNetFrameworkAssemblyIntended(m: Metadata)
  {
    m.isAssembly && m.framework.Some?
    && VersionString(Normalize(m.framework.value.version)) in FrameworkVersions
  }

  /** The intended check accepts the classic target the as-written one rejects. */
  lemma ClassicTargetAcceptedIntended()
    ensures IsNetFrameworkAssemblyIntended(
      Fresh("lib.dll").(isAssembly := true,
                        framework := Some(FrameworkName(".NETFramework", Version(4, 8, -1, -1)))))
  {
    assert VersionString(Version(4, 8, 0, 0)) == "4.8.0.0";
  }

  /** The two checks agree on every version that spells out all four components. */
  lemma IntendedAgreesOnFullVersions(m: Metadata)
    requires m.framework.Some? ==> m.framework.value.version.revision >= 0
                                   && m.framework.value.version.build >= 0
    ensures IsNetFrameworkAssemblyIntended(m) == IsNetFrameworkAssembly(m)
  {
    if m.framework.Some? {
      assert Normalize(m.framework.value.version) == m.framework.value.version;
    }
  }

  /** The intended check is stable under dropping trailing zero components, so
      "4.8", "4.8.0" and "4.8.0.0" are judged alike. */
  lemma IntendedIgnoresTrailingZeros(m: Metadata, major: nat, minor: nat)
    requires m.isAssembly && m.framework.Some?
    requires m.framework.value.version == Version(major, minor, -1, -1)
    ensures IsNetFrameworkAssemblyIntended(m)
        == IsNetFrameworkAssemblyIntended(
             m.(framework := Some(m.framework.value.(version := Version(major, minor, 0, 0)))))
  {
  }
}

/** `PEParsingService.Parse`: the DOS-signature gate, the COFF flag derivation,
    the export-name table walk and the bounded ASCII name reader.

    What `PEReader` computes from the file (the headers and the mapping from an
    RVA to the bytes of its section) is an input record here, `Headers`. */
module PEParsingService {
  import opened Common
  import opened PEMetadata

  /** COFF characteristics flags, as in the "Characteristics" section of the
      Microsoft PE/COFF specification. */
  const ImageFileExecutableImage: nat := 0x0002
  const ImageFileDll: nat := 0x2000

  /** The DOS header's "MZ" signature as a little-endian u16. */
  const DosSignature: nat := 0x5A4D
  const DosHeaderSize: nat := 64

  /** The IMAGE_EXPORT_DIRECTORY layout ("Export Directory Table"): 40 bytes,
      NumberOfNames at offset 24, AddressOfNames at offset 32. */
  const ExportDirectorySize: nat := 40
  const NumberOfNamesOffset: nat := 24
  const AddressOfNamesOffset: nat := 32

  /** The longest export name the reader collects. */
  const MaxNameLength: nat := 4096

  /** What `PEReader` gives the parser. `sectionData(rva)` is
      `GetSectionData(rva)`: the bytes from `rva` to the end of the section that
      holds it, empty when no section does. */
  datatype Headers = Headers(
    magic: nat,
    characteristics: nat,
    machine: nat,
    exportRva: int,
    exportSize: int,
    hasMetadata: bool,
    framework: Option<FrameworkName>,
    sectionData: int -> seq<Byte>)

  datatype ParseError =
    | BadImageFormat          // PEReader rejects the headers, or a BlobReader read runs past its block
    | RvaOutOfRange(rva: int) // GetSectionData of a negative RVA

  predicate HasFlag(flags: nat, flag: nat)
    requires flag > 0
  {
    (flags / flag) % 2 == 1
  }

  /** `fileStream.Length >= 64` and the first u16 is "MZ". */
  predicate HasDosSignature(file: seq<Byte>)
  {
    |file| >= DosHeaderSize && FromLE(file[..2]) == DosSignature
  }

  /** The unchecked `(int)` cast of a u32. */
  function AsInt32(u: nat): (n: int)
    requires u < 0x1_0000_0000
    ensures Int32Min <= n <= Int32Max
  {
    Pow256Values();
    Signed(u, 4)
  }

  /** `BlobReader.ReadUInt32` at `offset`. */
  function ReadU32(block: seq<Byte>, offset: nat): (r: Option<nat>)
    ensures r.Some? <==> offset + 4 <= |block|
    ensures r.Some? ==> r.value < 0x1_0000_0000
  {
    Pow256Values();
    if offset + 4 <= |block| then Some(FromLE(block[offset..offset + 4])) else None
  }

  function SectionData(h: Headers, rva: int): Result<seq<Byte>, ParseError>
  {
    if rva < 0 then Err(RvaOutOfRange(rva)) else Ok(h.sectionData(rva))
  }

  // ---------------------------------------------------------------------
  // ReadNullTerminatedAsciiString

  /** The name the reader extracts from a block: the bytes before the first
      0, at most 4096 of them, each read as the character with that code. */
  function AsciiName(block: seq<Byte>): string
  {
    if block == [] || block[0] == 0 then []
    else [block[0] as char] + AsciiName(block[1..])
  }

  function Truncate(s: string, n: nat): (t: string)
    ensures |t| == Min(|s|, n) && t == s[..|t|]
  {
    if |s| <= n then s else s[..n]
  }

  function NameOf(block: seq<Byte>): string
  {
    Truncate(AsciiName(block), MaxNameLength)
  }

  /** The extracted name is a prefix of the block's bytes, has no NUL, and stops
      exactly at the first 0 byte, the block's end or the 4096 limit. */
  lemma {:induction false} AsciiNameProperties(block: seq<Byte>)
    ensures |AsciiName(block)| <= |block|
    ensures forall k :: 0 <= k < |AsciiName(block)| ==> AsciiName(block)[k] == block[k] as char && block[k] != 0
    ensures |AsciiName(block)| == |block| || block[|AsciiName(block)|] == 0
  {
    if block != [] && block[0] != 0 {
      AsciiNameProperties(block[1..]);
    }
  }

  lemma NameOfProperties(block: seq<Byte>)
    ensures |NameOf(block)| <= MaxNameLength && |NameOf(block)| <= |block|
    ensures forall k :: 0 <= k < |NameOf(block)| ==> NameOf(block)[k] == block[k] as char && block[k] != 0
    ensures |NameOf(block)| == MaxNameLength || |NameOf(block)| == |block| || block[|NameOf(block)|] == 0
  {
    AsciiNameProperties(block);
  }

  /** The for-loop of `ReadNullTerminatedAsciiString`, appending to a builder. */
  method ReadNullTerminatedAsciiString(block: seq<Byte>) returns (s: string)
    ensures s == NameOf(block)
  {
    var sb: string := [];
    var i := 0;
    var remaining := |block|;
    while i < MaxNameLength && remaining > 0
      invariant 0 <= i <= MaxNameLength && i <= |block| && remaining == |block| - i
      invariant |sb| == i && AsciiName(block) == sb + AsciiName(block[i..])
      decreases remaining
    {
      var b := block[i];
      if b == 0 {
        break;
      }
      AsciiNameStep(block, sb, i);
      sb := sb + [b as char];
      i := i + 1;
      remaining := remaining - 1;
    }
    NameIsPrefix(block, sb, i);
    s := sb;
  }

  /** One more byte of the name goes into the builder. */
  lemma AsciiNameStep(block: seq<Byte>, sb: string, i: nat)
    requires i < |block| && block[i] != 0 && AsciiName(block) == sb + AsciiName(block[i..])
    ensures AsciiName(block) == (sb + [block[i] as char]) + AsciiName(block[i + 1..])
  {
    assert block[i..][1..] == block[i + 1..];
  }

  /** What the loop leaves behind is exactly the truncated name. */
  lemma NameIsPrefix(block: seq<Byte>, sb: string, i: nat)
    requires i <= MaxNameLength && i <= |block|
    requires AsciiName(block) == sb + AsciiName(block[i..]) && |sb| == i
    requires i == MaxNameLength || i == |block| || block[i] == 0
    ensures sb == NameOf(block)
  {
    if i < MaxNameLength {
      assert AsciiName(block[i..]) == [];
    }
  }

  // ---------------------------------------------------------------------
  // GetExportNames

  /** The `idx`-th name of the table, or the failure that stops the walk. */
  function NameEntry(h: Headers, table: seq<Byte>, idx: nat): Result<string, ParseError>
  {
    match ReadU32(table, 4 * idx)
    case None => Err(BadImageFormat)
    case Some(ptr) =>
      match SectionData(h, AsInt32(ptr))
      case Err(e) => Err(e)
      case Ok(block) => Ok(NameOf(block))
  }

  /** The non-empty names of entries `from .. count-1`, in table order. */
  function NamesFrom(h: Headers, table: seq<Byte>, from: nat, count: nat): Result<seq<string>, ParseError>
    decreases count - from
  {
    if from >= count then Ok([])
    else match NameEntry(h, table, from)
      case Err(e) => Err(e)
      case Ok(name) =>
        match NamesFrom(h, table, from + 1, count)
        case Err(e) => Err(e)
        case Ok(rest) => Ok((if name == [] then [] else [name]) + rest)
  }

  /** The export names of a PE image, or the error `GetExportNames(...).ToList()` throws. */
  function ExportNames(h: Headers): Result<seq<string>, ParseError>
  {
    if h.exportSize == 0 || h.exportRva == 0 then Ok([])
    else match SectionData(h, h.exportRva)
      case Err(e) => Err(e)
      case Ok(dir) =>
        if |dir| < ExportDirectorySize then Err(BadImageFormat)
        else
          var numberOfNames := ReadU32(dir, NumberOfNamesOffset).value;
          var addrOfNames := ReadU32(dir, AddressOfNamesOffset).value;
          if numberOfNames == 0 || addrOfNames == 0 then Ok([])
          else match SectionData(h, AsInt32(addrOfNames))
            case Err(e) => Err(e)
            case Ok(table) => NamesFrom(h, table, 0, numberOfNames)
  }

  /** Every collected name is non-empty and NUL-free, at most 4096 characters,
      and there are at most `count - from` of them. */
  lemma {:induction false} NamesFromProperties(h: Headers, table: seq<Byte>, from: nat, count: nat)
    requires NamesFrom(h, table, from, count).Ok?
    ensures from <= count ==> |NamesFrom(h, table, from, count).value| <= count - from
    ensures forall k :: 0 <= k < |NamesFrom(h, table, from, count).value| ==>
      var n := NamesFrom(h, table, from, count).value[k];
      n != [] && |n| <= MaxNameLength && '\0' !in n
    decreases count - from
  {
    if from < count {
      var name := NameEntry(h, table, from).value;
      var block :| SectionData(h, AsInt32(ReadU32(table, 4 * from).value)) == Ok(block);
      NameOfProperties(block);
      assert name == NameOf(block);
      NamesFromProperties(h, table, from + 1, count);
    }
  }

  /** An image without an export directory (size or RVA 0) has no export names. */
  lemma {:induction false} ExportNamesEmptyDirectory(h: Headers)
    requires h.exportSize == 0 || h.exportRva == 0
    ensures ExportNames(h) == Ok([])
  {
  }

  /** The walk stops early, with no names, when NumberOfNames or AddressOfNames
      is 0; otherwise it reads exactly the 40-byte directory's two fields. */
  lemma ExportNamesShape(h: Headers)
    requires h.exportSize != 0 && h.exportRva > 0
    requires |h.sectionData(h.exportRva)| >= ExportDirectorySize
    ensures var dir := h.sectionData(h.exportRva);
      var numberOfNames := FromLE(dir[24..28]);
      var addrOfNames := FromLE(dir[32..36]);
      (numberOfNames == 0 || addrOfNames == 0 ==> ExportNames(h) == Ok([]))
      && (ExportNames(h).Ok? ==> |ExportNames(h).value| <= numberOfNames)
  {
    var dir := h.sectionData(h.exportRva);
    var numberOfNames := ReadU32(dir, NumberOfNamesOffset).value;
    var addrOfNames := ReadU32(dir, AddressOfNamesOffset).value;
    if numberOfNames != 0 && addrOfNames != 0 && ExportNames(h).Ok? {
      var table := h.sectionData(AsInt32(addrOfNames));
      NamesFromProperties(h, table, 0, numberOfNames);
    }
  }

  /** The walk of `GetExportNames`, collected as `.ToList()` collects it. */
  method GetExportNames(h: Headers) returns (r: Result<seq<string>, ParseError>)
    ensures r == ExportNames(h)
  {
    if h.exportSize == 0 || h.exportRva == 0 {
      return Ok([]);
    }
    if h.exportRva < 0 {
      return Err(RvaOutOfRange(h.exportRva));
    }
    var dir := h.sectionData(h.exportRva);
    if |dir| < ExportDirectorySize {
      return Err(BadImageFormat);
    }
    var numberOfNames := ReadU32(dir, NumberOfNamesOffset).value;
    var addrOfNames := ReadU32(dir, AddressOfNamesOffset).value;
    if numberOfNames == 0 || addrOfNames == 0 {
      return Ok([]);
    }
    var tableRva := AsInt32(addrOfNames);
    if tableRva < 0 {
      return Err(RvaOutOfRange(tableRva));
    }
    var table := h.sectionData(tableRva);
    assert ExportNames(h) == NamesFrom(h, table, 0, numberOfNames);
    var names: seq<string> := [];
    var i := 0;
    assert Prepend(names, NamesFrom(h, table, 0, numberOfNames)) == NamesFrom(h, table, 0, numberOfNames) by {
      var all := NamesFrom(h, table, 0, numberOfNames);
      if all.Ok? { assert [] + all.value == all.value; }
    }
    while i < numberOfNames
      invariant 0 <= i <= numberOfNames
      invariant NamesFrom(h, table, 0, numberOfNames)
             == Prepend(names, NamesFrom(h, table, i, numberOfNames))
    {
      var ptr := ReadU32(table, 4 * i);
      if ptr.None? {
        return Err(BadImageFormat);
      }
      var nameRva := AsInt32(ptr.value);
      if nameRva < 0 {
        return Err(RvaOutOfRange(nameRva));
      }
      var name := ReadNullTerminatedAsciiString(h.sectionData(nameRva));
      assert NameEntry(h, table, i) == Ok(name);
      assert NamesFrom(h, table, i, numberOfNames)
          == Prepend(if name == [] then [] else [name], NamesFrom(h, table, i + 1, numberOfNames));
      PrependStep(names, if name == [] then [] else [name], NamesFrom(h, table, i + 1, numberOfNames));
      if name != [] {
        names := names + [name];
      } else {
        assert names + [] == names;
      }
      i := i + 1;
    }
    assert names + [] == names;
    r := Ok(names);
  }

  lemma PrependStep(names: seq<string>, piece: seq<string>, tail: Result<seq<string>, ParseError>)
    ensures Prepend(names, Prepend(piece, tail)) == Prepend(names + piece, tail)
  {
    if tail.Ok? {
      assert names + (piece + tail.value) == (names + piece) + tail.value;
    }
  }

  function Prepend(prefix: seq<string>, r: Result<seq<string>, ParseError>): Result<seq<string>, ParseError>
  {
    match r
    case Ok(rest) => Ok(prefix + rest)
    case Err(e) => Err(e)
  }

  // ---------------------------------------------------------------------
  // Parse

  /** The COM-server rule: `DllGetClassObject` together with at least one of
      `DllCanUnloadNow`, `DllRegisterServer`, `DllUnregisterServer`, each
      compared ignoring case. */
  predicate Exports(exports: seq<string>, name: string)
  {
    exists k :: 0 <= k < |exports| && EqualsIgnoreCase(name, exports[k])
  }

  predicate IsComServer(exports: seq<string>)
  {
    Exports(exports, "DllGetClassObject")
    && (Exports(exports, "DllCanUnloadNow") || Exports(exports, "DllRegisterServer")
        || Exports(exports, "DllUnregisterServer"))
  }

  lemma ComServerNeedsClassObject(exports: seq<string>)
    requires forall k :: 0 <= k < |exports| ==> !EqualsIgnoreCase("DllGetClassObject", exports[k])
    ensures !IsComServer(exports)
  {
  }

  /** Case does not matter: a lower-case export table still makes a COM server. */
  lemma ComServerIgnoresCase()
    ensures IsComServer(["dllgetclassobject", "DLLREGISTERSERVER"])
  {
    assert EqualsIgnoreCase("DllGetClassObject", ["dllgetclassobject", "DLLREGISTERSERVER"][0]);
    assert EqualsIgnoreCase("DllRegisterServer", ["dllgetclassobject", "DLLREGISTERSERVER"][1]);
  }

  /** Ignoring case is an equivalence: it is symmetric and transitive. */
  lemma EqualsIgnoreCaseChain(a: string, b: string, c: string)
    requires EqualsIgnoreCase(a, b) && EqualsIgnoreCase(b, c)
    ensures EqualsIgnoreCase(a, c) && EqualsIgnoreCase(c, a)
  {
    assert forall k :: 0 <= k < |a| ==> UpperAscii(a[k]) == UpperAscii(b[k]) == UpperAscii(c[k]);
  }

  /** A name is exported by a table exactly when it is exported by any other
      table whose names agree with it one by one, ignoring case. */
  lemma ExportsIgnoreCase(es: seq<string>, fs: seq<string>, name: string)
    requires |es| == |fs| && forall k :: 0 <= k < |es| ==> EqualsIgnoreCase(es[k], fs[k])
    ensures Exports(es, name) <==> Exports(fs, name)
  {
    if Exports(es, name) {
      var k :| 0 <= k < |es| && EqualsIgnoreCase(name, es[k]);
      EqualsIgnoreCaseChain(name, es[k], fs[k]);
    }
    if Exports(fs, name) {
      var k :| 0 <= k < |fs| && EqualsIgnoreCase(name, fs[k]);
      EqualsIgnoreCaseChain(es[k], fs[k], fs[k]);
      EqualsIgnoreCaseChain(fs[k], es[k], es[k]);
      EqualsIgnoreCaseChain(name, fs[k], es[k]);
    }
  }

  /** Case does not matter for any export table: re-casing its names never
      changes whether the file is a COM server. */
  lemma ComServerCaseInsensitive(es: seq<string>, fs: seq<string>)
    requires |es| == |fs| && forall k :: 0 <= k < |es| ==> EqualsIgnoreCase(es[k], fs[k])
    ensures IsComServer(es) == IsComServer(fs)
  {
    ExportsIgnoreCase(es, fs, "DllGetClassObject");
    ExportsIgnoreCase(es, fs, "DllCanUnloadNow");
    ExportsIgnoreCase(es, fs, "DllRegisterServer");
    ExportsIgnoreCase(es, fs, "DllUnregisterServer");
  }

  /** `Parse(path)`: `sha256` is the file's hash and `headers` what `PEReader`
      reads (None when it throws). Fields are assigned step by step as in the source. */
  method Parse(path: string, sha256: string, file: seq<Byte>, headers: Option<Headers>)
    returns (r: Result<Metadata, ParseError>)
    ensures !HasDosSignature(file) ==> r == Ok(Fresh(path).(sha256 := sha256))
    ensures HasDosSignature(file) && headers.None? ==> r == Err(BadImageFormat)
    ensures r.Ok? ==> r.value.path == path && r.value.sha256 == sha256
    ensures r.Ok? ==> r.value.isPortableExecutable == HasDosSignature(file)
    ensures r.Ok? && HasDosSignature(file) ==>
      var h := headers.value;
      && r.value.magic == h.magic
      && r.value.isLibrary == (HasFlag(h.characteristics, ImageFileDll) && HasFlag(h.characteristics, ImageFileExecutableImage))
      && r.value.isExecutable == (!HasFlag(h.characteristics, ImageFileDll) && HasFlag(h.characteristics, ImageFileExecutableImage))
      && r.value.isAssembly == h.hasMetadata
      && r.value.framework == (if h.hasMetadata then h.framework else None)
    ensures r.Ok? ==> !(r.value.isLibrary && r.value.isExecutable)
    ensures r.Ok? && !(r.value.isLibrary || r.value.isExecutable) ==>
      r.value.architecture == 0 && r.value.exports == [] && !r.value.isCOM
    ensures r.Ok? && (r.value.isLibrary || r.value.isExecutable) ==>
      && r.value.architecture == headers.value.machine
      && ExportNames(headers.value) == Ok(r.value.exports)
      && r.value.isCOM == IsComServer(r.value.exports)
    ensures HasDosSignature(file) && headers.Some? ==>
      var h := headers.value;
      (r.Err? <==> (HasFlag(h.characteristics, ImageFileExecutableImage) && ExportNames(h).Err?))
  {
    var metadata := Fresh(path);
    metadata := metadata.(sha256 := sha256);
    if |file| >= DosHeaderSize {
      if FromLE(file[..2]) == DosSignature {
        metadata := metadata.(isPortableExecutable := true);
        if headers.None? {
          return Err(BadImageFormat);
        }
        var h := headers.value;
        metadata := metadata.(magic := h.magic);
        metadata := metadata.(isLibrary := HasFlag(h.characteristics, ImageFileDll)
                                           && HasFlag(h.characteristics, ImageFileExecutableImage));
        metadata := metadata.(isExecutable := !HasFlag(h.characteristics, ImageFileDll)
                                              && HasFlag(h.characteristics, ImageFileExecutableImage));
        if metadata.isLibrary || metadata.isExecutable {
          metadata := metadata.(architecture := h.machine);
          var exports := GetExportNames(h);
          if exports.Err? {
            return Err(exports.error);
          }
          metadata := metadata.(exports := exports.value);
          metadata := metadata.(isCOM := IsComServer(metadata.exports));
        }
        if h.hasMetadata {
          metadata := metadata.(isAssembly := true);
          metadata := metadata.(framework := h.framework);
        }
      }
    }
    r := Ok(metadata);
  }
}

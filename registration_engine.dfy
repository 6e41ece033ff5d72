/** `RegistrationEngine.Register`: classify every input file, answer each
    file the pipeline cannot register with a bare result, and pass the x86
    COM libraries on to `RegisterCore`. */
module RegistrationEngine {
  import opened Common
  import opened PEMetadata
  import opened Messages

  /** Only unmanaged x86 COM libraries are registered. */
  predicate Eligible(m: Metadata)
  {
    m.isPortableExecutable && m.architecture == MachineI386 && m.isCOM && m.isLibrary && !m.isAssembly
  }

  /** The files kept for registration, in input order. */
  function EligibleFiles(files: seq<Metadata>): (r: seq<Metadata>)
    ensures |r| <= |files|
    ensures forall k :: 0 <= k < |r| ==> Eligible(r[k]) && r[k] in files
  {
    if files == [] then []
    else EligibleFiles(files[..|files| - 1]) + (if Eligible(Last(files)) then [Last(files)] else [])
  }

  /** The bare answers for the other files, in input order. */
  function Rejections(files: seq<Metadata>): (r: seq<Message>)
    ensures |r| <= |files|
    ensures forall k :: 0 <= k < |r| ==> r[k].RegistrationResult?
  {
    if files == [] then []
    else Rejections(files[..|files| - 1])
         + (if Eligible(Last(files)) then [] else [RegistrationResult(Last(files).path)])
  }

  /** Every file is either kept or answered, never both. */
  lemma {:induction false} Partition(files: seq<Metadata>)
    ensures |EligibleFiles(files)| + |Rejections(files)| == |files|
    ensures forall m :: m in files && Eligible(m) ==> m in EligibleFiles(files)
    ensures forall m :: m in files && !Eligible(m) ==> RegistrationResult(m.path) in Rejections(files)
  {
    if files != [] {
      var init := files[..|files| - 1];
      Partition(init);
      assert files == init + [Last(files)];
      forall m | m in files
        ensures Eligible(m) ==> m in EligibleFiles(files)
        ensures !Eligible(m) ==> RegistrationResult(m.path) in Rejections(files)
      {
        if m in init {
        } else {
          assert m == Last(files);
        }
      }
    }
  }

  /** A file with no COM exports, or built for another machine, is never
      registered. */
  lemma IneligibleExamples(m: Metadata)
    requires !m.isCOM || m.architecture != MachineI386 || m.isAssembly
    ensures EligibleFiles([m]) == [] && Rejections([m]) == [RegistrationResult(m.path)]
  {
    assert [m][..0] == [];
  }

  /** The paths of `files`, in order (`Select(l => l.Path)`). */
  function Paths(files: seq<Metadata>): (ps: seq<string>)
    ensures |ps| == |files| && forall k :: 0 <= k < |files| ==> ps[k] == files[k].path
  {
    seq(|files|, k requires 0 <= k < |files| => files[k].path)
  }

  /** The parser's answer for every path, in order, when it throws on none. */
  function ParseAll<E>(paths: seq<string>, parse: string -> Result<Metadata, E>): (files: seq<Metadata>)
    requires forall k :: 0 <= k < |paths| ==> parse(paths[k]).Ok?
    ensures |files| == |paths| && forall k :: 0 <= k < |paths| ==> parse(paths[k]) == Ok(files[k])
  {
    seq(|paths|, k requires 0 <= k < |paths| => parse(paths[k]).value)
  }

  /** The parser's answers, in order, up to the first path it throws on:
      `Select` is lazy, so the paths after that one are never parsed. */
  function Parsed<E>(paths: seq<string>, parse: string -> Result<Metadata, E>): (files: seq<Metadata>)
    ensures |files| <= |paths|
    ensures forall k :: 0 <= k < |files| ==> parse(paths[k]) == Ok(files[k])
    ensures |files| < |paths| ==> parse(paths[|files|]).Err?
  {
    if paths == [] then []
    else
      var init := paths[..|paths| - 1];
      var before := Parsed(init, parse);
      if |before| < |init| then before
      else match parse(Last(paths))
        case Ok(m) => before + [m]
        case Err(_) => before
  }

  /** A parser that never throws answers every path. */
  lemma ParsedTotal<E>(paths: seq<string>, parse: string -> Result<Metadata, E>)
    requires forall k :: 0 <= k < |paths| ==> parse(paths[k]).Ok?
    ensures Parsed(paths, parse) == ParseAll(paths, parse)
  {
  }

  /** `Parsed` is the only list that stops at the first exception: any list
      of answers that agrees with the parser and ends where it throws is it. */
  lemma ParsedUnique<E>(paths: seq<string>, parse: string -> Result<Metadata, E>, files: seq<Metadata>)
    requires |files| <= |paths| && forall k :: 0 <= k < |files| ==> parse(paths[k]) == Ok(files[k])
    requires |files| < |paths| ==> parse(paths[|files|]).Err?
    ensures Parsed(paths, parse) == files
  {
    var p := Parsed(paths, parse);
    assert |p| == |files|;
    assert forall k :: 0 <= k < |p| ==> Ok(p[k]) == parse(paths[k]) == Ok(files[k]);
  }

  /** `Register(paths)`: `parse` is the PE parser, `Err(e)` for the
      exception `e` it throws; `parsed` records the paths it was called on.
      `RegisterCore` yields nothing (it ends in `yield break` without a
      `yield return`), so the results are the rejections alone; `core` are
      the paths handed to it, `None` when a parse exception ended the
      enumeration, which `fault` then carries, before it was reached. */
  method Register<E>(paths: seq<string>, parse: string -> Result<Metadata, E>)
    returns (results: seq<Message>, fault: Option<E>, core: Option<seq<string>>, ghost parsed: seq<string>)
    ensures results == Rejections(Parsed(paths, parse))
    ensures var files := Parsed(paths, parse);
            |files| == |paths| ==> fault.None? && core == Some(Paths(EligibleFiles(files)))
    ensures var files := Parsed(paths, parse);
            |files| < |paths| ==> fault == Some(parse(paths[|files|]).error) && core.None?
    ensures var files := Parsed(paths, parse);
            parsed == if |files| == |paths| then paths else paths[..|files| + 1]
  {
    ghost var files: seq<Metadata> := [];
    var libraries: seq<Metadata> := [];
    results, fault := [], None;
    parsed := [];
    for i := 0 to |paths|
      invariant |files| == i && parsed == paths[..i]
      invariant forall k :: 0 <= k < i ==> parse(paths[k]) == Ok(files[k])
      invariant results == Rejections(files) && libraries == EligibleFiles(files)
    {
      var answer := parse(paths[i]);
      assert paths[..i] + [paths[i]] == paths[..i + 1];
      parsed := parsed + [paths[i]];
      if answer.Err? {
        ParsedUnique(paths, parse, files);
        return results, Some(answer.error), None, parsed;
      }
      var m := answer.value;
      Extend(files, m, results, libraries);
      files := files + [m];
      if Eligible(m) {
        libraries := libraries + [m];
      } else {
        results := results + [RegistrationResult(m.path)];
      }
    }
    ParsedUnique(paths, parse, files);
    assert paths[..|paths|] == paths;
    core := Some(Paths(libraries));
  }

  /** One more answer: kept or rejected at the end of the list. */
  lemma Extend(files: seq<Metadata>, m: Metadata, results: seq<Message>, libraries: seq<Metadata>)
    requires results == Rejections(files) && libraries == EligibleFiles(files)
    ensures Eligible(m) ==> results == Rejections(files + [m]) && libraries + [m] == EligibleFiles(files + [m])
    ensures !Eligible(m) ==> results + [RegistrationResult(m.path)] == Rejections(files + [m])
                             && libraries == EligibleFiles(files + [m])
  {
    assert (files + [m])[..|files|] == files;
  }
}

/**
 * The path helper for macOS Catalina, where `/google/src` is a symbolic link to
 * `/Volumes/google/src`: canonical paths come back under `/Volumes`, and each
 * `fix` overload rewrites them to the form every other platform uses. The host
 * check (`SystemInfo.isMacOSCatalina`) is the `isMacOSCatalina` parameter and
 * the virtual-file lookup (`VfsUtils.resolveVirtualFile`) is the `resolve`
 * parameter.
 */
module PathUtil {
  import opened Wrappers
  import opened JavaString

  const Volumes: string := "/Volumes"
  const CatalinaSrcfsAbsolutePathPrefix: string := "/Volumes/google/src"
  const SrcfsAbsolutePathPrefix: string := "/google/src"

  /** A native file handle (`java.io.File`), identified by its path. */
  datatype File = File(path: string)

  /** A handle into the IDE's virtual file system, identified by its path. */
  datatype VirtualFile = VirtualFile(path: string)

  /**
   * The guard both handle overloads share: on Catalina, a path that is
   * `/Volumes` followed by something has that marker stripped.
   */
  predicate StripsVolumes(isMacOSCatalina: bool, path: string)
    ensures StripsVolumes(isMacOSCatalina, path) <==>
      isMacOSCatalina && |path| >= 8 && path == Volumes + path[8..]
  {
    isMacOSCatalina && StartsWith(path, Volumes)
  }

  /**
   * `fix(String)`: on Catalina every non-overlapping occurrence of
   * `/Volumes/google/src`, anywhere in the text, becomes `/google/src`, so each
   * one shortens the text by eight characters; the text comes back unchanged
   * exactly when the flag is off or the legacy prefix does not occur.
   */
  function FixString(isMacOSCatalina: bool, path: string): (r: string)
    ensures !isMacOSCatalina ==> r == path
    ensures isMacOSCatalina ==>
      |r| == |path| - 8 * CountMatches(path, CatalinaSrcfsAbsolutePathPrefix)
    ensures |r| <= |path|
    ensures r == path <==> !isMacOSCatalina || !Occurs(path, CatalinaSrcfsAbsolutePathPrefix)
  {
    if !isMacOSCatalina then path
    else
      var r := ReplaceAll(path, CatalinaSrcfsAbsolutePathPrefix, SrcfsAbsolutePathPrefix);
      var n := CountMatches(path, CatalinaSrcfsAbsolutePathPrefix);
      assert |CatalinaSrcfsAbsolutePathPrefix| == 19 && |SrcfsAbsolutePathPrefix| == 11;
      assert |r| + 19 * n == |path| + 11 * n;
      ReplaceAllIdentityIff(path, CatalinaSrcfsAbsolutePathPrefix, SrcfsAbsolutePathPrefix);
      r
  }

  /**
   * `fix(VirtualFile)`: off Catalina, or for a path outside `/Volumes`, the
   * handle itself; otherwise whatever the resolver gives for the stripped path,
   * given the boolean argument `true`, absent result included.
   */
  function FixVirtualFile(isMacOSCatalina: bool, virtualFile: VirtualFile,
                          resolve: (File, bool) -> Option<VirtualFile>): (r: Option<VirtualFile>)
    ensures !StripsVolumes(isMacOSCatalina, virtualFile.path) ==> r == Some(virtualFile)
    ensures StripsVolumes(isMacOSCatalina, virtualFile.path) ==>
      r == resolve(FixFile(isMacOSCatalina, File(virtualFile.path)), true)
  {
    if !isMacOSCatalina then Some(virtualFile)
    else if !StartsWith(virtualFile.path, Volumes) then Some(virtualFile)
    else resolve(File(virtualFile.path[|Volumes|..]), true)
  }

  /**
   * `fix(File)`: off Catalina, or for a path outside `/Volumes`, the handle
   * itself; otherwise a new handle whose path, put back behind `/Volumes`, is
   * the original path.
   */
  function FixFile(isMacOSCatalina: bool, file: File): (r: File)
    ensures !StripsVolumes(isMacOSCatalina, file.path) ==> r == file
    // The length conjunct follows from the first; it is spelled out because
    // it is what shows a stripped path always differs from the original.
    ensures StripsVolumes(isMacOSCatalina, file.path) ==>
      Volumes + r.path == file.path && |r.path| == |file.path| - |Volumes|
  {
    if !isMacOSCatalina then file
    else if !StartsWith(file.path, Volumes) then file
    else
      assert file.path[..|Volumes|] + file.path[|Volumes|..] == file.path;
      File(file.path[|Volumes|..])
  }

  /** On Catalina a file under `/Volumes` becomes exactly the rest of its path. */
  lemma FixFileStrips(file: File, rest: string)
    requires file.path == Volumes + rest
    ensures FixFile(true, file) == File(rest)
  {
    assert StartsWith(file.path, Volumes) by {
      assert file.path[..|Volumes|] == Volumes;
    }
  }

  /**
   * The prefix test is a bare string prefix: `/VolumesX` loses its first eight
   * characters like `/Volumes/a/b` does, and `/Volumes` itself becomes empty.
   */
  lemma FixFileExamples()
    ensures FixFile(true, File("/Volumes/a/b")) == File("/a/b")
    ensures FixFile(true, File("/VolumesX")) == File("X")
    ensures FixFile(true, File("/Volumes")) == File("")
  {
    FixFileStrips(File("/Volumes/a/b"), "/a/b");
    FixFileStrips(File("/VolumesX"), "X");
    FixFileStrips(File("/Volumes"), "");
  }

  /** On Catalina a virtual file under `/Volumes` is looked up by the rest of its path. */
  lemma FixVirtualFileResolves(virtualFile: VirtualFile, rest: string,
                               resolve: (File, bool) -> Option<VirtualFile>)
    requires virtualFile.path == Volumes + rest
    ensures FixVirtualFile(true, virtualFile, resolve) == resolve(File(rest), true)
  {
    assert virtualFile.path[..|Volumes|] == Volumes;
    assert virtualFile.path[|Volumes|..] == rest;
  }

  /**
   * The two handle overloads apply one policy: the virtual file is rewritten
   * exactly when the file with the same path is, and is then resolved from
   * that file's result.
   */
  lemma FixVirtualFileAgreesWithFixFile(isMacOSCatalina: bool, virtualFile: VirtualFile,
                                        resolve: (File, bool) -> Option<VirtualFile>)
    ensures var fixed := FixFile(isMacOSCatalina, File(virtualFile.path));
      FixVirtualFile(isMacOSCatalina, virtualFile, resolve) ==
        if fixed.path == virtualFile.path then Some(virtualFile) else resolve(fixed, true)
  {
    if StripsVolumes(isMacOSCatalina, virtualFile.path) {
      var rest := virtualFile.path[|Volumes|..];
      assert Volumes + rest == virtualFile.path by {
        assert virtualFile.path[..|Volumes|] == Volumes;
      }
      FixFileStrips(File(virtualFile.path), rest);
      FixVirtualFileResolves(virtualFile, rest, resolve);
    }
  }

  /**
   * For a path that begins with the legacy prefix and holds no other
   * occurrence of it, the text overload and the file overload give the same
   * path.
   */
  lemma FixStringAgreesWithFixFile(tail: string)
    requires !Occurs(tail, CatalinaSrcfsAbsolutePathPrefix)
    ensures var path := CatalinaSrcfsAbsolutePathPrefix + tail;
      FixString(true, path) == FixFile(true, File(path)).path == SrcfsAbsolutePathPrefix + tail
  {
    var p := CatalinaSrcfsAbsolutePathPrefix;
    var q := SrcfsAbsolutePathPrefix;
    FixStringLeadingLegacyPrefix(tail);
    LegacyPrefixIsVolumesThenCanonical();
    assert p + tail == Volumes + (q + tail);
    FixFileStrips(File(p + tail), q + tail);
  }

  /** A single leading legacy prefix becomes the canonical one. */
  lemma FixStringLeadingLegacyPrefix(tail: string)
    requires !Occurs(tail, CatalinaSrcfsAbsolutePathPrefix)
    ensures FixString(true, CatalinaSrcfsAbsolutePathPrefix + tail) == SrcfsAbsolutePathPrefix + tail
  {
    var p := CatalinaSrcfsAbsolutePathPrefix;
    var q := SrcfsAbsolutePathPrefix;
    ReplaceAllLeadingMatch(p, tail, q);
    ReplaceAllNoMatch(tail, p, q);
  }

  /** The legacy prefix is the `/Volumes` marker followed by the canonical prefix. */
  lemma LegacyPrefixIsVolumesThenCanonical()
    ensures CatalinaSrcfsAbsolutePathPrefix == Volumes + SrcfsAbsolutePathPrefix
  {
  }

  /** A path that begins with the legacy prefix is rewritten. */
  lemma FixStringLeadingExample()
    ensures FixString(true, "/Volumes/google/src/foo") == "/google/src/foo"
  {
    LeadingExampleLiterals();
    FixStringLeadingLegacyPrefix("/foo");
  }

  /** Spells out the constant concatenations the example is written with. */
  lemma LeadingExampleLiterals()
    ensures CatalinaSrcfsAbsolutePathPrefix + "/foo" == "/Volumes/google/src/foo"
    ensures SrcfsAbsolutePathPrefix + "/foo" == "/google/src/foo"
  {
  }

  /**
   * The rewrite is not anchored: the legacy prefix is replaced wherever the
   * scan meets it, with the text around it kept as it was.
   */
  lemma {:induction false} FixStringUnanchored(head: string, tail: string)
    requires forall i: nat | i < |head| ::
      !MatchAt(head + CatalinaSrcfsAbsolutePathPrefix + tail, CatalinaSrcfsAbsolutePathPrefix, i)
    requires !Occurs(tail, CatalinaSrcfsAbsolutePathPrefix)
    ensures FixString(true, head + CatalinaSrcfsAbsolutePathPrefix + tail) ==
      head + SrcfsAbsolutePathPrefix + tail
  {
    var p := CatalinaSrcfsAbsolutePathPrefix;
    var q := SrcfsAbsolutePathPrefix;
    assert head + p + tail == head + (p + tail);
    ReplaceAllUnmatchedPrefix(head, p + tail, p, q);
    FixStringAgreesWithFixFile(tail);
    assert head + (q + tail) == head + q + tail;
  }

  /**
   * Every occurrence is replaced: after a head in which no match starts, the
   * first legacy prefix becomes the canonical one and the rest of the path is
   * fixed in turn, whatever further occurrences it holds.
   */
  lemma FixStringStep(head: string, tail: string)
    requires forall i: nat | i < |head| ::
      !MatchAt(head + CatalinaSrcfsAbsolutePathPrefix + tail, CatalinaSrcfsAbsolutePathPrefix, i)
    ensures FixString(true, head + CatalinaSrcfsAbsolutePathPrefix + tail) ==
      head + SrcfsAbsolutePathPrefix + FixString(true, tail)
  {
    var p := CatalinaSrcfsAbsolutePathPrefix;
    var q := SrcfsAbsolutePathPrefix;
    assert head + p + tail == head + (p + tail);
    ReplaceAllUnmatchedPrefix(head, p + tail, p, q);
    ReplaceAllLeadingMatch(p, tail, q);
    assert head + (q + ReplaceAll(tail, p, q)) == head + q + ReplaceAll(tail, p, q);
  }

  /** `fix("a/Volumes/google/src/b")` on Catalina is `"a/google/src/b"`. */
  lemma FixStringMidStringExample()
    ensures FixString(true, "a/Volumes/google/src/b") == "a/google/src/b"
  {
    var p := CatalinaSrcfsAbsolutePathPrefix;
    MidStringExampleLiterals();
    forall i: nat | i < |"a"| ensures !MatchAt("a" + p + "/b", p, i) {
      MismatchAt("a" + p + "/b", p, i, 0);
    }
    FixStringUnanchored("a", "/b");
  }

  /** Spells out the constant concatenations the example is written with. */
  lemma MidStringExampleLiterals()
    ensures "a" + CatalinaSrcfsAbsolutePathPrefix + "/b" == "a/Volumes/google/src/b"
    ensures "a" + SrcfsAbsolutePathPrefix + "/b" == "a/google/src/b"
  {
  }

  /**
   * `fix(String)` is not idempotent: removing one legacy prefix can expose
   * another.
   */
  lemma FixStringNotIdempotent()
    ensures var once := FixString(true, "/Volumes/Volumes/google/src");
      once == "/Volumes/google/src" && FixString(true, once) != once
  {
    var p := CatalinaSrcfsAbsolutePathPrefix;
    var s := Volumes + p + "";
    NotIdempotentExampleLiterals();
    forall i: nat | i < |Volumes| ensures !MatchAt(s, p, i) {
      if i == 0 {
        MismatchAt(s, p, 0, 9);
      } else {
        MismatchAt(s, p, i, 0);
      }
    }
    assert !Occurs("", p);
    FixStringUnanchored(Volumes, "");
    FixStringAgreesWithFixFile("");
  }

  /** Spells out the constant concatenations the example is written with. */
  lemma NotIdempotentExampleLiterals()
    ensures Volumes + CatalinaSrcfsAbsolutePathPrefix + "" == "/Volumes/Volumes/google/src"
    ensures Volumes + SrcfsAbsolutePathPrefix + "" == CatalinaSrcfsAbsolutePathPrefix + ""
    ensures CatalinaSrcfsAbsolutePathPrefix + "" == "/Volumes/google/src"
    ensures SrcfsAbsolutePathPrefix + "" != CatalinaSrcfsAbsolutePathPrefix
  {
  }
}

# PathUtil: the macOS Catalina path fix

On macOS Catalina `/google/src` is a symbolic link to `/Volumes/google/src`,
so canonical paths of source files come back under `/Volumes` and fail the
plugin's prefix checks. `PathUtil` rewrites such paths to the form every other
platform uses, in three representations:

- `fix(String)`: on Catalina, every occurrence of `/Volumes/google/src`
  anywhere in the text becomes `/google/src` (a literal `replaceAll`);
- `fix(VirtualFile)`: on Catalina, a handle whose path starts with `/Volumes`
  has those eight characters removed and is looked up again through the
  virtual file system, with the boolean argument `true` (line 56);
- `fix(File)`: the same prefix strip, building a new native file handle.

Anything else is returned as it came.

The project has three modules:

- `Wrappers` (wrappers.dfy): `Option`, standing for a nullable result.
- `JavaString` (java_string.dfy): the string operations the helper relies on:
  `startsWith`, `substring` (modelled as the slice `s[k..]`), and
  `replaceAll` with a pattern free of regular expression metacharacters and
  a replacement free of `$` and `\`,
  modelled as a literal, leftmost, non-overlapping scan (`ReplaceAll`). The
  number of matches it makes (`CountMatches`) and the specification
  predicate `Occurs` ("the pattern occurs somewhere") are its references;
  the helper calls no `contains` or `indexOf`, so `Occurs` is only a
  specification.
- `PathUtil` (path_util.dfy): the three constants, the three overloads
  (`FixString`, `FixVirtualFile`, `FixFile`) and what they promise.

The host check `SystemInfo.isMacOSCatalina` is the `isMacOSCatalina`
parameter of each overload. `VfsUtils.resolveVirtualFile` is the `resolve`
parameter of `FixVirtualFile`, a function from a file and a boolean to an
optional virtual file; the helper always passes `true`. Both handles are
datatypes holding their path, and "returned unchanged" is value equality.

The text fix is not idempotent: `"/Volumes/Volumes/google/src"` becomes `"/Volumes/google/src"`, which still
holds the legacy prefix (`PathUtil.FixStringNotIdempotent`).

## Model

| member | source | states |
|---|---|---|
| `JavaString.CountMatches` | base/src/com/google/idea/blaze/base/util/PathUtil.java:44 | the matches found by a left-to-right scan that resumes after each match never take up more characters than the text has |
| `JavaString.ReplaceAll` | base/src/com/google/idea/blaze/base/util/PathUtil.java:44 | a literal `replaceAll` removes the pattern's length and adds the replacement's length once per non-overlapping match |
| `JavaString.CountMatchesPositiveIffOccurs` | base/src/com/google/idea/blaze/base/util/PathUtil.java:44 | the scan makes at least one replacement exactly when the pattern occurs somewhere in the text |
| `JavaString.ReplaceAllNoMatch` | base/src/com/google/idea/blaze/base/util/PathUtil.java:44 | text in which the pattern does not occur is returned unchanged |
| `JavaString.ReplaceAllIdentityIff` | base/src/com/google/idea/blaze/base/util/PathUtil.java:44 | with a replacement of a different length, the text comes back unchanged if and only if the pattern does not occur in it |
| `JavaString.ReplaceAllLeadingMatch` | base/src/com/google/idea/blaze/base/util/PathUtil.java:44 | a match at the front is replaced and the scan resumes right after it |
| `JavaString.ReplaceAllLeadingChar` | base/src/com/google/idea/blaze/base/util/PathUtil.java:44 | a character where no match starts is copied to the output |
| `JavaString.ReplaceAllUnmatchedPrefix` | base/src/com/google/idea/blaze/base/util/PathUtil.java:44 | a stretch in which no match starts is copied unchanged and replacement carries on after it |
| `JavaString.StartsWith` | base/src/com/google/idea/blaze/base/util/PathUtil.java:52-55 | `startsWith` holds exactly when the string is the prefix followed by the rest that `substring(prefix.length())` returns |
| `PathUtil.StripsVolumes` | base/src/com/google/idea/blaze/base/util/PathUtil.java:48-54 | the guard both handle overloads share: rewriting happens exactly when the flag is on and the path is `/Volumes` followed by something (lines 60-66 repeat it for files) |
| `PathUtil.FixString` | base/src/com/google/idea/blaze/base/util/PathUtil.java:40-45 | off Catalina the text is unchanged; on Catalina it loses 8 characters per non-overlapping `/Volumes/google/src`, is never longer, and is unchanged exactly when that prefix does not occur |
| `PathUtil.FixVirtualFile` | base/src/com/google/idea/blaze/base/util/PathUtil.java:47-57 | off Catalina, or for a path not starting with `/Volumes`, the handle itself; otherwise exactly what the resolver gives, with the argument `true`, for the file the file fix makes of that path, an absent result included |
| `PathUtil.FixFile` | base/src/com/google/idea/blaze/base/util/PathUtil.java:59-69 | off Catalina or outside `/Volumes` the handle itself; otherwise a handle whose path, put back behind `/Volumes`, is the original path |
| `PathUtil.FixFileStrips` | base/src/com/google/idea/blaze/base/util/PathUtil.java:63-68 | on Catalina a file at `/Volumes` + rest becomes a file at exactly rest |
| `PathUtil.FixFileExamples` | base/src/com/google/idea/blaze/base/util/PathUtil.java:64-67 | the prefix test against `VOLUMES` (line 36) is a bare prefix: `/Volumes/a/b` gives `/a/b`, `/VolumesX` gives `X`, `/Volumes` gives the empty path |
| `PathUtil.FixVirtualFileResolves` | base/src/com/google/idea/blaze/base/util/PathUtil.java:51-56 | on Catalina a virtual file at `/Volumes` + rest is exactly what the resolver gives for a file at rest and the argument `true`, an absent result included |
| `PathUtil.FixVirtualFileAgreesWithFixFile` | base/src/com/google/idea/blaze/base/util/PathUtil.java:47-69 | the two handle overloads apply one policy: the virtual file is rewritten exactly when the file with its path is, and is resolved from that file's result |
| `PathUtil.FixStringAgreesWithFixFile` | base/src/com/google/idea/blaze/base/util/PathUtil.java:37-68 | for a path starting with `/Volumes/google/src` with no other occurrence of it, the text fix and the file fix give the same path, `/google/src` + the rest |
| `PathUtil.LegacyPrefixIsVolumesThenCanonical` | base/src/com/google/idea/blaze/base/util/PathUtil.java:36-38 | the legacy prefix is `/Volumes` followed by the canonical prefix, which is why stripping `/Volumes` and replacing the legacy prefix can agree |
| `PathUtil.FixStringLeadingLegacyPrefix` | base/src/com/google/idea/blaze/base/util/PathUtil.java:37-44 | on Catalina a path made of the legacy prefix and a rest without it becomes the canonical prefix followed by that same rest |
| `PathUtil.FixStringLeadingExample` | base/src/com/google/idea/blaze/base/util/PathUtil.java:37-44 | `/Volumes/google/src/foo` becomes `/google/src/foo` on Catalina |
| `PathUtil.FixStringUnanchored` | base/src/com/google/idea/blaze/base/util/PathUtil.java:37-44 | the legacy prefix is replaced wherever the scan meets it, mid-string included, and the text before and after it is kept |
| `PathUtil.FixStringStep` | base/src/com/google/idea/blaze/base/util/PathUtil.java:37-44 | every occurrence is replaced: after a head where no match starts, the first legacy prefix becomes the canonical one and the rest is fixed in turn, whatever further occurrences it holds |
| `PathUtil.FixStringMidStringExample` | base/src/com/google/idea/blaze/base/util/PathUtil.java:37-44 | `a/Volumes/google/src/b` becomes `a/google/src/b` on Catalina |
| `PathUtil.FixStringNotIdempotent` | base/src/com/google/idea/blaze/base/util/PathUtil.java:37-44 | applying the text fix twice can differ from applying it once |

## Left out

- `SystemInfo.isMacOSCatalina` (host operating system detection) is not computed; it is an input.
- `VfsUtils.resolveVirtualFile` (a virtual file system lookup) is not modelled; it is an arbitrary function parameter, so every property holds whatever it does.
- `java.io.File` normalises separators in its constructor and `getPath`; a `File` here is a plain wrapper around its string.
- The Java regular expression engine behind `replaceAll` is modelled only for a pattern without metacharacters and a replacement without `$` or `\` (Java reads those as group references and escapes, and throws on a lone `$` or a trailing `\`), which are the only ones the helper passes.
- Object identity of returned handles is modelled as value equality.
- Null arguments are not modelled: off Catalina Java returns them as they are, on Catalina it throws.
- Strings are sequences of Dafny `char`, which are Unicode scalar values, not Java's UTF-16 code units: a lone surrogate cannot be represented, and a supplementary character is one element where Java counts two. Lengths in the contracts, such as the eight characters `FixString` removes per match, therefore count scalar values rather than what Java's `length()` returns. No length limit on strings is modelled.
- The private constructor (line 71) has no behaviour to model.

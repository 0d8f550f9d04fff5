# ServiceStack.Text string, path and HTTP helpers in Dafny

This project models the pure string logic of ServiceStack.Text and proves
properties about it. It covers:

- the wildcard matcher `Glob` and the path-aware matcher `GlobPath` built on it;
- the splitting, slicing and rewriting helpers of `StringExtensions`;
- form-style URL encoding and hex escaping;
- the query-string and hash-parameter editors, the MIME and extension tables,
  the reason-phrase table and the compression-type and verb validators of
  `HttpUtils`;
- the URL path joiner of `PathUtils`;
- the `"Type, Assembly"` parser `AssemblyTypeDefinition`;
- `PclExport.ToTitleCase` and the directory separator constants.

Conventions used throughout:

- A .NET exception is an `Error(...)` of the `Result` type in `wrappers.dfy`,
  named after the exception class (`IndexOutOfRange`, `ArgumentNull`,
  `NotSupported`, ...).
- A `null` string or array is `None` of the `Option` type wherever the source
  tests for null or passes it on. The members listed under "## Left out" that
  take a plain `string` model calls on a non-null receiver.
- Strings are `seq<char>`. `int` arguments that can overflow are `int32` values,
  with two's-complement wrap-around written out (`Text.Wrap32`).
- Code that loops over a buffer is a `method` with loop invariants. Each such
  method is proved equal to a function, and the properties are lemmas about
  that function.
- `PathUtils.AppendPaths` mutates a `StringBuilder`. It is modelled by a class
  `PathUtils.StringBuilder` whose `content` field the methods update.

Module layout:

- `text.dfy` holds the .NET library calls the code relies on: `IndexOf`,
  `LastIndexOf`, `Split`, `Trim`, `ToUpper`, `Replace` and UTF-8 encoding.
  `LastIndexOf` follows the .NET Framework, which the library targets: an empty
  needle is found at the last character (`Length - 1`), and at 0 in `""`.
- `glob.dfy` and `glob_path.dfy` hold the matchers.
- `string_parts.dfy`, `string_extensions.dfy`, `string_paths.dfy`,
  `string_rewriting.dfy`, `url_encoding.dfy` and `base_conversion.dfy` hold the
  rest of `StringExtensions.cs`.
- `http_utils.dfy`, `mime_types.dfy`, `http_methods.dfy`,
  `compression_types.dfy` and `http_status.dfy` hold `HttpUtils.cs`.
- `path_utils.dfy`, `assembly_type_definition.dfy` and `pcl_export.dfy` hold
  the remaining files.

Sanitising a glob path is not idempotent: the code strips one leading `/`, so
`"//a"` gives `"/a"` and then `"a"` (`GlobPaths.SanitizeTwice`).

## Model

| member | source | states |
|---|---|---|
| Glob.Glob | src/ServiceStack.Text/StringExtensions.cs:1084-1112 | The loop over pattern positions returns exactly `GlobSpec`. The `*` branch recurses on suffixes starting from the end of the value back to `pos`, so the shortest suffix is tried first. That includes the IndexOutOfRange when a literal after `?` indexes past the value. |
| Glob.Matches | src/ServiceStack.Text/StringExtensions.cs:1079-1082 | Matches is Glob. |
| Glob.GlobSpec | src/ServiceStack.Text/StringExtensions.cs:1084-1112 | The only exception Glob can raise is IndexOutOfRange. |
| Glob.Scan | src/ServiceStack.Text/StringExtensions.cs:1087-1111 | From any pattern position, an exception is an IndexOutOfRange. |
| Glob.Star | src/ServiceStack.Text/StringExtensions.cs:1094-1100 | The retries of the `*` branch raise nothing but IndexOutOfRange. |
| Glob.GlobSound | src/ServiceStack.Text/StringExtensions.cs:1084-1112 | Whenever Glob returns a verdict, it is the textbook wildcard meaning `Wild` of the pattern: `*` is any run, `?` one character, literals compared after ToUpper. |
| Glob.ScanSound | src/ServiceStack.Text/StringExtensions.cs:1087-1111 | From any position, a returned verdict is `Wild` of the remaining value and pattern. A position past the value's end is never a success. |
| Glob.StarSound | src/ServiceStack.Text/StringExtensions.cs:1094-1100 | The `*` branch succeeds exactly when the rest of the pattern matches some suffix starting between `pos` and the candidate. |
| Glob.WildStar | src/ServiceStack.Text/StringExtensions.cs:1094-1100 | A leading `*` matches exactly when the rest matches some suffix of the value. |
| Glob.GlobTotal | src/ServiceStack.Text/StringExtensions.cs:1084-1112 | When no `?` is directly followed by a literal, Glob never throws and returns `Wild`. |
| Glob.ScanNoThrow | src/ServiceStack.Text/StringExtensions.cs:1087-1111 | Under the same condition, no position of the loop throws. |
| Glob.StarNoThrow | src/ServiceStack.Text/StringExtensions.cs:1094-1100 | Under the same condition, the `*` retries never throw. |
| Glob.QuestionPastEnd | src/ServiceStack.Text/StringExtensions.cs:1087-1111 | `"?"` against `""` is a plain false. |
| Glob.LiteralPastEndThrows | src/ServiceStack.Text/StringExtensions.cs:1091-1103 | `"??a"` against `"x"` throws IndexOutOfRange. |
| Glob.StarScanThrowsBeforeMatch | src/ServiceStack.Text/StringExtensions.cs:1094-1103 | Trying the empty suffix first, `"*?b"` against `"ab"` throws although the pattern matches. |
| Glob.ScanLiteral | src/ServiceStack.Text/StringExtensions.cs:1102-1111 | Without wildcards, the loop succeeds exactly when the lengths agree and every character agrees after ToUpper. |
| Glob.GlobLiteral | src/ServiceStack.Text/StringExtensions.cs:1102-1111 | A wildcard-free pattern matches exactly the values of its length that agree with it character by character up to ToUpper. |
| Glob.GlobSelf | src/ServiceStack.Text/StringExtensions.cs:1084-1112 | A pattern without `*` matches itself. `"*?a"` against itself throws. |
| Glob.ScanCaseBlind | src/ServiceStack.Text/StringExtensions.cs:1102-1107 | Values and patterns with equal upper-case forms give the same result at every position. |
| Glob.StarCaseBlind | src/ServiceStack.Text/StringExtensions.cs:1094-1100 | The same holds for the `*` retries. |
| Glob.GlobCaseInsensitive | src/ServiceStack.Text/StringExtensions.cs:1084-1112 | Upper-casing the value or the pattern does not change Glob's result. |
| GlobPaths.Sanitize | src/ServiceStack.Text/StringExtensions.cs:1119-1124 | After sanitising, no `\` is left, and at most one character (a leading `/`) has been removed. |
| GlobPaths.SanitizeLeadingSeparator | src/ServiceStack.Text/StringExtensions.cs:1119-1124 | A single leading `/` or `\` before a name without one disappears. |
| GlobPaths.SanitizeTwice | src/ServiceStack.Text/StringExtensions.cs:1119-1124 | Sanitising is not idempotent: `"//a"` gives `"/a"`, and sanitising again gives `"a"`. |
| GlobPaths.DirSegLiteral | src/ServiceStack.Text/StringExtensions.cs:1147-1154 | A directory pattern without wildcards, read as the regex, accepts exactly itself. |
| GlobPaths.DirSegStaysInSegment | src/ServiceStack.Text/StringExtensions.cs:1149-1152 | A directory segment pattern without `/` and `?`, read as the regex, never matches a text containing `/`: its `*` is `[^/]*`. |
| GlobPaths.GlobPathMissing | src/ServiceStack.Text/StringExtensions.cs:1116-1117 | A null or empty path or pattern gives false. |
| GlobPaths.GlobPath | src/ServiceStack.Text/StringExtensions.cs:1114-1162 | A null or empty path or pattern gives false; the only exception is the IndexOutOfRange of Glob. |
| GlobPaths.GlobPathIntended | src/ServiceStack.Text/StringExtensions.cs:1114-1162 | The corrected version keeps both promises: false for a missing argument, IndexOutOfRange as the only exception. |
| GlobPaths.Decide | src/ServiceStack.Text/StringExtensions.cs:1126-1161 | A sanitised pattern without `*` and `?` is decided by ordinal equality with the sanitised path; any exception is an IndexOutOfRange. |
| GlobPaths.GlobPathLiteral | src/ServiceStack.Text/StringExtensions.cs:1126-1127 | A pattern without `*` and `?` gives ordinal equality of the sanitised strings. |
| GlobPaths.GlobPathSingleSegment | src/ServiceStack.Text/StringExtensions.cs:1129-1132 | A sanitised path without `/` is globbed against the raw, unsanitised pattern. |
| GlobPaths.GlobPathFileNameOnly | src/ServiceStack.Text/StringExtensions.cs:1136-1137 | A pattern without `/`, for a path with one, is globbed against the path's file name only. |
| GlobPaths.GlobPathDirectoryAndFile | src/ServiceStack.Text/StringExtensions.cs:1139-1161 | With a directory on both sides, the directory rule decides first; only then is the file name globbed against the file pattern. |
| GlobPaths.GlobPathDirectoryAndFileWild | src/ServiceStack.Text/StringExtensions.cs:1139-1161 | With a directory on both sides and a file pattern with no `?` directly before a literal, GlobPath accepts exactly when the directory rule holds and the file name is `Wild` of the file pattern. |
| GlobPaths.GlobPathFileNameMatches | src/ServiceStack.Text/StringExtensions.cs:1134-1161 | Whenever GlobPath accepts a path with a directory, its file name matches (in the sense of `Wild`) the pattern after the pattern's last `/`. |
| GlobPaths.DoubleStarRule | src/ServiceStack.Text/StringExtensions.cs:1142-1146 | A directory pattern containing `**` asks only that the whole path starts with the text before the first `**`, with trailing `*` and `/` trimmed. |
| GlobPaths.FirstDoubleStar | src/ServiceStack.Text/StringExtensions.cs:1142-1144 | The ordinal test and the case-blind search both find the first `**`. |
| GlobPaths.FirstDoubleStarIgnoringCase | src/ServiceStack.Text/StringExtensions.cs:1144 | The case-blind search for `**` finds its first occurrence. |
| GlobPaths.NoDoubleStar | src/ServiceStack.Text/StringExtensions.cs:1142 | A text without two adjacent `*` has no `**`. |
| GlobPaths.CasePattern | src/ServiceStack.Text/StringExtensions.cs:1155-1159 | In `"src/*.cs"` the pattern splits at its last `/`, and its directory `src` is compared to the path's directory by equality. |
| GlobPaths.DoubleStarPattern | src/ServiceStack.Text/StringExtensions.cs:1142-1146 | The directory rule of `"src/**/*.cs"` is "the path starts with `src`". |
| GlobPaths.GlobPathOneLevelExample | src/ServiceStack.Text/StringExtensions.cs:1147-1154 | `"src/*/*.cs"` accepts `"src/a/b.cs"` and rejects `"src/a/x/b.cs"`. |
| GlobPaths.GlobPathCaseExample | src/ServiceStack.Text/StringExtensions.cs:1139-1161 | The directory is compared case-sensitively (`"SRC/a.cs"` fails) and the file name case-insensitively (`"src/A.CS"` passes). |
| GlobPaths.GlobPathDoubleStarExample | src/ServiceStack.Text/StringExtensions.cs:1142-1146 | `"src/**/*.cs"` accepts files at any depth under `src`, and also `"srcx/b.cs"`. |
| GlobPaths.GlobStarDotCs | src/ServiceStack.Text/StringExtensions.cs:1084-1112 | `"*.cs"` accepts `"b.cs"` and `"A.CS"`. |
| GlobPaths.GlobPathLeadingSlashMismatch | src/ServiceStack.Text/StringExtensions.cs:1129-1132 | As written, `"/*.txt"` rejects `"a.txt"` although `"*.txt"` accepts it; the intended version accepts it. |
| GlobPaths.GlobPathIntendedLeadingSeparator | src/ServiceStack.Text/StringExtensions.cs:1114-1162 | With the sanitised pattern in every branch, a leading `/` or `\` on the pattern never changes the result. |
| GlobPaths.GlobPathIntendedAgrees | src/ServiceStack.Text/StringExtensions.cs:1134-1161 | For paths with a directory, the intended version and the code as written agree. |
| StringParts.LeftPart | src/ServiceStack.Text/StringExtensions.cs:380-387 | The result is null exactly when the input is null. |
| StringParts.RightPart | src/ServiceStack.Text/StringExtensions.cs:398-405 | The result is null exactly when the input is null. |
| StringParts.LastLeftPart | src/ServiceStack.Text/StringExtensions.cs:416-422 | A null input gives `""`. |
| StringParts.LastRightPart | src/ServiceStack.Text/StringExtensions.cs:432-438 | A null input gives `""`. |
| StringParts.SplitOnFirst | src/ServiceStack.Text/StringExtensions.cs:448-455 | A null input gives no parts, any other at most two. |
| StringParts.SplitOnLast | src/ServiceStack.Text/StringExtensions.cs:466-473 | A null input gives no parts, any other at most two. |
| StringParts.SplitOnFirstParts | src/ServiceStack.Text/StringExtensions.cs:448-455 | Two parts rebuild the text around the needle, and the first holds no needle. One part, the whole text, exactly when the needle is absent. |
| StringParts.SplitOnLastParts | src/ServiceStack.Text/StringExtensions.cs:466-473 | Two parts rebuild the text around the needle, and the second holds no needle. One part, the whole text, exactly when the needle is absent. |
| StringParts.LeftRightPartSplitOnFirst | src/ServiceStack.Text/StringExtensions.cs:380-405 | LeftPart and RightPart are the first and last parts of SplitOnFirst. |
| StringParts.LastLeftRightPartSplitOnLast | src/ServiceStack.Text/StringExtensions.cs:416-438 | LastLeftPart and LastRightPart are the first and last parts of SplitOnLast. |
| StringParts.LeftPartString | src/ServiceStack.Text/StringExtensions.cs:389-396 | The result is null exactly when the input is null. |
| StringParts.RightPartString | src/ServiceStack.Text/StringExtensions.cs:407-414 | The result is null exactly when the input is null. |
| StringParts.LastLeftPartString | src/ServiceStack.Text/StringExtensions.cs:424-430 | A null input gives `""`. An empty needle matches at the last character, so the result is the text without its last character. |
| StringParts.LastRightPartString | src/ServiceStack.Text/StringExtensions.cs:440-446 | A null input gives `""`. An empty needle matches at the last character, so the result is that last character. |
| StringParts.SplitOnFirstString | src/ServiceStack.Text/StringExtensions.cs:457-464 | A null input gives no parts, any other at most two. |
| StringParts.SplitOnLastString | src/ServiceStack.Text/StringExtensions.cs:475-482 | A null input gives no parts, any other at most two. |
| StringParts.SplitOnFirstStringParts | src/ServiceStack.Text/StringExtensions.cs:457-464 | It cuts at the first case-blind match: the parts rebuild the text around the matched text and nothing matches before the cut. One part exactly when nothing matches. |
| StringParts.SplitOnLastStringParts | src/ServiceStack.Text/StringExtensions.cs:475-482 | It cuts at the last case-blind match: the parts rebuild the text around it and no match of a non-empty needle starts after the cut. An empty needle cuts before the last character (at 0 in `""`). One part exactly when nothing matches. |
| StringParts.SplitOnLastEmptyNeedleExample | src/ServiceStack.Text/StringExtensions.cs:475-482 | An empty needle splits `"abc"` into `"ab"` and `"c"`; LastLeftPart gives `"ab"` and LastRightPart `"c"`. |
| StringParts.PartStringsSplit | src/ServiceStack.Text/StringExtensions.cs:389-446 | The four string-needle part functions are the first and last parts of the matching split. |
| StringParts.SplitOnFirstStringExample | src/ServiceStack.Text/StringExtensions.cs:457-464 | `"xAby"` split on `"ab"` gives `["x", "y"]`. |
| StringExtensions.SafeSubstring | src/ServiceStack.Text/StringExtensions.cs:795-803 | The only exception is ArgumentOutOfRange. |
| StringExtensions.SafeSubstringIntended | src/ServiceStack.Text/StringExtensions.cs:795-803 | The only exception is ArgumentOutOfRange. |
| StringExtensions.SafeSubstringIntendedClamps | src/ServiceStack.Text/StringExtensions.cs:795-803 | Without wrap-around, a non-negative length gives the part of `[start, start + length)` inside the value, and never throws. |
| StringExtensions.SafeSubstringNoOverflow | src/ServiceStack.Text/StringExtensions.cs:795-803 | Where `start + length` fits in 32 bits, the code as written equals the intended version. |
| StringExtensions.SafeSubstringOverflow | src/ServiceStack.Text/StringExtensions.cs:799-800 | `SafeSubstring("abc", 1, int.MaxValue)` throws where `"bc"` is meant. |
| StringExtensions.SafeSubstringFrom | src/ServiceStack.Text/StringExtensions.cs:790-793 | A null value throws NullReference; the only other failure is ArgumentOutOfRange. |
| StringExtensions.SafeSubstringFromSuffix | src/ServiceStack.Text/StringExtensions.cs:790-793 | Without overflow, the result is the suffix from the clamped start. |
| StringExtensions.Quoted | src/ServiceStack.Text/StringExtensions.cs:673-678 | Null stays null. A text holding a `"` is returned unchanged; any other text is wrapped in `"`. |
| StringExtensions.StripQuotes | src/ServiceStack.Text/StringExtensions.cs:680-687 | Null stays null. Otherwise the text is unchanged or loses exactly one enclosing pair of `"`. |
| StringExtensions.StripQuotesQuoted | src/ServiceStack.Text/StringExtensions.cs:673-687 | For a text without `"`, StripQuotes undoes Quoted. |
| StringExtensions.QuotedIdempotent | src/ServiceStack.Text/StringExtensions.cs:673-678 | Quoting twice is quoting once. |
| StringExtensions.TrimPrefixesFrom | src/ServiceStack.Text/StringExtensions.cs:1169-1175 | The result is a suffix of the text. |
| StringExtensions.TrimPrefixes | src/ServiceStack.Text/StringExtensions.cs:1164-1176 | The result is never longer than the text. |
| StringExtensions.TrimPrefixesFromFirst | src/ServiceStack.Text/StringExtensions.cs:1169-1175 | Only the first matching prefix is cut, and only once. |
| StringExtensions.TrimPrefixesFromNone | src/ServiceStack.Text/StringExtensions.cs:1169-1175 | With no prefix matching, the text comes back whole. |
| StringExtensions.TrimPrefixesMeaning | src/ServiceStack.Text/StringExtensions.cs:1164-1176 | TrimPrefixes cuts the first matching prefix, or returns the text when none matches. |
| StringExtensions.IndexOfAny | src/ServiceStack.Text/StringExtensions.cs:621-635 | The `foreach` over the needles returns `IndexOfAnySpec`, including the exception for a start outside the text. |
| StringExtensions.IndexOfAnyFoldFirst | src/ServiceStack.Text/StringExtensions.cs:626-633 | The loop keeps the smallest index found so far, over the needles seen so far. |
| StringExtensions.IndexOfAnyFirst | src/ServiceStack.Text/StringExtensions.cs:621-635 | The result is the first index at or after the start where any needle occurs, or -1. |
| StringExtensions.ExtractContents | src/ServiceStack.Text/StringExtensions.cs:642-664 | It throws, with ArgumentNull, exactly when a marker argument is empty. |
| StringExtensions.ExtractContentsAfter | src/ServiceStack.Text/StringExtensions.cs:637-640 | It throws exactly when `startAfter` or `endAt` is empty. |
| StringExtensions.ExtractContentsShape | src/ServiceStack.Text/StringExtensions.cs:642-664 | The result sits right after an occurrence of `startAfter`, is followed by `endAt` or the end, and contains no start of `endAt`. |
| StringExtensions.ExtractContentsNull | src/ServiceStack.Text/StringExtensions.cs:651-657 | With non-empty marker arguments, the result is null exactly when the text is empty, has no `uniqueMarker`, or has no `startAfter` at or after the first marker. |
| StringExtensions.ExtractContentsFound | src/ServiceStack.Text/StringExtensions.cs:653-663 | With `m` the first `uniqueMarker`, `s` the first `startAfter` at or after `m`, and `e` the first `endAt` after that `startAfter` (or the end of the text when there is none), the result is the text from the end of that `startAfter` up to `e`. |
| StringExtensions.ExtractContentsMarkerExample | src/ServiceStack.Text/StringExtensions.cs:653-663 | Only a `startAfter` after the marker counts: `"SaE,MSbE"` with `"M"`, `"S"`, `"E"` gives `"b"`, not `"a"`. |
| StringExtensions.ExtractContentsExample | src/ServiceStack.Text/StringExtensions.cs:637-640 | `"<b>x</b>"` between `"<b>"` and `"</b>"` is `"x"`. |
| StringPaths.WithTrailingSlash | src/ServiceStack.Text/StringExtensions.cs:249-256 | The result ends in `/`. |
| StringPaths.WithTrailingSlashMeaning | src/ServiceStack.Text/StringExtensions.cs:249-256 | The path is unchanged exactly when it already ends in `/`; otherwise one `/` is appended. |
| StringPaths.WithTrailingSlashIdempotent | src/ServiceStack.Text/StringExtensions.cs:249-256 | Applying it twice is applying it once. |
| StringPaths.Segment | src/ServiceStack.Text/StringExtensions.cs:298 | A component is missing (throws) exactly when escaping is off and it is null. |
| StringPaths.Segments | src/ServiceStack.Text/StringExtensions.cs:295-299 | Every component gets its own segment, in order. |
| StringPaths.AppendSegmentsStep | src/ServiceStack.Text/StringExtensions.cs:297-298 | One iteration: a null segment throws NullReference; any other is appended after the trailing slash. |
| StringPaths.AppendPaths | src/ServiceStack.Text/StringExtensions.cs:287-301 | The builder seeded with the base returns `AppendPathsSpec`. |
| StringPaths.AppendComponents | src/ServiceStack.Text/StringExtensions.cs:295-299 | The `foreach` loop returns the components appended one by one. |
| StringPaths.AppendPathsEscaped | src/ServiceStack.Text/StringExtensions.cs:275-278 | The `params` overload is AppendPaths with escaping on. |
| StringPaths.AppendPath | src/ServiceStack.Text/StringExtensions.cs:264-267 | A null component throws. Otherwise the result is the base with a trailing slash, then the component without leading `/`. |
| StringPaths.AppendSegmentsJoins | src/ServiceStack.Text/StringExtensions.cs:295-299 | With slash-free segments the result keeps the builder as a prefix and has no two adjacent `/` after it. |
| StringPaths.AppendPathsEscapedJoins | src/ServiceStack.Text/StringExtensions.cs:275-301 | With escaping, AppendPaths never throws, keeps the base with its slash as a prefix, and joins with single `/`. |
| StringPaths.AppendSegmentsThrows | src/ServiceStack.Text/StringExtensions.cs:295-299 | The loop throws, with NullReference, exactly when some segment is null. |
| StringPaths.AppendPathsUnescapedThrows | src/ServiceStack.Text/StringExtensions.cs:287-301 | Without escaping, AppendPaths throws exactly when a component is null. |
| StringPaths.AppendPathsExample | src/ServiceStack.Text/StringExtensions.cs:287-301 | `["a", "", "b"]` on a null base gives `"/a/b"`. |
| StringPaths.WithoutExtension | src/ServiceStack.Text/StringExtensions.cs:484-494 | Null exactly for a null or empty path. |
| StringPaths.GetExtension | src/ServiceStack.Text/StringExtensions.cs:496-503 | Null exactly for a null or empty path. |
| StringPaths.GetExtensionShape | src/ServiceStack.Text/StringExtensions.cs:496-503 | The extension is `""` exactly when there is no `.`, and otherwise a `.` followed by no other `.`. |
| StringPaths.ExtensionSplits | src/ServiceStack.Text/StringExtensions.cs:484-503 | When the extension holds no separator, WithoutExtension and the extension rebuild the path. When it does, WithoutExtension keeps the whole path. |
| StringPaths.ExtensionInDirectoryExample | src/ServiceStack.Text/StringExtensions.cs:484-503 | `"a.b/c"` has extension `".b/c"` and keeps its name; `"d/a.txt"` splits into `"d/a"` and `".txt"`. |
| StringPaths.ToParentPathParts | src/ServiceStack.Text/StringExtensions.cs:948-955 | Without `/` the parent is `"/"`. Otherwise it is LastLeftPart('/'), and the parent, a `/` and the slash-free last segment rebuild the path. |
| StringPaths.ToParentPath | src/ServiceStack.Text/StringExtensions.cs:948-955 | Without `/` the parent is `"/"`; otherwise it is the prefix before a `/` after which no `/` follows. |
| StringRewriting.ReplaceFirstMeaning | src/ServiceStack.Text/StringExtensions.cs:901-907 | Without an occurrence the text is unchanged; otherwise only the first occurrence becomes the replacement. |
| StringRewriting.ReplaceFirst | src/ServiceStack.Text/StringExtensions.cs:901-907 | Without an occurrence of the needle the text is unchanged; otherwise the length changes by exactly the replacement's length minus the needle's. |
| StringRewriting.ReplaceAll | src/ServiceStack.Text/StringExtensions.cs:909-921 | Within the fuel it returns `ReplaceAllSpec`. Unless needle equals replacement, the result holds the needle only at index 0 or nowhere. |
| StringRewriting.RewriteWhileLater | src/ServiceStack.Text/StringExtensions.cs:914-919 | The `while` loop stops exactly when the needle is absent or at index 0. |
| StringRewriting.RewriteFirst | src/ServiceStack.Text/StringExtensions.cs:914-918 | One turn of the loop body is one rewrite followed by the next search. |
| StringRewriting.ReplaceAllLoopStep | src/ServiceStack.Text/StringExtensions.cs:914-919 | A first occurrence after index 0 is replaced, and the loop goes on. |
| StringRewriting.ReplaceAllLoopShrinks | src/ServiceStack.Text/StringExtensions.cs:914-919 | A replacement shorter than the needle makes the loop stop within `|haystack|` rewrites. |
| StringRewriting.ReplaceAllIndexZeroExample | src/ServiceStack.Text/StringExtensions.cs:914 | A match at index 0 stops every replacement: `"ab_ab"` is returned unchanged. |
| StringRewriting.ReplaceAllDiverges | src/ServiceStack.Text/StringExtensions.cs:914-919 | `"xa"` with `"a"` replaced by `"aa"` never terminates. |
| StringRewriting.RemoveCharFlags | src/ServiceStack.Text/StringExtensions.cs:957-972 | Null stays null. Otherwise the result is the unflagged characters, in order. |
| StringRewriting.Unflagged | src/ServiceStack.Text/StringExtensions.cs:964-969 | The kept characters are never more than the input. |
| StringRewriting.UnflaggedCounts | src/ServiceStack.Text/StringExtensions.cs:964-971 | Each unflagged character is kept as often as it occurs, and each flagged one is dropped. |
| StringRewriting.UnflaggedNone | src/ServiceStack.Text/StringExtensions.cs:957-972 | With no flag set on any character, the text comes back unchanged. |
| StringRewriting.CountOccurrencesOf | src/ServiceStack.Text/StringExtensions.cs:1214-1225 | The backward loop counts exactly the needle's multiplicity in the text. |
| StringRewriting.LeadingRun | src/ServiceStack.Text/StringExtensions.cs:716-729 | The run of lowerable capitals ends at the first position that ends it. |
| StringRewriting.LeadingRunAll | src/ServiceStack.Text/StringExtensions.cs:716-729 | Every position inside the run is lowered. |
| StringRewriting.CamelCase | src/ServiceStack.Text/StringExtensions.cs:708-732 | Camel-casing keeps the length. |
| StringRewriting.ToCamelCase | src/ServiceStack.Text/StringExtensions.cs:708-732 | The loop over the `char[]` returns null or `""` unchanged and otherwise `CamelCase`. |
| StringRewriting.CamelCaseFirst | src/ServiceStack.Text/StringExtensions.cs:716-729 | A leading capital is always lowered, and everything after the run is kept. |
| StringRewriting.CamelCaseIdempotent | src/ServiceStack.Text/StringExtensions.cs:708-732 | Camel-casing twice is camel-casing once. |
| StringRewriting.CamelCaseExample | src/ServiceStack.Text/StringExtensions.cs:708-732 | `"HTMLParser"` gives `"htmlParser"`; `"ABC"` and `"Abc"` give `"abc"`. |
| StringRewriting.EncodeXmlEscapes | src/ServiceStack.Text/StringExtensions.cs:90-93 | The corrected EncodeXml replaces every character by its own entity. |
| StringRewriting.EncodeXmlIntended | src/ServiceStack.Text/StringExtensions.cs:90-93 | The corrected order replaces each character by its own entity, leaving no `<` or `>`. |
| StringRewriting.EncodeXmlAsWritten | src/ServiceStack.Text/StringExtensions.cs:90-93 | As written it still escapes each character on its own when the text has no `<` and `>`. |
| StringRewriting.XmlEscapeNoBrackets | src/ServiceStack.Text/StringExtensions.cs:90-93 | The escaped text holds no `<` or `>`. |
| StringRewriting.EncodeXmlAsWrittenDoubleEscapes | src/ServiceStack.Text/StringExtensions.cs:92 | As written, `"<"` becomes `"&amp;lt;"`; the corrected order gives `"&lt;"`. |
| StringRewriting.EncodeXmlAsWrittenAgrees | src/ServiceStack.Text/StringExtensions.cs:92 | On text without `<` and `>` the order does not matter. |
| StringRewriting.EncodeJsonEscapes | src/ServiceStack.Text/StringExtensions.cs:95-102 | EncodeJson escapes each character on its own and wraps the result in `"`. |
| StringRewriting.EncodeJson | src/ServiceStack.Text/StringExtensions.cs:95-102 | The result is the per-character escape in double quotes, and it holds no CR or LF. |
| StringRewriting.JsonEscapeChain | src/ServiceStack.Text/StringExtensions.cs:97-101 | The chain of four Replace calls equals escaping per character. |
| StringRewriting.JsonEscapeNoLineBreaks | src/ServiceStack.Text/StringExtensions.cs:97-101 | The encoded body holds no CR or LF. |
| UrlEncoding.ParseHex2Hex2 | src/ServiceStack.Text/StringExtensions.cs:153 | Parsing the two-digit hex form of a byte gives the byte back. |
| UrlEncoding.EncodeByte | src/ServiceStack.Text/StringExtensions.cs:145-153 | One character for a kept byte or a space, three for any other byte. |
| UrlEncoding.UrlEncode | src/ServiceStack.Text/StringExtensions.cs:136-156 | The loop over UTF-8 bytes returns `UrlEncodeSpec`. |
| UrlEncoding.EncodeBytesAlphabet | src/ServiceStack.Text/StringExtensions.cs:143-154 | Only A-Z a-z 0-9 `,` `-` `.` `+` `%` are emitted, one to three characters per byte. |
| UrlEncoding.UrlEncodeAlphabet | src/ServiceStack.Text/StringExtensions.cs:136-156 | UrlEncode emits only that alphabet, between one and three characters per UTF-8 byte. |
| UrlEncoding.UrlDecode | src/ServiceStack.Text/StringExtensions.cs:158-186 | The loop returns `UrlDecodeSpec`, including ArgumentOutOfRange for a truncated `%` and format errors. |
| UrlEncoding.DecodeEncodeBytes | src/ServiceStack.Text/StringExtensions.cs:136-186 | Decoding the encoding of any bytes gives the bytes back. |
| UrlEncoding.UrlDecodeEncode | src/ServiceStack.Text/StringExtensions.cs:136-186 | UrlDecode of UrlEncode of a non-empty string gives its UTF-8 bytes. |
| UrlEncoding.UrlEmptyAsymmetry | src/ServiceStack.Text/StringExtensions.cs:136-160 | `""` encodes to `""` but decodes to null. |
| UrlEncoding.UrlDecodeErrors | src/ServiceStack.Text/StringExtensions.cs:172-177 | `"a%4"` throws ArgumentOutOfRange, `"%zz"` a format error and `"%-1"` an argument error. |
| UrlEncoding.HexEscape | src/ServiceStack.Text/StringExtensions.cs:1233-1255 | The loop returns `HexEscapeSpec`. |
| UrlEncoding.HexUnescape | src/ServiceStack.Text/StringExtensions.cs:188-212 | The loop returns `HexUnescapeSpec`. |
| UrlEncoding.ToHexTwoDigits | src/ServiceStack.Text/StringExtensions.cs:1247 | A code in [16, 256) is written as two lower-case hex digits that parse back. |
| UrlEncoding.UnescapeEscapeChars | src/ServiceStack.Text/StringExtensions.cs:196-209 | The HexUnescape loop undoes the HexEscape loop (lines 1242-1253) when every escaped code has two digits and no other `%` occurs. |
| UrlEncoding.HexUnescapeEscape | src/ServiceStack.Text/StringExtensions.cs:188-212 | Under that condition, HexUnescape undoes HexEscape (lines 1233-1255) with the same characters. |
| UrlEncoding.HexEscapeShortCode | src/ServiceStack.Text/StringExtensions.cs:1247 | A code below 16 escapes to one digit, which HexUnescape reads together with the next character. |
| BaseConversion.DigitChar | src/ServiceStack.Text/StringExtensions.cs:60 | The digit character of `n` has digit value `n`. |
| BaseConversion.BaseConvert | src/ServiceStack.Text/StringExtensions.cs:58-88 | The two loops return `BaseConvertSpec`, with C#'s truncating `/` and `%` and Int32 wrap-around. |
| BaseConversion.AccumulateExact | src/ServiceStack.Text/StringExtensions.cs:70-77 | A numeral of valid digits that fits in Int32 is read exactly. |
| BaseConversion.AccumulateStrictDigits | src/ServiceStack.Text/StringExtensions.cs:70-77 | In strict reading, success means every character was a digit below `from`. |
| BaseConversion.RenderValue | src/ServiceStack.Text/StringExtensions.cs:81-86 | A positive value is written, without error, as digits below `to` with no leading zero, whose value is the input. |
| BaseConversion.NatDecimalRender | src/ServiceStack.Text/StringExtensions.cs:78-79 | In base 10 the loop writes the decimal form. |
| BaseConversion.RenderLoopStep | src/ServiceStack.Text/StringExtensions.cs:82-86 | One turn of the `while` loop moves one digit from the value to the text. |
| BaseConversion.BaseConvertValue | src/ServiceStack.Text/StringExtensions.cs:58-88 | Converting a valid numeral that fits in Int32, between bases in [2, 62], keeps its sign and value, with no leading zero. |
| BaseConversion.BaseConvertNonDigit | src/ServiceStack.Text/StringExtensions.cs:73-76 | As written, `"1!"` in base 10 reads as 9 and gives `"1001"`; the intended reading refuses it. |
| BaseConversion.BaseConvertIntendedDigits | src/ServiceStack.Text/StringExtensions.cs:73-76 | Under the intended reading, success means the source was a numeral of digits below `from`. |
| HttpUtils.AddQueryParamLast | src/ServiceStack.Text/HttpUtils.cs:28-37 | Null for a null or empty url. Otherwise the url is kept as a prefix and `key=value` ends the result, straight after its last `?` or `&`. |
| HttpUtils.AddQueryParam | src/ServiceStack.Text/HttpUtils.cs:28-37 | Null exactly for a null or empty url; otherwise the result starts with the url and ends with `key=value`. |
| HttpUtils.AddQueryParamMarker | src/ServiceStack.Text/HttpUtils.cs:31-35 | The result has a `?` exactly when the url has one or does not end in `&`. |
| HttpUtils.AddQueryParamAfterAmpersand | src/ServiceStack.Text/HttpUtils.cs:32-36 | `"a&"` gets `"a&k=v"`, with no `?`. |
| HttpUtils.AddHashParamLast | src/ServiceStack.Text/HttpUtils.cs:71-76 | Null for a null or empty url. Otherwise the url is kept as a prefix, one `#` or `/` follows, `key=value` ends the result, and a `#` is present. |
| HttpUtils.AddHashParam | src/ServiceStack.Text/HttpUtils.cs:71-76 | Null exactly for a null or empty url; otherwise the result starts with the url and ends with `key=` and the encoded value. |
| HttpUtils.AddHashParamAfterHash | src/ServiceStack.Text/HttpUtils.cs:71-76 | `"a#"` gets `"a#/k=v"`: an existing `#` is always followed by `/`. |
| HttpUtils.ExistingKeyPos | src/ServiceStack.Text/HttpUtils.cs:45-47 | A found key lies after the marker, with room for it and one more character. |
| HttpUtils.KeyPos | src/ServiceStack.Text/HttpUtils.cs:42-47 | The same holds from the start marker's search. |
| HttpUtils.ParamEnd | src/ServiceStack.Text/HttpUtils.cs:51-53 | The parameter ends after its start, at the next separator or the end. |
| HttpUtils.KeyFound | src/ServiceStack.Text/HttpUtils.cs:45-49 | A found key sits right after the start marker or a separator. |
| HttpUtils.OldValue | src/ServiceStack.Text/HttpUtils.cs:51-53 | For a separator-free key, the old value runs to the next separator and holds none. |
| HttpUtils.SetParamAppends | src/ServiceStack.Text/HttpUtils.cs:62-63 | Without the key, `key=value` is appended after the start marker, or after a separator when the marker is there. |
| HttpUtils.SetQueryParamNoQuery | src/ServiceStack.Text/HttpUtils.cs:62-63 | A url without `?` gets `"?" + key + "=" + UrlEncode(val)`. |
| HttpUtils.SetParamReplaces | src/ServiceStack.Text/HttpUtils.cs:49-59 | A found key keeps everything up to it and from the next separator on; the old value becomes `=` and the encoded value. |
| HttpUtils.SetQueryParamPrefixKey | src/ServiceStack.Text/HttpUtils.cs:45-47 | Keys are found by prefix: setting `a` in `"x?ab=1"` gives `"x?a=v"`. |
| HttpUtils.SetEncodedFound | src/ServiceStack.Text/HttpUtils.cs:51-59 | With the key at `existing`, the result is the url with the value after the key replaced. |
| HttpUtils.IdempotentNewQuery | src/ServiceStack.Text/HttpUtils.cs:39-64 | Idempotence when the url had no start marker. |
| HttpUtils.IdempotentNewParam | src/ServiceStack.Text/HttpUtils.cs:39-64 | Idempotence when the url had a marker but not the key. |
| HttpUtils.IdempotentReplaced | src/ServiceStack.Text/HttpUtils.cs:39-64 | Idempotence when the key was found and rewritten. |
| HttpUtils.SetEncodedIdempotent | src/ServiceStack.Text/HttpUtils.cs:39-64 | Setting the same parameter twice is setting it once. |
| HttpUtils.SetQueryParamIdempotent | src/ServiceStack.Text/HttpUtils.cs:39-64 | SetQueryParam twice, with a non-empty key free of `?` and `&`, is SetQueryParam once. |
| HttpUtils.SetQueryParam | src/ServiceStack.Text/HttpUtils.cs:39-64 | Null exactly for a null or empty url; otherwise `key=` and the encoded value occur in the result right after a `?` or `&`. |
| HttpUtils.SetHashParam | src/ServiceStack.Text/HttpUtils.cs:78-103 | Null exactly for a null or empty url; otherwise `key=` and the encoded value occur in the result right after a `#` or `/`. |
| HttpUtils.SetHashParamIdempotent | src/ServiceStack.Text/HttpUtils.cs:78-103 | SetHashParam twice, with a non-empty key free of `#` and `/`, is SetHashParam once. |
| MimeTypes.TopLevelType | src/ServiceStack.Text/HttpUtils.cs:1121-1216 | The table's top-level type is one of five, and `application` exactly for extensions not listed under image, text, audio or video. |
| MimeTypes.GetExtensionNull | src/ServiceStack.Text/HttpUtils.cs:1094-1100 | A null MIME type throws NullReference. |
| MimeTypes.GetExtension | src/ServiceStack.Text/HttpUtils.cs:1092-1105 | A returned extension starts with `.`; the exceptions are NullReference, exactly for a null type, and NotSupported. |
| MimeTypes.GetExtensionMeaning | src/ServiceStack.Text/HttpUtils.cs:1092-1105 | Apart from ProtoBuf, at most one `/` gives `.` plus the text after it; two or more throw NotSupported. |
| MimeTypes.GetExtensionPair | src/ServiceStack.Text/HttpUtils.cs:1100-1102 | `type/subtype` gives `.subtype`. |
| MimeTypes.GetMimeTypeRejects | src/ServiceStack.Text/HttpUtils.cs:1109-1110 | It throws ArgumentNull exactly for a null or empty name. |
| MimeTypes.GetMimeType | src/ServiceStack.Text/HttpUtils.cs:1107-1217 | It throws exactly for a null or empty name, and then ArgumentNull. |
| MimeTypes.FileExtensionMeaning | src/ServiceStack.Text/HttpUtils.cs:1112-1113 | The extension is the text after the last `.` (the whole name without one) and holds no `.`. |
| MimeTypes.GetMimeTypeLookup | src/ServiceStack.Text/HttpUtils.cs:1107-1217 | An ExtensionMimeTypes entry for the extension wins; otherwise the built-in table decides. |
| MimeTypes.GetMimeTypeOverride | src/ServiceStack.Text/HttpUtils.cs:1115-1119 | Registering a type for an extension makes GetMimeType return it. |
| MimeTypes.GetMimeTypeExtensionOnly | src/ServiceStack.Text/HttpUtils.cs:1112-1113 | A name and its non-empty extension give the same type. |
| MimeTypes.GetMimeTypeUnknown | src/ServiceStack.Text/HttpUtils.cs:1214-1215 | An unknown extension without an entry gives `application/<ext>`. |
| MimeTypes.BuiltInRoundTrip | src/ServiceStack.Text/HttpUtils.cs:1092-1217 | For an extension without `/` and without a fixed type, GetExtension reads `.<ext>` back from its MIME type. |
| MimeTypes.JpgExample | src/ServiceStack.Text/HttpUtils.cs:1092-1217 | `"photo.jpg"` is `image/jpeg`, which reads back as `".jpeg"`, not `".jpg"`. |
| HttpMethods.HasVerbNull | src/ServiceStack.Text/HttpUtils.cs:1389-1396 | A null verb throws NullReference. |
| HttpMethods.HasVerb | src/ServiceStack.Text/HttpUtils.cs:1389-1396 | It throws exactly for a null verb, and then NullReference. |
| HttpMethods.UpperStrIdempotent | src/ServiceStack.Text/HttpUtils.cs:1395 | Upper-casing leaves no lower-case letter, so doing it twice is doing it once. |
| HttpMethods.HasVerbIgnoresCase | src/ServiceStack.Text/HttpUtils.cs:1389-1396 | A verb, its upper-case and its lower-case form are all accepted or all refused. |
| HttpMethods.AllVerbsUpper | src/ServiceStack.Text/HttpUtils.cs:1374-1396 | Every listed verb is upper case and is accepted as written. |
| HttpMethods.ConstantsAccepted | src/ServiceStack.Text/HttpUtils.cs:1374-1404 | The named verbs Get through Patch are accepted in upper and lower case. |
| CompressionTypes.IsValidListed | src/ServiceStack.Text/HttpUtils.cs:1409-1418 | Valid names are exactly AllCompressionTypes, and Default is valid. |
| CompressionTypes.AssertIsValidMeaning | src/ServiceStack.Text/HttpUtils.cs:1420-1427 | AssertIsValid returns exactly for valid names and otherwise throws NotSupported. |
| CompressionTypes.AssertIsValid | src/ServiceStack.Text/HttpUtils.cs:1420-1427 | It returns exactly for valid names and otherwise throws NotSupported. |
| CompressionTypes.GetExtension | src/ServiceStack.Text/HttpUtils.cs:1429-1440 | It succeeds exactly on valid names, with `.` plus the name; otherwise it throws NotSupported. |
| CompressionTypes.GetExtensionAgrees | src/ServiceStack.Text/HttpUtils.cs:1429-1440 | GetExtension succeeds on exactly the valid names, with `.` plus the name; otherwise it throws NotSupported. |
| CompressionTypes.GetExtensionInjective | src/ServiceStack.Text/HttpUtils.cs:1429-1440 | Different valid names have different extensions. |
| HttpStatus.GetStatusDescriptionRegistered | src/ServiceStack.Text/HttpUtils.cs:1445-1529 | The jagged-table lookup agrees, code by code, with a flat list of assigned codes and phrases; every other code gives `""`. |
| HttpStatus.GetStatusDescription | src/ServiceStack.Text/HttpUtils.cs:1445-1529 | A non-empty phrase is returned only for codes in [100, 600). |
| HttpStatus.DescribedExactlyWhenRegistered | src/ServiceStack.Text/HttpUtils.cs:1445-1529 | A description is non-empty exactly for listed codes, all of which lie in [100, 600). |
| HttpStatus.Examples | src/ServiceStack.Text/HttpUtils.cs:1445-1457 | 404 is "Not Found"; 306, 600 and 99 are `""`. |
| PathUtils.StringBuilder.Append | src/ServiceStack.Text/PathUtils.cs:122-124 | The text goes at the end of the builder. |
| PathUtils.StringBuilder.Replace | src/ServiceStack.Text/PathUtils.cs:125 | Only the given range is rewritten. |
| PathUtils.AppendSegment | src/ServiceStack.Text/PathUtils.cs:119-125 | One iteration adds exactly that segment's text. |
| PathUtils.AppendNormalized | src/ServiceStack.Text/PathUtils.cs:123-125 | The appended text gets `\` replaced by `/`; earlier content is untouched. |
| PathUtils.AppendPaths | src/ServiceStack.Text/PathUtils.cs:115-127 | The builder keeps its content and gains the joined segments, in order. |
| PathUtils.CombinePaths | src/ServiceStack.Text/PathUtils.cs:105-112 | Returns `CombinePathsSpec`. |
| PathUtils.CombineWith | src/ServiceStack.Text/PathUtils.cs:96-102 | Returns `CombineWithSpec`. |
| PathUtils.PathSegmentMeaning | src/ServiceStack.Text/PathUtils.cs:117-125 | A null or empty segment adds nothing. Any other adds exactly one leading `/`, its own or a new one, then itself with `\` turned into `/`. |
| PathUtils.JoinedConcat | src/ServiceStack.Text/PathUtils.cs:115-127 | Segments are appended independently: joining `p + q` is joining `p` then `q`. |
| PathUtils.JoinedNoBackslash | src/ServiceStack.Text/PathUtils.cs:124-125 | No `\` is left in the joined segments. |
| PathUtils.JoinedEmpty | src/ServiceStack.Text/PathUtils.cs:119-120 | The join is empty exactly when every segment is null or empty. |
| PathUtils.JoinedStartsWithSlash | src/ServiceStack.Text/PathUtils.cs:121-122 | A non-empty join starts with `/`. |
| PathUtils.CombinePathsShape | src/ServiceStack.Text/PathUtils.cs:105-112 | No segments give `"/"`; only null or empty ones give `""`; otherwise the result starts with `/`; never a `\`. |
| PathUtils.CombinePathsExample | src/ServiceStack.Text/PathUtils.cs:105-127 | Slashes are not collapsed: `["a/", "b"]` gives `"/a//b"`. |
| PathUtils.CombineWithShape | src/ServiceStack.Text/PathUtils.cs:96-102 | An empty base gives CombinePaths. Otherwise the base with `\` turned into `/` and trailing `/` trimmed is followed by the segments; no `\` anywhere. |
| AssemblyTypeDefinitions.CreateRejectsEmpty | src/ServiceStack.Text/Support/AssemblyTypeDefinition.cs:13-14 | It throws, with ArgumentException, exactly for a null or empty definition. |
| AssemblyTypeDefinitions.Create | src/ServiceStack.Text/Support/AssemblyTypeDefinition.cs:11-19 | It throws exactly for a null or empty definition, and then ArgumentException; AssemblyName is null exactly when there is no `,`. |
| AssemblyTypeDefinitions.CreateParts | src/ServiceStack.Text/Support/AssemblyTypeDefinition.cs:16-18 | TypeName is the trimmed text before the first `,`. AssemblyName is null exactly without a `,`, and otherwise the trimmed text up to the next `,`. |
| AssemblyTypeDefinitions.CreateIgnoresRest | src/ServiceStack.Text/Support/AssemblyTypeDefinition.cs:16-18 | Parts after the second are ignored. |
| AssemblyTypeDefinitions.CreateTypeAndAssembly | src/ServiceStack.Text/Support/AssemblyTypeDefinition.cs:11-19 | `"T, A"` with trimmed, comma-free names parses back into those names. |
| AssemblyTypeDefinitions.CreateFormat | src/ServiceStack.Text/Support/AssemblyTypeDefinition.cs:11-19 | A definition with trimmed, comma-free names parses back from its written form. |
| AssemblyTypeDefinitions.CreateVersionExample | src/ServiceStack.Text/Support/AssemblyTypeDefinition.cs:16-18 | `"T, A, Version=1"` gives TypeName `"T"` and AssemblyName `"A"`. |
| PclExport.TitleWord | src/ServiceStack.Text/PclExport.cs:104-106 | Title-casing a word keeps its length. |
| PclExport.TitleWordCases | src/ServiceStack.Text/PclExport.cs:104-107 | A non-empty word becomes its first character upper-cased followed by the rest lower-cased. |
| PclExport.TitleSpanWord | src/ServiceStack.Text/PclExport.cs:100-109 | Rewriting a word in place is title-casing the word cut out. |
| PclExport.ToTitleCase | src/ServiceStack.Text/PclExport.cs:96-111 | The loop over the split words returns `TitleCase`. |
| PclExport.TitleCase | src/ServiceStack.Text/PclExport.cs:96-111 | The result holds no `_` and is shorter than the input by exactly the number of `_`. |
| PclExport.JoinTitleWordsSplit | src/ServiceStack.Text/PclExport.cs:98-110 | Splitting on `_`, title-casing each word and joining with `""` is TitleCase. |
| PclExport.TitleCaseNoUnderscore | src/ServiceStack.Text/PclExport.cs:98-110 | The result holds no `_`. |
| PclExport.TitleCaseLength | src/ServiceStack.Text/PclExport.cs:98-110 | The result is shorter than the input by exactly the number of `_`. |
| PclExport.TitleCaseWordsExample | src/ServiceStack.Text/PclExport.cs:96-111 | `"hI_yo"` gives `"HiYo"`. |
| PclExport.TitleCaseUnderscoresExample | src/ServiceStack.Text/PclExport.cs:102 | Leading, trailing and doubled `_` contribute nothing: `"_a__b_"` gives `"AB"`. |

## Left out

- Case mapping, `Trim` and UTF-8 are library calls. They are given concrete bodies in `text.dfy`: ASCII-only `ToUpper`/`ToLower`, the Unicode white-space set of `char.IsWhiteSpace` for `Trim`/`TrimStart`/`TrimEnd` (`Text.IsWhiteSpace`), and a UTF-8 encoder over Unicode scalar values. Culture-sensitive comparisons (`StartsWith`, `EndsWith`, `IndexOf` with a culture) are modelled as ordinal or ordinal-ignore-case.
- Strings are sequences of Unicode scalar values, not UTF-16 code units: lone surrogates cannot occur, and a non-BMP character counts as one element.
- The directory regex of `GlobPath` is a hand-written matcher (`GlobPaths.DirSeg`, `GlobPaths.DirRegexMatch`), not the .NET regex engine.
- StringRewriting.ReplaceAll: takes a `fuel` bound on the number of rewrites, because the loop does not terminate for some inputs (`StringRewriting.ReplaceAllDiverges`); `None` means the fuel ran out.
- BaseConversion.BaseConvert: requires `to != 1`, because with `to == 1` and a positive accumulated value the `while` loop never terminates. The requires also excludes the `to == 1` inputs that do return: when the accumulated value is negative (a character outside the digit alphabet reads as -1, or the Int32 accumulation wraps), the loop is skipped and the source returns the sign alone (`minus + ""`). That result is not modelled.
- UrlEncoding.UrlDecode: stops at the decoded bytes; the final `Encoding.UTF8.GetString` of the bytes is not modelled.
- UrlEncoding.HexUnescapeEscape: requires every escaped character to have a code in [16, 256) and no other `%`, because otherwise the round trip fails (`UrlEncoding.HexEscapeShortCode`).
- A null needle is not modelled for the string-needle overloads `StringParts.LeftPartString`, `StringParts.RightPartString`, `StringParts.LastLeftPartString`, `StringParts.LastRightPartString`, `StringParts.SplitOnFirstString` and `StringParts.SplitOnLastString`: the needle is a plain `string`, so the ArgumentNullException that `IndexOf`/`LastIndexOf` raises for a null needle on a non-null text is outside the model.
- A null receiver is not modelled for the extension methods that dereference it without a test: `Glob.Glob` and `Glob.Matches` (a null value or pattern), `BaseConversion.BaseConvert`, `StringRewriting.EncodeXmlIntended`, `StringRewriting.EncodeXmlAsWritten`, `StringRewriting.EncodeJson`, `StringPaths.ToParentPath`, `StringRewriting.CountOccurrencesOf`, `StringRewriting.ReplaceFirst`, `StringRewriting.ReplaceAll` and `PclExport.ToTitleCase` take a plain `string`, so the NullReferenceException (or, for a null needle, the ArgumentNullException) they would raise is outside the model. The same holds for a null `charFlags` array in `StringRewriting.RemoveCharFlags`, which is a plain `seq<bool>`.
- The `key` and `val` arguments of the query and hash editors, and the elements of `params` arrays other than path segments, are taken to be non-null. The `params` arrays themselves are taken to be non-null too: `StringExtensions.IndexOfAny`, `StringExtensions.TrimPrefixes`, `PathUtils.CombinePaths` and `PathUtils.CombineWith` take a plain `seq`, so the NullReferenceException a null array raises (in the `foreach` of `IndexOfAny` on a non-null text, in the `foreach` of `TrimPrefixes` on a non-empty text, at `paths.Length` in `CombinePaths`, and through it in `CombineWith`) is outside the model.
- `MimeTypes.GetMimeType`: the `switch` on the extension is written as the `FixedTypes` map plus `TopLevelType`, giving the same value for every case. The static `ExtensionMimeTypes` dictionary is passed in as a parameter.
- `HttpStatus.GetStatusDescription`: only codes in [100, 600) reach the table, so C#'s truncating `/` and `%` agree with Dafny's there.
- `HttpMethods.HasVerb`: the `NETFX_CORE` branch (a linear search of `allVerbs`) has the same result as the set lookup that is modelled.
- `PathUtils.StringBuilder` models only `Append` and the ranged `Replace(char, char, int, int)` of `System.Text.StringBuilder`.
- The HTTP transport in `HttpUtils.cs` (requests, responses, uploads, status helpers), the serializer façades, the regex-based helpers, number parsing, Base64, `ToRot13`, and the platform and reflection parts of `PclExport.cs` are not modelled: they are network, file-system, reflection or serializer code.
- JsonSerializer.cs, XmlSerializer.cs, StringBuilderCache.cs, Tracer.cs and PclExport.Sl5.cs are not part of this model.

## Findings

| source | as written | input that shows it | evidently intended | confidence | as-written member | corrected member |
|---|---|---|---|---|---|---|
| src/ServiceStack.Text/StringExtensions.cs:799-800 | `value.Length >= startIndex + length` is computed in Int32, so a large `length` wraps around and `Substring` throws | `SafeSubstring("abc", 1, int.MaxValue)` | the part of the range inside the value, `"bc"` | high, not executed | StringExtensions.SafeSubstringOverflow | StringExtensions.SafeSubstringIntendedClamps |
| src/ServiceStack.Text/StringExtensions.cs:92 | `&` is replaced after `<` and `>`, so the entities just inserted are escaped again | `EncodeXml("<")` gives `"&amp;lt;"` | `"&lt;"` | high, not executed | StringRewriting.EncodeXmlAsWrittenDoubleEscapes | StringRewriting.EncodeXmlIntended |
| src/ServiceStack.Text/StringExtensions.cs:73-76 | a character outside the digit alphabet reads as -1 and is accepted | `BaseConvert("1!", 10, 2)` gives `"1001"` | an exception, as the message for invalid digits says | medium, not executed | BaseConversion.BaseConvertNonDigit | BaseConversion.BaseConvertIntendedDigits |
| src/ServiceStack.Text/StringExtensions.cs:1129-1132 | a path without a directory is globbed against the raw pattern, so a leading `/` on the pattern is not stripped there | `GlobPath("a.txt", "/*.txt")` is false while `GlobPath("a.txt", "*.txt")` is true | the sanitised pattern in every branch | medium, not executed | GlobPaths.GlobPathLeadingSlashMismatch | GlobPaths.GlobPathIntendedLeadingSeparator |

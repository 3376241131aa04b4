# lmstudio-bin package maintenance: the string core

`pkgbuilds/shared/lmstudio-bin/update_package.py` keeps the `lmstudio-bin`
package recipe (PKGBUILD) up to date. It resolves the upstream download link,
reads the version from the AppImage file name, hashes the AppImage and the
icon, and renders the PKGBUILD from a template. This project models the
script's pure string handling in Dafny and proves properties of it:

- **File name from the URL** (`main`, line 166): `final_url.split("/")[-1]`.
  `UrlPath` models Python's `str.split` on one separator together with its
  inverse `join`. It characterises the last piece without reference to the
  split: the suffix after the last `/`, or the whole URL.
- **Version extraction** (`extract_version`, lines 40-49).
  - `Version` models `re.search(r'LM-Studio-([\d.]+)-(?:\d+-)?x64\.AppImage', filename)`
    twice. The first is an executable matcher (`MatchAt`) that reads group 1
    as the longest digit/dot run after `LM-Studio-`. The second is a
    declarative predicate (`MatchesAt`): there is a release part `rel` such
    that `LM-Studio-` + v + `-` + rel + `x64.AppImage` occurs at the index.
  - The two are proved equal. The search reports the leftmost index.
  - Failure is the error `VersionNotFound(filename)`, which stands for the
    `ValueError` naming the file.
- **Template rendering** (`render_template`, lines 119-122).
  - `Replace.ReplaceAll` models Python's `str.replace` with no count: every
    non-overlapping occurrence is replaced, scanning left to right. The empty
    pattern is included.
  - `Template.Render` chains the four replacements in the script's order:
    `{{version}}`, `{{url}}`, `{{sha256}}`, `{{icon_sha256}}`.
  - A second, independent description of rendering views a template as a
    sequence of literal pieces and placeholder slots (`Piece`). Rendering
    the text is proved to be the same as filling the slots. The condition is
    that the literal pieces and the version, url and sha256 values are plain
    text: no `{{` and no trailing `{`. Shell text such as `${pkgdir}`, or
    `package() {` followed by a line break, is plain text.
  - When the icon value is plain as well and every slot is one of the four
    placeholders, in any order and any number, no placeholder is left in the
    output.
- **The run** (`main`, lines 163-189). `Pipeline.PlanUpdate` composes these
  steps. It returns the file name, the version and the rendered PKGBUILD, or
  the extraction error. The resolved URL, the template text and a digest
  function standing for hashing a file are parameters.

The modules are `Results` (option, error and result types), `Text` (substring
positions), `Replace`, `Template`, `Version`, `UrlPath` and `Pipeline`.

The docstring of `extract_version` describes the version as `X.Y.Z`. The
regular expression accepts any non-empty run of digits and dots, such as
`1.2.3.4` or `..`. The model follows the regular expression and promises no
`X.Y.Z` shape (`Version.ExtractFourComponents`).

## Model

| member | source | states |
|---|---|---|
| Replace.ReplaceAllLength | pkgbuilds/shared/lmstudio-bin/update_package.py:119-122 | a replacement at least as long as the token never shortens the text, and one at most as long never lengthens it |
| Replace.ReplaceAllSame | pkgbuilds/shared/lmstudio-bin/update_package.py:119-122 | replacing a token by itself leaves every text unchanged |
| Replace.ReplaceAllAbsent | pkgbuilds/shared/lmstudio-bin/update_package.py:119-122 | a non-empty token that does not occur in the text leaves it unchanged |
| Replace.ReplaceAllChanges | pkgbuilds/shared/lmstudio-bin/update_package.py:119-122 | a token that occurs (the empty one always does) replaced by a different string changes the text |
| Replace.ReplaceAllIdentity | pkgbuilds/shared/lmstudio-bin/update_package.py:119-122 | the text comes back unchanged if and only if the token is replaced by itself or is non-empty and absent |
| Replace.ReplaceAllWhole | pkgbuilds/shared/lmstudio-bin/update_package.py:119-122 | a text that is exactly the token becomes exactly the replacement |
| Replace.ReplaceAllFreePrefix | pkgbuilds/shared/lmstudio-bin/update_package.py:119-122 | a prefix without the token's first character is copied, and the scan resumes right after it |
| Replace.ReplaceAllSplit | pkgbuilds/shared/lmstudio-bin/update_package.py:119-122 | where no occurrence straddles the boundary, replacing in a concatenation is replacing in each part |
| Replace.ReplaceAllAroundIsolated | pkgbuilds/shared/lmstudio-bin/update_package.py:119-122 | a text that cannot overlap the token passes through the replacement untouched wherever it appears |
| Template.TokenNames | pkgbuilds/shared/lmstudio-bin/update_package.py:119-122 | the four placeholder names hold no brace and are pairwise different |
| Template.PlaceholderNotInOther | pkgbuilds/shared/lmstudio-bin/update_package.py:119-122 | no placeholder occurs inside another, so `{{sha256}}` is not a substring of `{{icon_sha256}}` |
| Template.PlaceholdersIsolated | pkgbuilds/shared/lmstudio-bin/update_package.py:119-122 | two different placeholders cannot overlap in any text |
| Template.ShaReplacementKeepsIconToken | pkgbuilds/shared/lmstudio-bin/update_package.py:121-122 | the sha256 step leaves every `{{icon_sha256}}` intact, whatever surrounds it, so the icon hash is still substituted |
| Template.RenderWithoutPlaceholders | pkgbuilds/shared/lmstudio-bin/update_package.py:119-122 | a template holding none of the four tokens renders to itself |
| Template.PlainNoPlaceholder | pkgbuilds/shared/lmstudio-bin/update_package.py:119-122 | text with no `{{` and no trailing `{` holds no placeholder of any name |
| Template.PlainPrefix | pkgbuilds/shared/lmstudio-bin/update_package.py:119-122 | such plain text at the front is copied by the replacement of any placeholder, and the scan goes on right after it |
| Template.ReplaceFillsSlots | pkgbuilds/shared/lmstudio-bin/update_package.py:119-122 | on a template of plain-text literals and slots with brace-free names, one replacement fills exactly the slots with that name |
| Template.RenderFillsPlaceholders | pkgbuilds/shared/lmstudio-bin/update_package.py:119-122 | rendering such a template equals filling its four kinds of slots, when the version, url and sha256 values are plain text |
| Template.RenderLiteralPrefix | pkgbuilds/shared/lmstudio-bin/update_package.py:119-122 | plain text at the front, braces of shell syntax included, passes through all four steps |
| Template.RenderShellText | pkgbuilds/shared/lmstudio-bin/update_package.py:119-122 | a shell function body `package() {`, line break, `cd "${srcdir}"`, `}` is kept as it is by rendering |
| Template.FlattenPlain | pkgbuilds/shared/lmstudio-bin/update_package.py:119-122 | a template made only of plain literals is plain text |
| Template.FillAllPlain | pkgbuilds/shared/lmstudio-bin/update_package.py:119-122 | filling the four names with plain values turns a template whose slots all carry those names into plain literals only |
| Template.RenderLeavesNoPlaceholder | pkgbuilds/shared/lmstudio-bin/update_package.py:119-122 | such a template, with its four placeholders in any order and number, renders with plain values to text holding no placeholder of any name |
| Template.ReplaceAllOtherToken | pkgbuilds/shared/lmstudio-bin/update_package.py:119-122 | a placeholder at the front is skipped by the replacement of a different placeholder |
| Template.ReplaceAllOwnToken | pkgbuilds/shared/lmstudio-bin/update_package.py:119-122 | a placeholder at the front is replaced by its own step |
| Template.RenderVersionPrefix | pkgbuilds/shared/lmstudio-bin/update_package.py:119-122 | a leading `{{version}}` becomes the version and the rest renders on |
| Template.RenderUrlPrefix | pkgbuilds/shared/lmstudio-bin/update_package.py:119-122 | a leading `{{url}}` becomes the url and the rest renders on |
| Template.RenderShaPrefix | pkgbuilds/shared/lmstudio-bin/update_package.py:119-122 | a leading `{{sha256}}` becomes the AppImage hash and the rest renders on |
| Template.RenderIconPrefix | pkgbuilds/shared/lmstudio-bin/update_package.py:119-122 | a leading `{{icon_sha256}}` becomes the icon hash and the rest renders on |
| Template.RenderEachOnce | pkgbuilds/shared/lmstudio-bin/update_package.py:119-122 | a template with each placeholder once, in order, and plain text between them renders to the four values in place with that text kept |
| Template.RenderUrlThenSha | pkgbuilds/shared/lmstudio-bin/update_package.py:119-122 | the order matters: a url spelling `{{sha256}}` is rewritten by the later sha256 step |
| Template.RenderShaAfterUrl | pkgbuilds/shared/lmstudio-bin/update_package.py:119-122 | a sha256 value spelling `{{url}}` is left as it is, because the url step has already run |
| Version.SpanRun | pkgbuilds/shared/lmstudio-bin/update_package.py:46 | the run read for `[\d.]+` or `\d+` consists of class characters and stops at the end or at a character outside the class |
| Version.SpanUnique | pkgbuilds/shared/lmstudio-bin/update_package.py:46 | a class run that cannot be extended is the run the matcher reads |
| Version.TailAtSound | pkgbuilds/shared/lmstudio-bin/update_package.py:46 | what the tail check accepts is an optional `digits-` release part followed by `x64.AppImage` |
| Version.TailAtComplete | pkgbuilds/shared/lmstudio-bin/update_package.py:46 | every optional release part followed by `x64.AppImage` is accepted by the tail check |
| Version.MatchAtSound | pkgbuilds/shared/lmstudio-bin/update_package.py:46 | whatever the matcher reports at an index is a match of the pattern with that group 1 |
| Version.MatchAtComplete | pkgbuilds/shared/lmstudio-bin/update_package.py:46 | every match of the pattern at an index is found by the matcher, with the same group 1 |
| Version.MatchUniqueAtIndex | pkgbuilds/shared/lmstudio-bin/update_package.py:46 | backtracking adds no ambiguity: at most one group 1 matches at an index |
| Version.MatchedVersionIsMaximalRun | pkgbuilds/shared/lmstudio-bin/update_package.py:46 | group 1 of any match is the longest digit/dot run right after `LM-Studio-` |
| Version.FirstMatch | pkgbuilds/shared/lmstudio-bin/update_package.py:46 | the scan of `re.search` stops at the first index holding a match, and no earlier index holds one |
| Version.ExtractVersion | pkgbuilds/shared/lmstudio-bin/update_package.py:40-49 | a returned version is non-empty and made of digits and dots, and a failure is the error naming the file |
| Version.ExtractVersionFound | pkgbuilds/shared/lmstudio-bin/update_package.py:46-48 | a returned version is group 1 of a match with no match at any earlier index |
| Version.LeftmostMatchReported | pkgbuilds/shared/lmstudio-bin/update_package.py:46-48 | group 1 of the leftmost match is what is returned |
| Version.ExtractVersionLeftmost | pkgbuilds/shared/lmstudio-bin/update_package.py:46-48 | extraction returns v if and only if the leftmost match has group 1 equal to v |
| Version.ExtractVersionFailsIffNoMatch | pkgbuilds/shared/lmstudio-bin/update_package.py:47-49 | extraction fails, rather than returning a default, exactly when the pattern matches nowhere |
| Version.ExtractPlainName | pkgbuilds/shared/lmstudio-bin/update_package.py:43-48 | `LM-Studio-V-x64.AppImage` yields exactly V |
| Version.ExtractDropsRelease | pkgbuilds/shared/lmstudio-bin/update_package.py:43-46 | `LM-Studio-V-R-x64.AppImage` with R a digit run yields V and drops R |
| Version.MatchNeedsRoom | pkgbuilds/shared/lmstudio-bin/update_package.py:46 | a match needs the prefix, one version character, a dash and the suffix |
| Version.ExtractShortNameFails | pkgbuilds/shared/lmstudio-bin/update_package.py:47-49 | a name shorter than the shortest match fails with the error naming it |
| Version.ExtractDocumentedName | pkgbuilds/shared/lmstudio-bin/update_package.py:43 | `LM-Studio-0.3.5-x64.AppImage` yields `0.3.5` |
| Version.ExtractDocumentedReleaseName | pkgbuilds/shared/lmstudio-bin/update_package.py:43-44 | `LM-Studio-0.3.5-2-x64.AppImage` yields `0.3.5` |
| Version.ExtractFourComponents | pkgbuilds/shared/lmstudio-bin/update_package.py:46 | the pattern does not insist on three components: `1.2.3.4` is returned whole |
| Version.ExtractUnrelatedName | pkgbuilds/shared/lmstudio-bin/update_package.py:47-49 | a name without the pattern fails with the error naming it |
| UrlPath.SplitParts | pkgbuilds/shared/lmstudio-bin/update_package.py:166 | `split` returns at least one piece and no piece holds the separator, so `[-1]` is always defined |
| UrlPath.JoinSplit | pkgbuilds/shared/lmstudio-bin/update_package.py:166 | joining the pieces with the separator gives back the string |
| UrlPath.SplitJoin | pkgbuilds/shared/lmstudio-bin/update_package.py:166 | splitting a join of separator-free pieces gives back the pieces |
| UrlPath.SplitLast | pkgbuilds/shared/lmstudio-bin/update_package.py:166 | the last piece is a separator-free suffix, and is either the whole string or comes right after a separator |
| UrlPath.LastSegment | pkgbuilds/shared/lmstudio-bin/update_package.py:166 | the file name holds no `/`, is a suffix of the URL, and is the whole URL or follows a `/` |
| UrlPath.LastSegmentIff | pkgbuilds/shared/lmstudio-bin/update_package.py:166 | the file name is exactly the one suffix with those properties |
| UrlPath.LastSegmentOfPath | pkgbuilds/shared/lmstudio-bin/update_package.py:166 | for any URL ending in `/` + name, with no `/` in name, the file name is name |
| UrlPath.LastSegmentNoSlash | pkgbuilds/shared/lmstudio-bin/update_package.py:166 | a URL without `/` is its own file name |
| Pipeline.PlanUpdate | pkgbuilds/shared/lmstudio-bin/update_package.py:163-189 | of the run's failures, only the version extraction is modelled: it fails exactly when no version can be read from the file name, with the error naming it; on success the file name is the URL's last segment and the version is well-formed |
| Pipeline.PlanUpdateVersion | pkgbuilds/shared/lmstudio-bin/update_package.py:166-167 | the run's version is group 1 of the leftmost match in the file name, and the run fails exactly when no match exists |
| Pipeline.PlanUpdateForRelease | pkgbuilds/shared/lmstudio-bin/update_package.py:163-189 | for a URL ending in a plain AppImage name, the file name and version come from that name, and the template is rendered with them, the URL and the two digests |
| Pipeline.PlanUpdateLeavesNoPlaceholder | pkgbuilds/shared/lmstudio-bin/update_package.py:163-189 | a successful run on a template of plain literals and the four placeholders, in any order and number, leaves no placeholder in the PKGBUILD, given hexadecimal digests and a plain URL |
| Pipeline.PlanUpdateEndToEnd | pkgbuilds/shared/lmstudio-bin/update_package.py:163-189 | with a template holding each placeholder once, in the order version, url, sha256, icon_sha256, among plain shell text, the PKGBUILD carries the version, URL, AppImage digest and icon digest at the placeholders' positions, keeps the rest, and holds no placeholder any more |
| Pipeline.ChecksumLine | pkgbuilds/shared/lmstudio-bin/update_package.py:186-189 | the checksum array `('{{sha256}}' '{{icon_sha256}}' 'SKIP')` receives the AppImage digest, then the icon digest, then `SKIP` for the desktop file |

## Left out

- Resolving the download URL (lines 24-37) and downloading the file (lines 69-87) are HTTP and file I/O. The resolved URL is a parameter of `Pipeline.PlanUpdate`, and the download is not modelled.
- SHA-256 hashing (lines 52-66) calls `hashlib`. It becomes the parameter `digest` of `Pipeline.PlanUpdate`, a function from a file path to its digest. `Pipeline.IsHexDigest` describes the form `hexdigest()` returns, and lemmas that need that form require it.
- `.SRCINFO` generation (lines 130-149) runs the external `makepkg` program and is not modelled.
- `stage_install_file` (lines 90-99) and `os.chdir` (lines 159-160) only check and change hard-coded paths and are not modelled.
- The template read and the PKGBUILD write (lines 116-117, 124-125) are file I/O. The template text is a parameter, and the rendered text is part of the result.
- All printed output (progress lines and the closing summary) is left out.
- Python's `\d` also matches non-ASCII decimal digits. The model accepts the ASCII digits `0`-`9` only.
- Template.RenderFillsPlaceholders: proved only for templates whose literal text is plain (no `{{`, no trailing `{`) and whose version, url and sha256 values are plain. A literal holding `{{` can itself spell a placeholder, and a literal or value ending in `{` can complete one with the `{` that follows. A later step then rewrites text that the slot reading keeps (`Template.RenderUrlThenSha` shows one case). Single braces of shell syntax are covered, except a `{` that ends a literal piece right before a placeholder or the end of the template.
- Template.RenderEachOnce: states the result for templates of this shape with plain-text literals and values. It does not claim that no placeholder is left when the icon hash itself spells one. `Pipeline.PlanUpdateEndToEnd` claims it for a hexadecimal icon hash.
- Pipeline.PlanUpdateEndToEnd: covers the plain AppImage name only. Names with a release number are covered by `Version.ExtractDropsRelease`, for the version alone. It takes the placeholders once each in the order version, url, sha256, icon_sha256; other orders and counts are covered by `Pipeline.PlanUpdateLeavesNoPlaceholder`, for the absence of placeholders, and by `Template.RenderFillsPlaceholders`, for where the values land. It also requires plain text around the placeholders and in the URL's directory part, for the reason given for `Template.RenderFillsPlaceholders`.
- Pipeline.PlanUpdate: resolving the URL (`raise_for_status`, line 33), downloading (line 80), opening files for hashing (line 60) and reading the template (line 116) can raise in the script. They cannot fail in the model: the URL and template are parameters and `digest` is total. So the extraction error is the only `Err`.

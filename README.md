# Dynamic Actor Intros — a verified model of its self-contained logic

Dynamic Actor Intros is a Foundry VTT module. It shows a full-screen intro for an
actor: a title, up to two subtitles and a chosen font, with a fade-out after a
configurable delay. Most of the module is glue around the host: sockets, dialogs,
hooks and DOM animation. This project models the three pieces that hold logic of
their own and proves their properties in Dafny.

- **Font discovery** (`getAvailableFonts`), in `fonts.dfy` and `uri.dfy`.
  - Each file of the font-directory listing loses the first copy of the
    `modules/dynamic-actor-intros/fonts/` prefix, is percent-decoded with
    `decodeURIComponent`, and is matched against the font-file pattern.
  - A matching file is appended to `AVAILABLE_FONTS` as `{name, path}`. The list
    is modelled as the `fonts` field of class `FontRegistry`. The `for…of` loop
    is the method `ScanListing`, proved against the specification function
    `Scan`. One iteration is `Visit`, and its push-or-log step is `Record`.
  - A file that does not match is only logged. A decoding error ends the loop
    with one warning.
  - `uri.dfy` models `decodeURIComponent` as section 19.2.6 of the ECMAScript
    language specification defines it, with UTF-8 validation as in RFC 3629. It
    also models `encodeURIComponent`, so the round trip can be stated.
- **The logger**, in `logging.dfy`.
  - Six numbered levels, and a threshold fixed by the `DEBUG_MODE` flag.
  - A total level-to-name function, a routing table from level to console
    method, and the message prefix.
  - A console write is a returned `Option<ConsoleLine>`. The two build flags are
    a `Config` parameter, and `Shipped` is the configuration the module ships
    with (both flags off).
- **The overlay text block and the fade-out delay**, in `overlay.dfy`.
  - `buildTextElements` is a string template: a wrapper naming the font, a title
    div that is always present, a div for each truthy subtitle, one shared colour
    and one four-layer text shadow.
  - The delay is the setting in seconds times 1000, or 5000 when the setting is
    falsy.

`wrappers.dfy` holds the `Option` and `Result` datatypes.

## Model

| member | source | states |
|---|---|---|
| Logging.LevelsTotallyOrdered | scripts/dynamic-intros-logging.js:16-23 | NONE < ERROR < WARN < INFO < DEBUG < ALL, numbered 0..5 |
| Logging.CurrentLogLevel | scripts/dynamic-intros-logging.js:25-26 | the threshold is INFO or ALL, and it is ALL exactly when DEBUG_MODE is set (so INFO exactly when it is not) |
| Logging.DecimalRoundTrip | scripts/dynamic-intros-logging.js:36 | the decimal digits printed for a level read back as that level |
| Logging.NumberToString | scripts/dynamic-intros-logging.js:36 | `${level}` for an integer level: at least one character, a leading minus sign exactly for a negative level, digits after it; `DecimalRoundTrip` and `NumberToStringInjective` show that the digits read back as the level |
| Logging.NumberToStringInjective | scripts/dynamic-intros-logging.js:36 | distinct integers are printed as distinct strings |
| Logging.LevelName | scripts/dynamic-intros-logging.js:29-37 | levels 1..5 are named ERROR, WARN, INFO, DEBUG, TRACE; every other integer is named `UNKNOWN(n)` with n printed in decimal |
| Logging.LevelNameInjective | scripts/dynamic-intros-logging.js:29-37 | two levels with the same name are the same level |
| Logging.Prefix | scripts/dynamic-intros-logging.js:54 | the text `Dynamic-Actor-Intros \| [name] \| ` before every message; `PrefixNamesLevel` shows that it identifies the level |
| Logging.PrefixNamesLevel | scripts/dynamic-intros-logging.js:53-54 | two lines with the same prefix were written at the same level |
| Logging.Route | scripts/dynamic-intros-logging.js:56-81 | ERROR goes to console.error and WARN to console.warn; DEBUG goes to console.debug and ALL to console.trace, or both to console.info when both flags are set; INFO and every other level go to console.log |
| Logging.RouteAgreesWithName | scripts/dynamic-intros-logging.js:53-81 | the channel is error exactly for the name ERROR and warn exactly for WARN; it is log exactly for INFO or an UNKNOWN name |
| Logging.Log | scripts/dynamic-intros-logging.js:51-83 | a line is written exactly when level <= currentLogLevel; it is the prefix `Dynamic-Actor-Intros \| [name] \| ` followed by the message, on the routed channel |
| Logging.LogError | scripts/dynamic-intros-logging.js:90-92 | always writes `[ERROR]` + message to console.error |
| Logging.LogWarning | scripts/dynamic-intros-logging.js:94-96 | always writes `[WARN]` + message to console.warn |
| Logging.LogInfo | scripts/dynamic-intros-logging.js:98-100 | always writes `[INFO]` + message to console.log |
| Logging.LogDebug | scripts/dynamic-intros-logging.js:102-104 | writes `[DEBUG]` + message only in debug mode: to console.info when OVERRIDE_INFO is set, to console.debug otherwise |
| Logging.NonDebugThreshold | scripts/dynamic-intros-logging.js:26 | with DEBUG_MODE off, whatever OVERRIDE_INFO is, a level prints exactly when it is at most INFO; DEBUG and ALL never print |
| Logging.ShippedThreshold | scripts/dynamic-intros-logging.js:26 | with the shipped flags a level prints exactly when it is at most INFO; DEBUG and ALL never print |
| Logging.NoneLevelPrintsUnknown | scripts/dynamic-intros-logging.js:52-80 | NONE and every lower level pass the filter and print through console.log with an `UNKNOWN(` name |
| Logging.NoneLevelName | scripts/dynamic-intros-logging.js:36 | NONE is named `UNKNOWN(0)` |
| Uri.Decode | scripts/dynamic-intros-utils.js:20 | decodeURIComponent, with an error for a malformed escape or invalid UTF-8; characterised by `DecodeWithoutEscapes`, `DecodeNeverLonger`, `DecodeExamples`, and `DecodeEncode` against `Encode` |
| Uri.Encode | scripts/dynamic-intros-utils.js:20 | encodeURIComponent, the reference partner of `Decode`; `DecodeEncode` proves that decoding undoes it |
| Uri.DecodeWithoutEscapes | scripts/dynamic-intros-utils.js:20 | a name without `%` decodes to itself |
| Uri.DecodeNeverLonger | scripts/dynamic-intros-utils.js:20 | a successful decode is never longer than its input |
| Uri.DecodeEncode | scripts/dynamic-intros-utils.js:20 | decoding undoes encodeURIComponent for every string |
| Uri.DecodeExamples | scripts/dynamic-intros-utils.js:20 | `%2F` decodes to `/`; a lone `%` is a malformed escape; the overlong `%C0%AF` is invalid UTF-8 |
| Fonts.ReplaceFirst | scripts/dynamic-intros-utils.js:19 | `String.replace` with a string pattern: only the first copy is replaced; characterised by `IndexOfFrom`, `StripLeadingPrefix` and `ReplaceFirstWithoutOccurrence` |
| Fonts.IndexOfFrom | scripts/dynamic-intros-utils.js:19 | finds the leftmost occurrence of the prefix at or after a position, or reports that there is none |
| Fonts.StripLeadingPrefix | scripts/dynamic-intros-utils.js:19 | a path that starts with the directory prefix loses exactly that first copy; later copies stay |
| Fonts.ReplaceFirstWithoutOccurrence | scripts/dynamic-intros-utils.js:19 | a path without the prefix is left unchanged |
| Fonts.MatchCandidates | scripts/dynamic-intros-utils.js:21 | group 1 can only end 4, 5 or 6 characters before the end of the name |
| Fonts.FontName | scripts/dynamic-intros-utils.js:21 | the pattern matches exactly when some split fits; group 1 is then a prefix of the name followed by a separator and an extension, and it is the longest such prefix (greedy) |
| Fonts.NameIsPlainFileStem | scripts/dynamic-intros-utils.js:21 | every captured name is non-empty and contains no `/` |
| Fonts.StemIsCaptured | scripts/dynamic-intros-utils.js:21 | a stem followed by one separator character and an extension yields exactly that stem |
| Fonts.GreedyNameKeepsInnerDots | scripts/dynamic-intros-utils.js:21 | `a.b.ttf` is captured as `a.b` |
| Fonts.UpperCaseExtensionRejected | scripts/dynamic-intros-utils.js:21 | the extension is case-sensitive: any `X.TTF` is rejected |
| Fonts.AsWrittenAcceptsMissingDot | scripts/dynamic-intros-utils.js:21 | as written, `Arialttf` is accepted under the name `Aria` |
| Fonts.AsWrittenAcceptsSubdirectory | scripts/dynamic-intros-utils.js:21 | as written, `sub/ttf` is accepted under the name `sub` |
| Fonts.IntendedSplitsAtDot | scripts/dynamic-intros-utils.js:21 | with a literal dot, the name is `name.ext` split at the dot before a valid extension |
| Fonts.IntendedRejectsSubdirectories | scripts/dynamic-intros-utils.js:21 | with a literal dot, no path containing `/` is accepted |
| Fonts.Examine | scripts/dynamic-intros-utils.js:19-28 | an accepted file keeps its listed, undecoded path |
| Fonts.EncodedFontIsRegistered | scripts/dynamic-intros-utils.js:14-26 | a file listed as the directory prefix plus the percent-encoding of `name.ext` is accepted as `{name, path}` |
| Fonts.Scan | scripts/dynamic-intros-utils.js:16-32 | the loop as a function of the listing; characterised by `ScanCharacterization`, `ScanEntriesMatch` and `ScanStopsAfterAbort` |
| Fonts.Outcome | scripts/dynamic-intros-utils.js:16-32 | the whole try/catch: a failed listing gives one warning and no fonts, a listing gives `Scan`; `GetAvailableFonts` is proved against it |
| Fonts.ScanStopsAfterAbort | scripts/dynamic-intros-utils.js:16-32 | after a decoding failure the remaining files are not examined: nothing more is appended or logged |
| Fonts.FirstUndecodableIsFirst | scripts/dynamic-intros-utils.js:18-20 | every file before the index `FirstUndecodable` decodes, and the file at that index (if any) fails to decode |
| Fonts.AcceptedEntriesMatch | scripts/dynamic-intros-utils.js:18-26 | every accepted entry's path is a listed file, and examining that path yields exactly that entry |
| Fonts.ScanCharacterization | scripts/dynamic-intros-utils.js:16-32 | the scan appends exactly the accepted files before the first undecodable one, in listing order, and stops early exactly when some file fails to decode |
| Fonts.ScanEntriesMatch | scripts/dynamic-intros-utils.js:18-26 | each appended entry comes from the listing and carries the name the pattern captures from its decoded path |
| Fonts.FontRegistry.constructor | scripts/dynamic-intros-utils.js:11 | AVAILABLE_FONTS starts empty |
| Fonts.FontRegistry.Record | scripts/dynamic-intros-utils.js:22-28 | an accepted file is pushed after the existing entries and nothing is logged; a rejected file is logged at INFO; a decoding failure is logged as the warning |
| Fonts.FontRegistry.Visit | scripts/dynamic-intros-utils.js:18-31 | one iteration either extends the scan by the next file, or (on a decoding failure) leaves the list and the console exactly as the whole scan does |
| Fonts.FontRegistry.ScanListing | scripts/dynamic-intros-utils.js:16-32 | the loop appends exactly the scan's entries after the existing ones and writes exactly the scan's console lines |
| Fonts.FontRegistry.GetAvailableFonts | scripts/dynamic-intros-utils.js:13-33 | as `ScanListing` for a listing; a failed listing appends nothing and writes one warning |
| Fonts.ScanTwice | scripts/dynamic-intros-utils.js:11-26 | the list is never cleared: scanning the same listing twice appends its entries twice |
| Overlay.DivHtml | scripts/dynamic-intros-ui.js:29-31 | one text div; `TextInDiv` shows that it ends with its text, unchanged, then `</div>` |
| Overlay.TextInDiv | scripts/dynamic-intros-ui.js:29-31 | a div's text appears unchanged (nothing is escaped), right before the div's closing tag |
| Overlay.BuildTextElements | scripts/dynamic-intros-ui.js:19-34 | the template; characterised by `BlockLayout`, `BlockFrame`, `FontFamilyInBlock` and `TextSlots` |
| Overlay.WithDefault | scripts/dynamic-intros-ui.js:19 | an omitted (undefined) colour becomes the default; a given string is used unchanged |
| Overlay.Shadow | scripts/dynamic-intros-ui.js:20-23 | the shadow is four layers, at offsets (2,2), (-2,-2), (2,-2) and (-2,2), each with blur 0 and the shadow colour |
| Overlay.SubtitleSlot | scripts/dynamic-intros-ui.js:30-31 | a subtitle div is present exactly when the subtitle is truthy |
| Overlay.TextSlots | scripts/dynamic-intros-ui.js:29-31 | the title div is always present, first, and shows the title; each subtitle div is present exactly when its subtitle is truthy and shows it; every div has the same colour and shadow colour |
| Overlay.BlockFrame | scripts/dynamic-intros-ui.js:27-33 | after the leading line break the block opens with the wrapper div, and it ends with the wrapper's closing tag |
| Overlay.FontFamilyInBlock | scripts/dynamic-intros-ui.js:28 | the wrapper's font-family is the given font, single-quoted, followed by a sans-serif fallback |
| Overlay.BlockLayout | scripts/dynamic-intros-ui.js:27-33 | the block is exactly: the wrapper opening, a line with the title div, a line with subtitle 1's div or nothing, a line with subtitle 2's div or nothing, and the closing tag; no other div is written |
| Overlay.DivOrder | scripts/dynamic-intros-ui.js:29-31 | in any block of three template lines (wrapper opening, `Lines`, closing tag) each line sits at its line start, and each ends before the next begins |
| Overlay.OmittedColoursDefault | scripts/dynamic-intros-ui.js:19 | with both colour arguments omitted, every div is drawn in `#ad0a0a` with a `#ffffff` shadow |
| Overlay.FadeOutMs | scripts/dynamic-intros-ui.js:101-102 | an unset or zero setting gives 5000 ms; any other setting gives its value times 1000 |
| Overlay.FadeOutBounds | scripts/dynamic-intros-ui.js:101-102 | the delay is never 0 and is a whole number of seconds; a setting in the registered range 2..8 gives 2000..8000 ms |

## Left out

- `FilePicker.browse` is host file I/O. Its result is an input. `None` stands for a listing call that threw, and the model then writes the same single warning as for a decoding failure.
- A listing whose `files` field is missing makes the `for…of` throw inside the `try`. That case is the same as `None` and is not modelled separately.
- The `err` argument passed to `logWarning`, and the extra `...args` of every log call, are not part of the modelled console line.
- Strings are sequences of Unicode scalar values, not UTF-16 code units. The regex `.` consumes one code unit, so a name whose separator position holds a supplementary-plane character, or a lone surrogate in a listed name, can behave differently. `encodeURIComponent` is modelled only for scalar values.
- `decodeURIComponent` throws a URIError in every failing case. The model separates a malformed escape from invalid UTF-8 only to make the error paths readable.
- LevelName / NumberToString: levels are mathematical integers printed in plain decimal. JavaScript prints a number of magnitude 10^21 or more in exponent form, and cannot tell integers apart beyond 2^53, so for such levels the name may differ.
- Levels are integers. A non-integer, NaN or non-number level passed to `log` is not modelled, and neither is a non-integer fade-out setting.
- The template arguments of `buildTextElements` are modelled as undefined, null or a string. Numbers, objects and other values are not modelled, and their template rendering is not either.
- The `logDebug` call inside `buildTextElements` (scripts/dynamic-intros-ui.js:25) writes only in debug mode and does not affect the returned block. It is not modelled.
- The `Hooks.once('init')` logger banner (scripts/dynamic-intros-logging.js:41-43) is host wiring and is not modelled.
- `animateElements` and the rest of `showDynamicIntro` (DOM changes, timers, the click-to-skip flag) are event-loop timing and are not modelled. Only the delay computation is.
- scripts/dynamic-intros-core.js, scripts/dynamic-intros-init.js and the setting registration in scripts/dynamic-intros-settings.js are host registration and are not part of this model. The registered slider range 2..8 (scripts/dynamic-intros-settings.js:25-29) is followed rather than its "min 3, max 5" comment.

## Findings

| source | as written | input that shows it | evidently intended | confidence | as-written member | corrected member |
|---|---|---|---|---|---|---|
| scripts/dynamic-intros-utils.js:21 | the pattern is a string literal, so `\.` becomes `.`, which matches any character except a line terminator | `Arialttf` is accepted as font `Aria`; `sub/ttf` (a file in a subdirectory) is accepted as `sub` | a literal dot before the extension, so names without a dot and files in subdirectories are rejected | not executed | Fonts.AsWrittenAcceptsMissingDot | Fonts.IntendedRejectsSubdirectories |

In the model the separator is a parameter: `Fonts.AsWritten` (any character) models the code as written, and `LiteralDot` models the evident intent. Every lemma about the scan holds for both, and `Fonts.IntendedSplitsAtDot` and `Fonts.IntendedRejectsSubdirectories` state the corrected behaviour.

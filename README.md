# Etsy image downloader: a Dafny model of its core

The extension has two halves. The popup (`popup.js`) finds the image URLs of an
Etsy listing page and asks the background worker to save them one at a time.
The background worker (`background.js`) upgrades each URL to its full-resolution
form and names the file. It then asks the browser to download it and watches the
download's change events. If that attempt fails, it makes one more attempt, on a
mid-resolution URL derived from the original one.

The model has six modules:

- `Text`: optional values, results, JavaScript truthiness, the ASCII character
  classes the regular expressions use, and `${n}` for integers.
- `UrlRewrite`: `getHighestQualityUrl` and `getFallbackUrl`.
  - Each regular expression is given twice: as the set of strings it matches
    (`IsToken`), and as a leftmost-match scanner (`MatchAt`, `FindFrom`).
    Lemmas prove that the two agree.
  - `ReplaceFirst` is `String.prototype.replace` without the `g` flag, so only
    the leftmost match is replaced.
  - The `i` flag is honoured on the first two rewrites and absent on the
    extension rewrite and the fallback.
- `Filename`: `generateFilename`, with the ISO clock string as a parameter.
- `Downloads`: `trackDownload` as a `Tracker` object that receives
  `downloads.onChanged` events, plus `initiateDownload`, `handleDownload` and
  the `onMessage` listener.
  - The browser's download service is data. For each attempt it gives the
    answer to `downloads.download` (an id or `runtime.lastError`) and the
    change events that follow.
- `Extraction`: the domain gate of `findImages`, the per-element URL choice,
  the first-seen accumulation of the injected page function, and the
  `|| {images: [], title: ''}` default.
  - The page is data: the `<img>` elements each selector matches, the title,
    whether the injected script returned a result, and the message when
    `executeScript` rejects.
- `Popup`: a `Controller` class with the two buttons' `disabled` flags, the
  status line, and the requests sent so far, plus `downloadImages` and its
  batch loop.
  - The background worker's answers are an oracle: `reply(j)` answers the
    `j`-th request, or is absent when no answer arrives.

## Model

| member | source | states |
|---|---|---|
| Text.LowerAscii | background.js:54 | `toLowerCase` on one character: `A`-`Z` become `a`-`z` (code point + 32), every other character is unchanged |
| Text.Decimal | background.js:62 | a natural number renders as a non-empty string of decimal digits |
| Text.DecimalRoundTrip | background.js:62 | reading the decimal rendering back gives the number: the rendering loses nothing |
| Text.SignOfRendering | background.js:62 | `${n}` is non-empty and starts with `-` exactly when `n` is negative |
| Text.IntToStringInjective | background.js:62 | distinct integers render to distinct `${index}` strings |
| UrlRewrite.DigitsEnd | background.js:37 | a greedy `\d+` run from `i` ends at the first non-digit (or the end), and everything before it is a digit |
| UrlRewrite.MatchAt | background.js:37-42 | a match found at `i` is non-empty and ends within the string |
| UrlRewrite.FindFrom | background.js:37-42 | the scanner returns the leftmost position at or after `k` where the pattern matches, and `None` only when there is none |
| UrlRewrite.MatchAtSound | background.js:37-42 | every match the scanner reports is a string the regular expression matches (the two size patterns and the extension pattern) |
| UrlRewrite.MatchAtComplete | background.js:37-42 | every match of the regular expression that starts at `i` is the one the scanner reports there |
| UrlRewrite.SizeWHComplete | background.js:37 | completeness for `il_\d+x\d+\.`, with and without `i` |
| UrlRewrite.SizeWNComplete | background.js:38 | completeness for `il_\d+xN\./i` |
| UrlRewrite.ImageExtComplete | background.js:42 | completeness for the extension pattern (`.jpg`, `.jpeg`, `.png`, `.gif`); `.jpeg` is recognised although `.jpg` is tried first |
| UrlRewrite.SizeWHSound | background.js:37 | soundness for `il_\d+x\d+\.`, with and without `i` |
| UrlRewrite.SizeWNSound | background.js:38 | soundness for `il_\d+xN\./i` |
| UrlRewrite.NotAt | background.js:42 | a literal does not occur where one of its characters differs |
| UrlRewrite.FindNone | background.js:36-38 | when the scanner finds nothing, the string contains no match |
| UrlRewrite.FindLeftmost | background.js:36-38 | the scanner's match is a match, and no match starts further left |
| UrlRewrite.ReplaceFirstSpec | background.js:36-38 | `replace` without `g` puts the text in place of the leftmost match and changes nothing else; with no match the string is returned unchanged |
| UrlRewrite.ReplaceFirstAt | background.js:36-38 | the same, for a given leftmost match `[i, j)`, stated without the scanner |
| UrlRewrite.TokenShape | background.js:37-38 | a size token starts with `i`/`I`, has `_` only at index 2 and a digit at index 3, and has no other `i`/`I` |
| UrlRewrite.SpliceToken | background.js:37-38 | a size token of `a + r + b` lies wholly inside `a` or wholly inside `b` when `r` is like `il_fullxfull.` |
| UrlRewrite.TokenAfterSplice | background.js:36-38 | every size token after a replacement was already a size token before it, shifted |
| UrlRewrite.ReplaceFirstClears | background.js:36-38 | replacing the only size token with `il_fullxfull.` leaves no token of that form |
| UrlRewrite.ReplaceFirstKeepsAbsent | background.js:36-38 | a replacement creates no size token of either form |
| UrlRewrite.ReplaceFirstKeepsAtMostOne | background.js:36-38 | a replacement does not turn one size token of the other form into two |
| UrlRewrite.ReplaceFirstSplit | background.js:36-38 | when a match is present, the replacement text goes in place of a slice `[i, j)` of the input |
| UrlRewrite.ReplacedContainsMarker | background.js:37-38 | replacing a match with `il_fullxfull.` leaves `fullxfull` in the result |
| UrlRewrite.InsertBeforeExtSpec | background.js:42 | `_fullxfull` goes immediately before the leftmost case-sensitive extension and nothing else changes; without an extension the string is unchanged |
| UrlRewrite.NoTokenAfterInsert | background.js:42 | inserting `_fullxfull` creates no size token |
| UrlRewrite.UpgradeWithSizeToken | background.js:34-46 | with a size token of either form, the result of the two replacements (each putting `il_fullxfull.` in place of its leftmost match, by `ReplaceFirstSpec`) contains `fullxfull`, so the extension step is skipped and that is the upgraded URL |
| UrlRewrite.UpgradeWithoutSizeToken | background.js:34-46 | without a size token: unchanged if `fullxfull` is present; otherwise `_fullxfull` is inserted before the leftmost extension; unchanged if there is none |
| UrlRewrite.UpgradeLeavesNoSizeToken | background.js:34-46 | with at most one token of each form, the upgraded URL has no size token left, whichever branch produced it |
| UrlRewrite.UpgradeMarkedOrNoExt | background.js:41-43 | the upgraded URL contains `fullxfull`, or has no extension to insert it before |
| UrlRewrite.UpgradeIdempotent | background.js:34-46 | upgrading an upgraded URL changes nothing when the input has at most one token of each form |
| UrlRewrite.UpgradeTwoTokensNotIdempotent | background.js:34-46 | with two `il_<W>x<H>.` tokens `t1 + t2`, the upgrade gives `il_fullxfull.` + `t2` and a second upgrade gives `il_fullxfull.il_fullxfull.`, so upgrading is not idempotent there |
| UrlRewrite.TwoTokensExample | background.js:34-46 | `il_1x1.il_2x2.` upgrades to a URL that upgrades again to something different |
| UrlRewrite.NoSizeWNWithoutN | background.js:38 | a string with no `n` or `N` has no `il_<d>xN.` token |
| UrlRewrite.UpgradeFirstOf | background.js:34-46 | a leading `il_<W>x<H>.` token is the one replaced by `il_fullxfull.` |
| UrlRewrite.UpgradeAfterFull | background.js:34-46 | after a leading `il_fullxfull.`, the next `il_<W>x<H>.` token is the leftmost one and is replaced |
| UrlRewrite.FullTokenDiffers | background.js:37 | `il_fullxfull.` is not a size token: it differs from one at index 3 |
| UrlRewrite.FallbackUrlSpec | background.js:48-50 | the leftmost case-sensitive `il_<W>x<H>.` becomes `il_1140xN.` and nothing else changes; without one the URL is returned verbatim |
| UrlRewrite.SizeTokenForms | background.js:37-49 | a case-sensitive size token is also a case-insensitive one; an `il_<d>xN.` token is never an `il_<W>x<H>.` token |
| Filename.LowerCase | background.js:54 | same length, every character lower-cased |
| Filename.SkipSeparators | background.js:55 | what remains is a suffix that is empty or starts with a letter or digit |
| Filename.SkipDropsSeparators | background.js:55 | everything skipped is outside `[a-z0-9]`, so with `SkipSeparators` exactly the leading run of separators is dropped |
| Filename.CollapseSeparators | background.js:55 | a string starting with a letter or digit still starts with it after collapsing |
| Filename.CollapseSeparatorRun | background.js:55 | a whole run of characters outside `[a-z0-9]` becomes exactly one `_` |
| Filename.SkipRun | background.js:55 | skipping a run of separators stops at the first letter or digit after it |
| Filename.CollapseIsCompact | background.js:55 | after `.replace(/[^a-z0-9]+/g, '_')` only `[a-z0-9_]` remains, with no two `_` side by side |
| Filename.CollapseKeepsAlnum | background.js:55 | collapsing loses and adds no letter or digit: the letters and digits are the same, in order |
| Filename.CollapseCompact | background.js:55 | a compact string collapses to itself |
| Filename.CollapseAlnumPrefix | background.js:55 | a prefix of letters and digits passes through collapsing untouched |
| Filename.TrimLeading | background.js:56 | drops exactly the leading `_` run |
| Filename.TrimTrailing | background.js:56 | drops exactly the trailing `_` run |
| Filename.TrimKeepsCompact | background.js:56 | trimming keeps a compact string compact |
| Filename.TrimKeepsAlnum | background.js:56 | trimming loses no letter or digit |
| Filename.TrimGivesStem | background.js:56 | trimming a compact string gives one with no `_` at either end |
| Filename.CleanTitleWellFormed | background.js:53-56 | the stem holds only `[a-z0-9_]`, has no `__`, and neither starts nor ends with `_` |
| Filename.CleanTitleKeepsAlnum | background.js:53-56 | the stem keeps exactly the lower-cased title's letters and digits, in order |
| Filename.StemFixedPoint | background.js:54-56 | cleaning a clean stem gives it back |
| Filename.DefaultStem | background.js:53 | a falsy title (absent or empty) gives the stem `etsy_image` |
| Filename.IndexSuffixSpec | background.js:62 | the `_<index>` part is present exactly for a truthy index, and equal suffixes come from equal indices |
| Filename.IndexDisambiguates | background.js:62-63 | two truthy indices give the same filename for the same title and clock only when they are equal |
| Filename.ColonsToDashes | background.js:59 | same length; each `:` becomes `-`, all else is kept |
| Filename.LineEnd | background.js:60 | a greedy `.+` runs to the first line terminator or the end |
| Filename.FractionStart | background.js:60 | the leftmost position where `\..+` can match |
| Filename.TimestampHasNoColon | background.js:58-60 | the timestamp contains no `:` |
| Filename.TimestampCutsAtFirstDot | background.js:58-60 | for a clock string without line breaks, the timestamp is everything before the first `.` (followed by a character), with colons turned into dashes |
| Filename.TimestampWithoutFraction | background.js:58-60 | with no `.` before the last character, the whole string is kept, with colons turned into dashes |
| Downloads.SettleIsFirstTerminal | background.js:84-93 | the first event for this id that is `complete` or carries an error decides the settlement; `complete` is checked before `error` |
| Downloads.SettlePendingIffNoTerminal | background.js:84-93 | tracking stays pending exactly when no event for this id is terminal |
| Downloads.SettleAppend | background.js:84-93 | while pending, the next event alone decides |
| Downloads.Tracker.constructor | background.js:84 | a new listener is registered, pending, and has seen nothing |
| Downloads.Tracker.OnChanged | background.js:84-93 | one event: a terminal event for this id settles the listener (resolve or reject with `error.current`) and removes it; other events change nothing but the log |
| Downloads.TrackDownload | background.js:82-96 | fed a sequence of events, the listener settles on the first terminal one, which is the last event it receives, and is removed exactly then; otherwise it stays pending and registered |
| Downloads.Attempt | background.js:66-96 | `initiateDownload` then `trackDownload`: a rejected `download` call errors with `lastError.message`; a started one settles as its events decide |
| Downloads.HandleDownload | background.js:8-32 | one or two `download` calls, both with the same filename. The first uses the upgraded URL. The second happens exactly when the first attempt errors, and uses `getFallbackUrl` of the original URL. The response is success if either attempt completes, and otherwise failure with the fallback's message and `attempted_url` = the original URL. There is at most one response, and none only when an attempt never settles |
| Downloads.OnMessage | background.js:1-6 | a `download` message gets exactly `handleDownload`'s behaviour (the `Handled` predicate that `HandleDownload` also ensures); other messages produce no call and no response |
| Extraction.ChooseUrlSpec | popup.js:41-49 | the chosen URL is the first truthy of the five `dataset` entries and `img.src`, and is empty exactly when none is truthy |
| Extraction.Urls | popup.js:40-49 | one chosen URL per element, in document order |
| Extraction.ChosenMembers | popup.js:39-49 | a URL is chosen exactly when some element matched by some selector yields it |
| Extraction.FirstSeenMembers | popup.js:50-52 | exactly the non-empty chosen URLs are kept |
| Extraction.FirstSeenNoDuplicates | popup.js:50-52 | no URL is kept twice |
| Extraction.FirstSeenOrder | popup.js:38-54 | kept URLs appear in the order in which they are first chosen |
| Extraction.FirstSeenSnoc | popup.js:50-52 | one more URL is appended exactly when it is non-empty and not yet in the list |
| Extraction.CollectedMembers | popup.js:38-54 | a URL ends up in `images` exactly when it is non-empty and some matched element yields it |
| Extraction.CollectImages | popup.js:38-54 | the two nested `forEach` loops build the first-seen list of chosen URLs. It has no duplicates, follows first-seen order across selectors then elements, and holds every non-empty chosen URL |
| Extraction.FindImages | popup.js:17-67 | off `etsy.com` (or with no tab or URL) it throws the navigation error and injects nothing. Otherwise it injects the script. A rejected `executeScript` fails with its message. Otherwise it returns the collected list and title, or `{images: [], title: ''}` when the script returns no result |
| Popup.ErrorText | popup.js:95 | the error shown for a failed reply is never empty; it is `response.error` when that is non-empty, and exactly `Download failed` when it is empty |
| Popup.Requests | popup.js:81-91 | in "all" mode every image is requested in order with `index = i + 1`; otherwise only the first image, with no index |
| Popup.RequestsNamedApart | popup.js:84-91 | the requests of one "all" batch get pairwise distinct filenames from the background worker, even within one clock second |
| Popup.Controller.constructor | popup.js:1-4 | both buttons enabled, empty status, nothing sent |
| Popup.Controller.ShowStatus | popup.js:6-15 | sets the status text and class, nothing else |
| Popup.Controller.SetButtons | popup.js:71-72 | sets both buttons' `disabled`, nothing else |
| Popup.Controller.Send | popup.js:85-92 | appends one request to those sent, and can only be called while both buttons are disabled |
| Popup.Controller.SendBatch | popup.js:84-97 | requests go out one at a time, in order. The loop stops after the first reply that is not a success, or that never arrives. Every earlier reply succeeded, and a failure shows its error text |
| Popup.Controller.Transfer | popup.js:81-105 | announces the batch, sends it, and reports success only when every request succeeded; it re-enables the buttons unless a reply is still awaited |
| Popup.Controller.DownloadImages | popup.js:69-106 | off Etsy, when `executeScript` rejects, or with no images, it sends nothing, shows the error message, and re-enables both buttons. Otherwise the requests sent are a prefix of the batch that ends at the first failure, and the status line says how it ended. Both buttons are re-enabled on every exit path that is reached |

## Left out

- The `chrome.*` APIs: `tabs.query`, `scripting.executeScript`, `downloads.download`, `downloads.onChanged`, `runtime.sendMessage` and `runtime.onMessage`. They are inputs: a tab value, a page value, a per-attempt `Service`, and a reply oracle.
- The DOM: `querySelectorAll`, the title lookup with `textContent` and `trim` (popup.js:56-60), and the serialisation of the script result. The page is a given list of matched elements and a title.
- The clock: `new Date().toISOString()` is the `iso`/`clock` parameter.
- The 3-second `setTimeout` that clears a success message (popup.js:10-13): timers are not modelled.
- Promise scheduling and the `return true` that keeps the message channel open (background.js:4). A download with no terminal event is a handler that never responds, because the source has no timeout.
- Events delivered before `trackDownload` registers its listener: the event sequence starts at registration.
- Filename.LowerCase: only ASCII letters are lower-cased; Unicode case mapping is not modelled.
- UrlRewrite.CharIs: the `i` flag is modelled on ASCII letters only. A non-Unicode JavaScript regular expression never folds other characters onto the ASCII letters these patterns use.
- Extraction.FindImages: the script's result is either a collected listing or absent; a result of another shape is not modelled.
- Popup.Controller.DownloadImages: a reply that arrives but is `undefined` (a closed channel, which throws a `TypeError` on `response.success`) is not modelled; a reply is a response or absent.
- Downloads.HandleDownload: the outer `catch` for errors thrown outside the two attempts (for example a non-string URL) is not modelled, since the inputs are strings.
- Filename.IndexSuffix: a number is its only truthy index form, rendered as an exact integer in plain decimal. `NaN`, non-integer indices, the exponent notation JavaScript uses from magnitude 1e21 on, and inexact integers above 2^53 are not modelled, because the popup sends only `i + 1` or `null`.

## Notes on the code

These are places where the extension's design description and its code disagree. The model follows the code.

- Upgrading is idempotent only when the URL has at most one token of each size form. With two `il_<W>x<H>.` tokens, one pass replaces only the first and a second pass replaces the other. `UrlRewrite.UpgradeIdempotent` therefore carries that precondition, and `UrlRewrite.UpgradeTwoTokensNotIdempotent` proves the second pass changes the URL.
- `_fullxfull` is inserted before the leftmost `.jpg`/`.jpeg`/`.png`/`.gif` substring anywhere in the URL, which need not be the file's extension.
- "Exactly one response per request" holds only when each attempt settles. A download with no terminal event leaves the handler waiting forever, with no response (`Downloads.HandleDownload`).

# H5P Interactive Book: content upgrades and status bar

This project models two parts of H5P.InteractiveBook.

The first is its content-upgrade registry, `H5PUpgrades['H5P.InteractiveBook']`. For major version 1 it holds two steps, keyed by the minor version they bring content to:

- **Step 6** moves the book cover's image and alternative text into a new `coverMedium` H5P.Image reference. The reference gets a random version-4-shaped sub-content id, and the file's copyright is lifted into the image's metadata. The step then centres the cover description: text that does not start with `<p` is wrapped whole in a centred paragraph (any `<p` inside it is left alone), and in text that does, every `<p…>` tag is replaced by the centred one.
- **Step 8** adds border styles to the tables of the cover description. It cuts the description at every `<table` and changes only the segments that mention `border`. In such a segment the style goes in three passes: once for the table, then once after every `<th` that is not `<thead`, then once after every `<td`. Each time it is inserted at the first `style="` after the tag, before the next tag of the same kind, or written as a new attribute right after the tag when there is none. That first `style="` can belong to a later element. In `<table border><tr><th>H</th><td style="a">1</td></tr></table>` the `<th>` gets no style and the `<td>` gets the border style twice. For the table itself the choice between the two is made by `tables.includes('style="')`, which asks whether some array element is exactly `style="`, not whether the segment contains one. When such an element exists and the segment has no `style="`, the table gets nothing.

The second part is the book's status bar:

- the `seqChapter` handler, which turns a request for the next or previous chapter into a `newChapter` or `viewSummary` event;
- `updateStatusBar`, which shows the chapter number, the progress text and the title, and disables an arrow button at either edge of the book;
- `setButtonStatus`;
- the progress text built from the `@page`/`@total` template;
- the merging of caller-supplied `l10n` and `a11y` texts over the defaults.

Modules:

- `Json` models the JSON values the steps handle, and JavaScript truthiness.
- `Book` covers the `bookCover.coverDescription` path.
- `Text` holds the string operations the steps use: `includes`, `split` on a string or a regular expression with a negative lookahead, `join`, and `replace` of the first occurrence.
- `ParseInt` models `parseInt`.
- `SubContentId` models the UUID template replacement.
- `Paragraphs` models the `/<p[^>]*>/g` replacement.
- `CoverUpgrade` is step 6; `TableUpgrade` is step 8; `Upgrades` is the registry and the running of pending steps in order.
- `Status` is the status bar.

How the steps are modelled:

- A step's `finished(error, parameters, extras)` call is the value `Finished`.
- A step that throws a TypeError is `Threw`, carrying the parameters as far as it had changed them.
- Both steps are written twice:
  - as a method that changes the values step by step as the source does. Step 8 keeps the source's `tables` array and mutates it in place;
  - as a function that specifies the method.
- Each method's postcondition ties it to its function, and the lemmas state what the function promises.

## Model

| member | source | states |
|---|---|---|
| Upgrades.Minors | upgrades.js:3-5 | major version 1 of H5P.InteractiveBook has steps for exactly minor versions 6 and 8 |
| Upgrades.PendingExactly | upgrades.js:3-5 | `Run`, the fold over the registry: the steps run from 1.`from` to 1.`to` are exactly the registered minors in (`from`, `to`], each once, in increasing order |
| Upgrades.UpgradeBothSteps | upgrades.js:12-150 | `Run` going to 1.8 from below 1.6 runs step 6, then step 8 on the parameters and extras step 6 finished with; a throw in step 6 ends the run |
| Upgrades.UpgradeTableOnly | upgrades.js:96-150 | going to 1.8 from 1.6 or 1.7 runs step 8 alone |
| Upgrades.UpgradeNothingPending | upgrades.js:3-5 | content already at or past the target version is handed back unchanged |
| CoverUpgrade.Step | upgrades.js:12-95 | the in-place mutation of the book cover (coverMedium write, deletes, description rewrite) computes exactly `Upgrade`, the step 6 specification |
| CoverUpgrade.MigrateImage | upgrades.js:13-83 | writing `coverMedium` and deleting `coverImage` and `coverAltText` in place gives exactly the migrated parameters |
| CoverUpgrade.CentreStep | upgrades.js:85-94 | the description rewrite in place gives exactly the centring specification, and throws for a truthy description that is not a string |
| CoverUpgrade.ConvertToImageParams | upgrades.js:16-75 | building the image reference field by field gives the specified image for the file, alternative text and generated id |
| CoverUpgrade.LiftCopyright | upgrades.js:40-71 | the six conditional metadata writes of a copyright, in source order, equal the ordered union of the six writes |
| CoverUpgrade.ImageParamsTop | upgrades.js:17-32 | the image reference has exactly `library`, `metadata`, `params` and `subContentId`, with library `H5P.Image 1.1` and the generated id |
| CoverUpgrade.ParamsDefaults | upgrades.js:24-39 | the image parameters are content name `Image`, not decorative, `alt` present iff the alternative text is truthy, `file` present iff the file is truthy, and no other keys |
| CoverUpgrade.MetadataDefaults | upgrades.js:19-23 | without a copyright the metadata is exactly content type `Image`, licence `U`, title `Untitled Image`; the content type is always `Image` |
| CoverUpgrade.AuthorLifted | upgrades.js:43-48 | `authors` is present iff the copyright's author is truthy, and is then a one-element list naming it with role `Author` |
| CoverUpgrade.LicenseLifted | upgrades.js:50-52 | the licence is the copyright's when that is truthy, and `U` otherwise |
| CoverUpgrade.SourceLifted | upgrades.js:54-56 | `source` is present iff the copyright's source is truthy, with its value |
| CoverUpgrade.TitleLifted | upgrades.js:58-60 | the title is the copyright's when that is truthy, and `Untitled Image` otherwise |
| CoverUpgrade.VersionLifted | upgrades.js:62-64 | `licenseVersion` is present iff the copyright's version is truthy, with its value |
| CoverUpgrade.YearLifted | upgrades.js:66-68 | `yearFrom` is present iff the year is truthy and `parseInt` reads a number from it, and is then that number |
| CoverUpgrade.DecimalYearLifted | upgrades.js:66-68 | a year written in decimal digits is lifted as that number |
| CoverUpgrade.FileStripped | upgrades.js:38-70 | `file` is embedded iff it is truthy; with a truthy copyright it keeps every field except `copyright`, and with a falsy one it is embedded as it is |
| CoverUpgrade.CoverMedium | upgrades.js:77-82 | `coverImage` and `coverAltText` are gone; `coverMedium` is the image made from them, with a version-4-shaped id, iff either is truthy, and is otherwise unchanged |
| CoverUpgrade.OthersKept | upgrades.js:13-92 | parameters without a book cover pass through unchanged; otherwise every other top-level key and every other cover field keeps its value |
| CoverUpgrade.MigrationKeepsDescription | upgrades.js:77-82 | the image migration does not touch the cover description |
| CoverUpgrade.Reports | upgrades.js:85-94 | step 6 throws iff the description is truthy and not a string (it has no `substr`), after the migration; otherwise it finishes with a null error and the same extras |
| CoverUpgrade.DescriptionCentred | upgrades.js:85-92 | `CentreDescription`: a falsy description is untouched; text not starting with `<p` is wrapped in a centred paragraph; in markup every `<p…>` tag becomes the centred tag while the text between tags is kept |
| CoverUpgrade.CentreDescriptionStable | upgrades.js:85-92 | centring markup that starts with `<p` a second time changes nothing (plain text is wrapped afresh each time, so the premise is needed) |
| CoverUpgrade.CentreKeepsOpening | upgrades.js:89-91 | markup starting with `<p` still starts with `<p` after the replacement |
| Paragraphs.RenderPieces | upgrades.js:90 | cutting a text into tags and single characters loses nothing |
| Paragraphs.CentrePieces | upgrades.js:90 | `CentreParagraphs`, the global replacement, replaces each `<p…>` match found by the left-to-right scan with the centred tag and keeps every other character in place |
| Paragraphs.CentreRendered | upgrades.js:90 | the replacement is the rendering of the centred pieces |
| Paragraphs.CentreIdempotent | upgrades.js:90 | replacing twice is replacing once |
| Paragraphs.NoCloseUnchanged | upgrades.js:90 | text without `>` has no match and is unchanged |
| Paragraphs.UnmatchedStaysUnmatched | upgrades.js:90 | a character the scan skips does not start a match in the output |
| SubContentId.HexDigit | upgrades.js:30 | `toString(16)` of a nibble is a lower-case hex digit whose value is the nibble |
| SubContentId.VariantNibbleValue | upgrades.js:29 | keeping the two low bits of the random value and setting bit 3 gives 8 plus the two low bits of the random value |
| SubContentId.TemplatePlaceholders | upgrades.js:28 | the template consumes 31 random values: 30 for `x` and one for `y` |
| SubContentId.GeneratedShape | upgrades.js:28-31 | every id `Generate` produces has the version 4 UUID shape: 36 characters, dashes at 8, 13, 18 and 23, `4` at 14, a variant digit from 8 to b at 19, and lower-case hex digits elsewhere |
| SubContentId.GeneratedRecordsRandom | upgrades.js:28-31 | the random values can be read back from the id, apart from the variant value, which is reduced to its variant digit |
| ParseInt.ParseIntDecimal | upgrades.js:66-67 | `parseInt` of a rendered integer followed by a non-digit gives that integer |
| ParseInt.ParseIntNumber | upgrades.js:66-67 | `ParseIntValue`, i.e. `parseInt` of a number property below 10^21 in magnitude gives the number |
| ParseInt.ParseIntLargeNumber | upgrades.js:66-67 | from 10^21 on, `String` writes a number in exponent form, so `parseInt` reads only its leading digit, with its sign (`1e21` gives 1) |
| ParseInt.ParseIntSkipsSpace | upgrades.js:66-67 | leading white space does not change `parseInt`'s result |
| ParseInt.DecimalValue | upgrades.js:66-67 | a decimal rendering read back in radix 10 is the number |
| Book.WithDescriptionKeeps | upgrades.js:85-92 | writing the cover description keeps every other parameter and every other cover field |
| TableUpgrade.Step | upgrades.js:96-150 | step 8 computes exactly its specification: it throws when there is no string description, and otherwise writes the new description |
| TableUpgrade.StyleTables | upgrades.js:97-146 | the source's loop over the in-place `tables` array builds exactly `NewDescription`, the specified new description |
| TableUpgrade.StyleTableAt | upgrades.js:101-143 | styling element `i` of the array in place writes its specified styled segment and leaves every other element alone |
| TableUpgrade.StyleTags | upgrades.js:115-142 | the loop over the cells split at a tag rebuilds the text with every cell styled |
| TableUpgrade.StyleSegment | upgrades.js:101-143 | one segment: the style chosen by `h5p-table`, the table tag, header cells and data cells styled when it mentions `border` |
| TableUpgrade.Reports | upgrades.js:96-149 | step 8 throws iff there is no string description, changing nothing; otherwise it finishes with a null error, the same extras and the new description |
| TableUpgrade.NoBorderUnchanged | upgrades.js:100-146 | a description none of whose tables mentions `border` is unchanged |
| TableUpgrade.PrefixKept | upgrades.js:97-98 | the text before the first `<table` has no `<table`, and both the old and the new description start with it |
| TableUpgrade.SegmentsKept | upgrades.js:97-146 | the new description is the old one's segments, in order, between the same `<table` tags, the first and every unbordered one kept and every bordered one only receiving inserted text |
| TableUpgrade.SubNewDescription | upgrades.js:96-148 | the new description only inserts text into the old one: deleting the inserted styles gives it back |
| TableUpgrade.StyledSegmentKeepsStyleAttr | upgrades.js:107-108 | a styled segment equals `style="` iff the segment did, so the in-place updates never change the answer of `tables.includes('style="')` |
| TableUpgrade.NewTableAttribute | upgrades.js:110-112 | when no array element is exactly `style="`, a bordered segment starts with the new style attribute |
| TableUpgrade.LoneTableStyled | upgrades.js:101-112 | in a description that is text without `<` (other than exactly `style="`) followed by a single bordered non-H5P table tag whose attributes contain no `<`, the tag gets the double border style attribute in front of its own attributes |
| TableUpgrade.TableStyleDuplicated | upgrades.js:104-111 | in a description that is text without `<` (other than exactly `style="`) followed by a single table tag whose attributes contain no `<`, mention `border` and already have a `style="`, `NewDescription` puts its style as a new attribute right after `<table`, in front of the tag's own `style="`, so the tag has two. The merge test is `includes` on the array, which looks for an element equal to `style="` |
| TableUpgrade.TableStyleMerged | upgrades.js:104-108 | when the text before such a table tag is exactly `style="`, that array element makes the merge test true, and the tag's own first `style="` is replaced by its style instead of a second attribute being added |
| TableUpgrade.StyledCellsGrows | upgrades.js:115-142 | styling the cells either leaves the text alone or lengthens it by at least 19 characters |
| TableUpgrade.TagFreeUntouched | upgrades.js:115-142 | text without `<` has no cell to style |
| Status.ChapterId | src/scripts/statusbar.js:107-119 | a chapter's element id is `h5p-interactive-book-chapter-` followed by its sub-content id |
| Status.SeqChapter | src/scripts/statusbar.js:99-123 | `GoTo` and the trigger: events carry the book id and `section: 'top'` iff `toTop`; `viewSummary` has no chapter; `newChapter` names a chapter element; other directions do nothing |
| Status.NextChapter | src/scripts/statusbar.js:107-110 | `next` inside the book triggers `newChapter` for the following chapter |
| Status.NextAtEnd | src/scripts/statusbar.js:111-113 | `next` on the last chapter triggers `viewSummary` iff the book has a summary, and otherwise nothing |
| Status.PrevChapter | src/scripts/statusbar.js:115-119 | `prev` triggers `newChapter` for the preceding chapter iff there is one, and never `viewSummary` |
| Status.PrevUndoesNext | src/scripts/statusbar.js:107-119 | from the chapter `next` went to, `prev` names the chapter it came from |
| Status.DisabledMeansNoMove | src/scripts/statusbar.js:169-180 | with the total equal to the chapter count, an arrow is disabled iff its request would not move to another chapter |
| Status.Merge | src/scripts/statusbar.js:12-21 | the merged texts have the keys of both maps, each given text overriding its default |
| Status.ProgressFilled | src/scripts/statusbar.js:144-148 | `ProgressText`: in a template whose text before each placeholder has no `@`, `@page` and `@total` are replaced by the page and the total |
| Status.ProgressFilledTotalFirst | src/scripts/statusbar.js:144-148 | a template that names `@total` before `@page` still gets each number in its place (`@total / @page` gives `10 / 3`) |
| Status.DefaultProgress | src/scripts/statusbar.js:18-21 | the default template reads `Page N of T` |
| Status.ProgressWithoutPlaceholders | src/scripts/statusbar.js:135-137 | a template mentioning neither `@page` nor `@total` is shown as it is |
| Status.StatusBar.constructor | src/scripts/statusbar.js:5-23 | the `l10n` and `a11y` texts are the given ones merged over the defaults, and both buttons start enabled |
| Status.StatusBar.SetButtonStatus | src/scripts/statusbar.js:361-368 | the target button becomes disabled iff `disable`, and the other keeps its state |
| Status.StatusBar.UpdateStatusBar | src/scripts/statusbar.js:154-181 | throws iff there is no active chapter, changing nothing; otherwise it shows the page number, the progress text and the title, with Previous disabled iff on the first chapter and Next iff on or past the last |

## Left out

- `Math.random` is not modelled as a source of randomness. The 31 random hex digits that step 6 draws are a parameter, `rs`.
- The H5P core's upgrade runner is not modelled. Which major versions it visits, and how it stores results, are outside the model; only the ordered fold over the registered minor versions is modelled.
- `cover.js` is not part of this model.
- The DOM is not modelled: building elements, classes, attributes, `innerHTML`, fullscreen handling and the menu toggle. The status bar keeps the displayed texts and the disabled flags as plain fields.
- The progress bar width is floating-point percentage arithmetic and is not modelled.
- `EventDispatcher`: triggering an event is modelled as the `Navigation` value the handler produces, not as dispatch to listeners.
- Aliasing is not modelled. `coverImage` and the new image's `file` are one object, and so are the caller's `params` and the status bar's copy. Step 6 is modelled on values, so the deletion of `copyright` from the shared file object is seen only through the new image.
- Arrays and other non-object values as `bookCover` or as a copyright are modelled as not having the keys looked up. JavaScript would read array properties the same way, so the outcome agrees.
- Status.StatusBar.constructor: the TypeError when `params` is undefined (`params.l10n` is read on the raw argument) is not modelled; the constructor takes the texts directly.
- Status.StatusBar.constructor: `H5P.Components.Button` is not part of this model. The buttons it builds are assumed to start enabled, with no `disabled` attribute, so both disabled flags start false.
- Status.Merge: only string-valued texts are modelled.
- Status.StatusBar.UpdateStatusBar: `getActiveChapter()` is taken to be `activeChapter`, which the book keeps in step.
- TableUpgrade.SegmentsKept: it does not prove that the number of `<table`, `<th` and `<td` tags stays the same. It proves that text is only inserted and that the segments keep their order.
- Status.ProgressFilled: `$` patterns in `String.prototype.replace` replacements are not modelled. The replacements here are decimal numbers, which contain no `$`.
- ParseInt.ParseIntNumber: JSON numbers are modelled as integers. A number with a fraction (a year of 2019.5, which `parseInt` reads as 2019) cannot be represented. Below 10^21 `String(n)` is plain decimal; from 10^21 on it is the exponent form, which ParseInt.ParseIntLargeNumber covers.
- ParseInt.ParseIntLargeNumber: the exponent form is built from the exact digits of the integer. A double's shortest rendering can round into the leading digit, and that rounding is not modelled: the double nearest 10^23 is written `1e+23`, while its exact digits start with 9.
- ParseInt.ParseIntDecimal: the result is the exact integer the digits denote. JavaScript rounds a result above 2^53 to the nearest double, and that rounding is not modelled.
- ParseInt.ParseIntDecimal: `parseInt` is modelled on strings and numbers; other values (arrays, objects) are treated as giving NaN, without `toString` conversion.

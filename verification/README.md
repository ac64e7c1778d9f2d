# Translation validator and form logic of the Collab site, in Dafny

This project models the parts of the site that decide things, as pure functions over immutable data. Each part comes with proofs of what it promises. There are four parts.

* **The translation validator** is the build script that keeps every locale file in step with the English one. It flattens each parsed JSON document into dot-joined leaf paths (`getAllKeys`). It then diffs every locale's keys against `en.json` and builds the sorted missing and extra lists, the coverage, a per-locale status, the printed rows and the summary. Finally it chooses the exit code. The module `Flatten` holds the walk and `Reconcile` holds the run. `Reconcile` gives the run twice: once as a pure function `Validate` and once as the loop `CompareLocales`/`ValidateTranslations`, which is proved equal to it.
* **The contact form** (`Contact`) covers the form state, `handleChange`, the validation schema and the order of its issues, the normalised record that is inserted, and the state after a submission.
* **The waitlist dialog** (`Waitlist`) covers the star rating and the join procedure:
  * a blank-field check;
  * an email check on the trimmed address;
  * a duplicate lookup on the normalised email and the project;
  * the insert.

  Over any sequence of submissions, a table that starts without duplicates keeps that property: no two rows ever share an email and a project.
* **The portal** (`Portal`) covers the status badge, the default four-step roadmap, opening and closing a submission, and adding a comment.

Two shared modules support them:

* `Text` gives JavaScript's string primitives over Dafny strings: `trim`, `toLowerCase`, `.length` in UTF-16 code units, and the default `sort` order over UTF-16 code units. It also has an insertion sort, proved to be the only ascending permutation.
* `Optional` gives the nullable values.

Anything the code gets from outside is a parameter:

* the directory listing and the result of `JSON.parse` for each file;
* the email validator;
* whether a backend lookup or insert returns an error;
* the current table contents.

## Model

| member | source | states |
|---|---|---|
| Flatten.GetAllKeys | build-tools/validate-translations.mjs:34-45 | under a non-empty prefix, every key produced starts with that prefix followed by a dot |
| Flatten.GetAllKeysAppend | build-tools/validate-translations.mjs:36-44 | the walk over a concatenation of entries is the concatenation of the walks, so keys keep `for...in` order |
| Flatten.KeyFromEntry | build-tools/validate-translations.mjs:36-43 | a key is produced exactly when one entry produces it, either as its own path or under its object |
| Flatten.KeysAreLeafPaths | build-tools/validate-translations.mjs:34-45 | soundness: every key is the dot-joined path of existing keys that leads to a value that is not an object |
| Flatten.LeafPathsAreKeys | build-tools/validate-translations.mjs:34-45 | completeness: the path of every such leaf is among the keys |
| Flatten.KeyCountIsLeafCount | build-tools/validate-translations.mjs:34-45 | the walk yields exactly one key per leaf, whatever the prefix |
| Flatten.EmptyObjectContributesNothing | build-tools/validate-translations.mjs:38-39 | an entry whose value is `{}` can be removed without changing the keys |
| Flatten.NonObjectContributesItsPath | build-tools/validate-translations.mjs:38-42 | an array, `null` or scalar contributes exactly its own path and is never descended into |
| Flatten.ObjectContributesItsWalk | build-tools/validate-translations.mjs:38-39 | a nested object contributes, in its place, exactly the walk of its own entries under its path |
| Flatten.DottedKeyCollides | build-tools/validate-translations.mjs:37 | a document with distinct keys (`"a.b"` next to `a: {b}`) yields the same key twice, so the result is a list and not a set |
| Flatten.EmptyKeyIsTransparent | build-tools/validate-translations.mjs:37 | an empty key leaves the prefix falsy, so its children surface at the top level without a dot |
| Text.Trim | src/components/sections/SubmitSection.tsx:67 | `trim` returns the infix of its input left after removing the whitespace at both ends: everything before it and after it is whitespace, its own ends are not, and it is empty exactly for all-whitespace input |
| Text.TrimIdempotent | src/components/sections/SubmitSection.tsx:67 | trimming twice is trimming once |
| Text.TrimOrNull | src/components/sections/SubmitSection.tsx:69-70 | `s.trim() \|\| null` is null exactly for blank text, and otherwise a non-empty text that trimming leaves unchanged |
| Text.ToLower | src/components/sections/SubmitSection.tsx:68 | `toLowerCase` on ASCII: the result has the same length, no capital A-Z is left, each capital becomes its small letter and every other character is unchanged; its partners are `ToLowerIdempotent` and `TrimToLower` |
| Text.ToLowerIdempotent | src/components/sections/SubmitSection.tsx:68 | lower-casing twice is lower-casing once |
| Text.TrimToLower | src/components/WaitlistModal.tsx:58 | trimming and lower-casing commute |
| Text.Utf16Length | src/components/sections/SubmitSection.tsx:8 | `.length` counts between one and two units per character and is zero only for the empty string |
| Text.Utf16LengthAppend | src/components/sections/SubmitSection.tsx:8 | `.length` of a concatenation is the sum of the lengths, and one character counts two units exactly when it lies above the Basic Multilingual Plane |
| Text.Utf16LengthBmp | src/components/sections/SubmitSection.tsx:13 | for text within the Basic Multilingual Plane, `.length` is the number of characters |
| Text.StrLeqReflexive | build-tools/validate-translations.mjs:68 | every string is ordered before or equal to itself |
| Text.StrLeqTotal | build-tools/validate-translations.mjs:68 | the default sort order relates any two strings |
| Text.StrLeqAntisymmetric | build-tools/validate-translations.mjs:68 | two strings that precede each other are equal |
| Text.StrLeqTransitive | build-tools/validate-translations.mjs:68 | the default sort order is transitive |
| Text.Sort | build-tools/validate-translations.mjs:68 | the sorted keys are ascending and a permutation of the input |
| Text.SortedPermutationUnique | build-tools/validate-translations.mjs:68 | two ascending permutations of the same keys are equal, so any correct sort gives `Sort`'s result |
| Text.SortIsTheSortedPermutation | build-tools/validate-translations.mjs:81 | any ascending permutation of a list equals `Sort` of it |
| Text.Without | build-tools/validate-translations.mjs:83-84 | `xs.filter(k => !ys.includes(k))` holds exactly the members of `xs` that are not in `ys`, is empty exactly when `xs` is contained in `ys`, and stays ascending |
| Text.WithoutKeepsRepeats | build-tools/validate-translations.mjs:83-84 | the filter keeps every occurrence: a key not in `ys` occurs in the result as often as in `xs`, and a key in `ys` not at all |
| Reconcile.JsonFiles | build-tools/validate-translations.mjs:51 | the locale files are exactly the listed entries whose names end in `.json` |
| Reconcile.JsonFilesAppend | build-tools/validate-translations.mjs:51 | the filter keeps listing order: it distributes over concatenation and keeps a single entry exactly when its name ends in `.json` |
| Reconcile.OthersMembers | build-tools/validate-translations.mjs:76-77 | the compared files are exactly the `.json` files other than `en.json`, so the base is never compared with itself |
| Reconcile.OthersAppend | build-tools/validate-translations.mjs:76-77 | the files compared keep listing order: skipping `en.json` distributes over concatenation |
| Reconcile.Others | build-tools/validate-translations.mjs:76-77 | the loop's skip of `en.json`; what it keeps is stated by `OthersMembers` (which files) and `OthersAppend` (their order) |
| Reconcile.Find | build-tools/validate-translations.mjs:61-62 | the base is found exactly when a file named `en.json` is listed, and then it is such a file |
| Reconcile.IndexOf | build-tools/validate-translations.mjs:79 | the position found holds the pattern, and no earlier position does |
| Reconcile.LocaleId | build-tools/validate-translations.mjs:79 | `file.replace('.json', '')`; stated by `LocaleIdStripsExtension` and `LocaleIdRemovesFirstOccurrence` |
| Reconcile.LocaleIdStripsExtension | build-tools/validate-translations.mjs:79 | a name whose only `.json` is its suffix loses exactly that suffix |
| Reconcile.LocaleIdRemovesFirstOccurrence | build-tools/validate-translations.mjs:79 | `replace` removes the first `.json`, so `a.json.json` becomes the locale `a.json` |
| Reconcile.SortedKeys | build-tools/validate-translations.mjs:68 | the sorted keys are ascending, and have the same members and the same length as the walk's keys |
| Reconcile.CoverageOf | build-tools/validate-translations.mjs:91 | coverage is the ratio 100·locale/base when the base has keys, otherwise `Infinity`, or `NaN` for 0/0 |
| Reconcile.CompareLocale | build-tools/validate-translations.mjs:79-92 | a result is ascending, its missing keys are the base keys the locale lacks, its extra keys are the locale keys the base lacks, and `totalKeys` counts the locale's keys with repeats |
| Reconcile.CompareLocaleCounts | build-tools/validate-translations.mjs:83-84 | the listings keep repeats: a missing key occurs as often as in the base, an extra key as often as in the locale |
| Reconcile.MissingExtraPartition | build-tools/validate-translations.mjs:83-84 | missing and extra are disjoint, and they split each key set into the shared keys plus that side's surplus |
| Reconcile.StatusOf | build-tools/validate-translations.mjs:105 | the status is OK exactly when both the missing and the extra list are empty |
| Reconcile.StatusOkIffSameKeySet | build-tools/validate-translations.mjs:105 | a locale is OK exactly when its key set equals the base's key set |
| Reconcile.FullCoverageWhenOk | build-tools/validate-translations.mjs:91 | with no repeated keys, an OK locale has coverage exactly 100% |
| Reconcile.OkAtHalfCoverage | build-tools/validate-translations.mjs:81-91 | when the base repeats a key, a locale can be OK at 50% coverage |
| Reconcile.FirstUnparsable | build-tools/validate-translations.mjs:80 | there is an unparsable file to name exactly when some compared file fails to parse |
| Reconcile.CompareAll | build-tools/validate-translations.mjs:76-97 | the comparison yields reports exactly when every compared file parses, one report per file |
| Reconcile.CompareAllReport | build-tools/validate-translations.mjs:86-92 | report `i` is the comparison of file `i` with the base |
| Reconcile.CompareAllFirstFailure | build-tools/validate-translations.mjs:80 | an unparsable file stops the run, which names the first such file |
| Reconcile.CompareAllAppend | build-tools/validate-translations.mjs:76-97 | comparing a concatenation concatenates the reports, and a failure in the second part is reported unchanged |
| Reconcile.AnyErrors | build-tools/validate-translations.mjs:94-96 | `hasErrors` holds exactly when some report has status ERRORS |
| Reconcile.Validate | build-tools/validate-translations.mjs:47-97 | each fatal outcome happens exactly under its condition: unreadable directory, no `.json` file, no `en.json` |
| Reconcile.ReportCoversOtherLocales | build-tools/validate-translations.mjs:68-92 | a report counts the base's keys and holds one result per non-base `.json` file in listing order, each the comparison of that file with the base |
| Reconcile.ReportReached | build-tools/validate-translations.mjs:51-97 | the report is reached exactly when the directory holds a parsable `en.json` and every other `.json` file parses |
| Reconcile.ExitCodeZeroIff | build-tools/validate-translations.mjs:144-153 | the exit code is 0 exactly when the base is present and parses, and every other locale parses with the base's key set |
| Reconcile.ExitCode | build-tools/validate-translations.mjs:144-153 | the exit code is 0 or 1, and 0 exactly for a report without errors |
| Reconcile.AllSameKeysExitZero | build-tools/validate-translations.mjs:144-153 | when every locale parses and has the base's key set, the run exits 0 |
| Reconcile.ExitZeroAllSameKeys | build-tools/validate-translations.mjs:144-153 | conversely, exit 0 implies that the base was found and parsed, and that every other locale has its key set |
| Reconcile.DistinctCardinality | build-tools/validate-translations.mjs:91 | a key list without repeats has as many distinct keys as entries, which is what makes 100% coverage coincide with OK |
| Reconcile.FatalRunsExitOne | build-tools/validate-translations.mjs:53-65 | every fatal path exits 1 |
| Reconcile.Truncate | build-tools/validate-translations.mjs:112-130 | the listing counts all keys and shows the first ones in order: all of them when there are at most five, otherwise exactly the first five followed by `... and n more` with n the number left out |
| Reconcile.RowOf | build-tools/validate-translations.mjs:104-130 | a row carries the report's locale, key count and coverage, and its status; it lists missing keys exactly when some are missing and extra keys exactly when some are extra, each as the truncated listing |
| Reconcile.CountOk | build-tools/validate-translations.mjs:137 | the valid count is at most the total, and equals it exactly when every locale is OK |
| Reconcile.CountOkIsValidCount | build-tools/validate-translations.mjs:137 | the valid count equals the number of positions whose report is OK |
| Reconcile.Summarize | build-tools/validate-translations.mjs:136-142 | the valid count is the number of reports whose status is OK, valid plus with-errors equals the total number of compared locales, and with-errors is 0 exactly when no locale has errors |
| Reconcile.AnyErrorsSnoc | build-tools/validate-translations.mjs:94-96 | raising the flag on one more report is the flag over the longer list |
| Reconcile.LoopStep | build-tools/validate-translations.mjs:76-97 | one iteration skips `en.json`, appends the report of a parsed file, or ends the run at an unparsable file |
| Reconcile.CompareLocales | build-tools/validate-translations.mjs:72-97 | the loop computes the comparison of all non-base files, and its `hasErrors` matches the reports |
| Reconcile.ValidateTranslations | build-tools/validate-translations.mjs:47-97 | the step-by-step run returns the same outcome as `Validate` |
| Contact.ParseInquiryType | src/components/sections/SubmitSection.tsx:12 | an accepted inquiry type is the name of the type returned |
| Contact.ParseInquiryTypeIff | src/components/sections/SubmitSection.tsx:12 | the enum accepts a string exactly when it names one of the three types, and names are distinct |
| Contact.ParseInquiryName | src/components/sections/SubmitSection.tsx:12 | each type's name parses back to that type |
| Contact.HandleChange | src/components/sections/SubmitSection.tsx:44-49 | the named field takes the value and every other field is unchanged; an unknown name changes nothing the form reads |
| Contact.HandleChangeOverwrites | src/components/sections/SubmitSection.tsx:44-49 | two changes to one field keep the last value |
| Contact.HandleChangeCommutes | src/components/sections/SubmitSection.tsx:44-49 | changes to different fields commute |
| Contact.SelectInquiryType | src/components/sections/SubmitSection.tsx:167-176 | a type button makes the inquiry type valid and changes no other field |
| Contact.Issues | src/components/sections/SubmitSection.tsx:7-14 | the issues are exactly the failing checks |
| Contact.IssuesEmptyIffAccepted | src/components/sections/SubmitSection.tsx:7-14 | a form has no issue exactly when all hold: name length 1-100, email valid, designation and organization at most 100, inquiry type in the enum, message length 10-2000 |
| Contact.FailingKeepsOrder | src/components/sections/SubmitSection.tsx:7-14 | the issues are reported in schema order |
| Contact.FirstIssueIsEarliest | src/components/sections/SubmitSection.tsx:80-82 | the issue reported is the earliest failing check, and every check before it passes |
| Contact.ToRecord | src/components/sections/SubmitSection.tsx:66-73 | the stored name and message are the trimmed fields and the email the trimmed, lower-cased field; designation and organization are null exactly when blank, and otherwise the trimmed fields |
| Contact.ToRecordNormalises | src/components/sections/SubmitSection.tsx:66-73 | trimming every field of a form, and lower-casing its email, beforehand stores the same record: the record depends on the fields only through that normal form |
| Contact.HandleSubmit | src/components/sections/SubmitSection.tsx:51-92 | submitting always ends false. An invalid form reports its first issue. A failure changes neither the form nor the table. A success appends the record, resets the form and shows the message for the form's type |
| Contact.SuccessMessage | src/components/sections/SubmitSection.tsx:55-59 | the success toast text for each inquiry type; `HandleSubmit` states that a success shows the one for the form's type |
| Contact.EmptyFormRejected | src/components/sections/SubmitSection.tsx:21-28 | the initial form is rejected on its name |
| Contact.EmptyForm | src/components/sections/SubmitSection.tsx:21-28 | the initial form, also set after a success, has the inquiry type `problem` and every other field empty |
| Contact.BlankNamePasses | src/components/sections/SubmitSection.tsx:8 | the name bounds apply to the raw text: a name of one space passes and is stored empty |
| Contact.BlankMessagePasses | src/components/sections/SubmitSection.tsx:13 | ten spaces pass the message bounds and are stored as an empty message |
| Waitlist.ClickStar | src/components/WaitlistModal.tsx:239 | a click sets the rating to the star and keeps the ratings within 0-5 |
| Waitlist.HoverStar | src/components/WaitlistModal.tsx:240 | hovering sets the hovered star and keeps the ratings within 0-5 |
| Waitlist.LeaveStar | src/components/WaitlistModal.tsx:241 | leaving clears the hovered star |
| Waitlist.Stars | src/components/WaitlistModal.tsx:235-247 | star i is filled exactly when i is at most the hovered star, or the rating when nothing is hovered |
| Waitlist.StarsArePrefix | src/components/WaitlistModal.tsx:247 | the filled stars form a prefix as long as the value shown |
| Waitlist.Shown | src/components/WaitlistModal.tsx:247 | the value shown is the hovered star when there is one, otherwise the rating, and at most five |
| Waitlist.Highlighted | src/components/WaitlistModal.tsx:247 | a star is lit exactly when it is at most the hovered star, or at most the rating when nothing is hovered |
| Waitlist.HoverThenLeave | src/components/WaitlistModal.tsx:240-247 | hovering previews a star, and leaving restores what the rating shows |
| Waitlist.NormalEmailIsNormal | src/components/WaitlistModal.tsx:58 | the normalised email is a fixpoint of trimming and lower-casing |
| Waitlist.NormalEmail | src/components/WaitlistModal.tsx:58 | the key used for the lookup and the stored row is the email lower-cased then trimmed, which is the same as trimmed then lower-cased; under the ASCII lower-casing modelled it is never longer than the input |
| Waitlist.MatchCount | src/components/WaitlistModal.tsx:55-60 | the lookup selects at most the whole table, and no row exactly when no row has the email and the project |
| Waitlist.MatchCountIsMatchingRows | src/components/WaitlistModal.tsx:55-60 | the lookup's row count is the number of positions holding the normalised email and the project |
| Waitlist.NoDuplicatesAtMostOne | src/components/WaitlistModal.tsx:60 | a table without duplicates never gives `maybeSingle` more than one row |
| Waitlist.NewEntry | src/components/WaitlistModal.tsx:77-84 | the row has the trimmed name and the normalised email. `idea_rating` is the rating when positive and null otherwise. The comment is null when blank, and the trimmed text otherwise |
| Waitlist.NewEntryIsNormalised | src/components/WaitlistModal.tsx:80-83 | every stored text is unchanged by trimming, and the email by lower-casing |
| Waitlist.HandleSubmit | src/components/WaitlistModal.tsx:29-113 | a blank name or email gives Missing Information. Otherwise an email invalid once trimmed gives Invalid Email. For a valid form, Failed happens exactly when the lookup errors, finds more than one row, or finds none and the insert errors. Already Joined needs exactly one matching row. A join needs none and two working calls, appends the new row and marks success. Every other outcome changes nothing |
| Waitlist.JoinedUnlessPresent | src/components/WaitlistModal.tsx:55-86 | with a working backend, a valid submission joins exactly when no row matches, and is already joined exactly when one does |
| Waitlist.HandleSubmitKeepsNoDuplicates | src/components/WaitlistModal.tsx:55-86 | a submission never creates a second row for the same email and project |
| Waitlist.SecondSubmissionAlreadyJoined | src/components/WaitlistModal.tsx:64-72 | repeating a successful submission gives Already Joined |
| Waitlist.RunAllKeepsNoDuplicates | src/components/WaitlistModal.tsx:55-86 | in sequential use, no two rows ever share an email and a project |
| Waitlist.AfterSuccessDelay | src/components/WaitlistModal.tsx:94-101 | the delayed reset clears the inputs and the rating and closes the success view; with no star hovered and nothing submitting, the dialog is back in its initial state |
| Waitlist.InitialModal | src/components/WaitlistModal.tsx:18-24 | the dialog first opens with empty inputs, no star chosen or lit, and neither submitting nor succeeded |
| Portal.DisplayStatus | src/pages/Portal.tsx:189 | the badge is never empty: it shows the status when one is set and non-empty, and "Analyzing" when it is absent or empty |
| Portal.DefaultRoadmap | src/pages/Portal.tsx:224-228 | four steps. Initial Analysis is always done. Feasibility is done unless the status is Analyzing. Prototype is done when In Progress or Resolved. Launch is done only when Resolved |
| Portal.Roadmap | src/pages/Portal.tsx:224-228 | supplied milestones are shown as given; without them the default roadmap of the submission's status is shown |
| Portal.RoadmapShape | src/pages/Portal.tsx:224-229 | supplied milestones are shown as given, an empty list included; otherwise there are four steps, the first done and the done ones first |
| Portal.DefaultRoadmapIsPrefix | src/pages/Portal.tsx:225-228 | for every status, no completed step follows an incomplete one |
| Portal.DefaultRoadmapProgress | src/pages/Portal.tsx:225-228 | the number of completed steps is 1 when Analyzing, 3 when In Progress, 4 when Resolved, and 2 for any other or absent status |
| Portal.AbsentStatusShownAnalyzingButPastIt | src/pages/Portal.tsx:189-226 | a submission without a status shows "Analyzing", yet its feasibility step counts as done |
| Portal.CommentsFor | src/pages/Portal.tsx:64-72 | the fetched comments are exactly the table's comments on that submission |
| Portal.CommentsForAppend | src/pages/Portal.tsx:64-72 | the fetch keeps creation order: it distributes over concatenation and keeps a single comment exactly when it belongs to the submission |
| Portal.LoadComments | src/pages/Portal.tsx:64-72 | a fetch that returns data replaces the list with the submission's comments in creation order; one that returns none leaves the list, the selection and the draft as they were |
| Portal.ClickSubmission | src/pages/Portal.tsx:168-170 | a click closes the open submission when it is the one clicked, otherwise opens the clicked one and fetches its comments; the list becomes that submission's comments when the fetch returns data and stays as it was otherwise; the draft is untouched |
| Portal.ClickTwiceCloses | src/pages/Portal.tsx:168-170 | clicking one header twice opens and then closes it |
| Portal.ClickOtherSwitches | src/pages/Portal.tsx:168-170 | clicking another header switches to it, and loads its comments when that fetch succeeds |
| Portal.FailedFetchShowsStaleComments | src/pages/Portal.tsx:64-72 | when the fetch for a newly opened submission fails, it is shown with the comments of the submission opened before it |
| Portal.AddComment | src/pages/Portal.tsx:64-92 | blank text or no selection is a no-op. A failed insert changes nothing. A success stores the trimmed text for the open submission and the user and clears the draft; the reload replaces the list when it returns data and leaves it otherwise |
| Portal.AddedCommentShownLast | src/pages/Portal.tsx:79-89 | after a success whose reload returns data, the list is the earlier comments followed by the new, non-empty one |
| Portal.StoredContentIsTrimmed | src/pages/Portal.tsx:82 | a stored comment is non-empty, already trimmed, and belongs to the open submission |

## Left out

- Text.ToLower: lower-cases only the ASCII letters A-Z. JavaScript's `toLowerCase` also maps the rest of Unicode, and some of those mappings change the length (U+0130 becomes two code units), so clauses about lengths after lower-casing hold only for the ASCII mapping.
- Waitlist.NormalEmail: the clause that the key is never longer than the input holds only under the ASCII lower-casing. In JavaScript an address containing U+0130 gives a longer key.
- A locale document is modelled as the entry list of a top-level JSON object. A file whose top-level value is an array, a string or `null` is not modelled.
- JSON values below the object level are shapes only (leaf, array, `null`, object), because the walk never reads scalar values.
- `toFixed(2)` formatting and the float division of the coverage are left out. Coverage is the exact ratio, plus `Infinity` and `NaN` for a base without keys.
- Colours, console output and the printed text of the report are left out. The printed report is modelled as rows, key listings and a summary.
- `process.exit` is modelled as `ExitCode` of the run's outcome. A thrown exception (unreadable directory, or `JSON.parse` failing on any file) is the fatal outcome the `catch` block turns into exit 1.
- File reads are modelled by the `parsed` field of each listed file.
- The email check of the validation library is a parameter `isEmail`.
- Toast texts are left out. The model records which toast appears (the first issue, a waitlist `Outcome`, a `CommentToast`), not its words. There are two exceptions in the contact form: the success message, which depends on the inquiry type, and the failure message, which `HandleSubmit` states.
- Backend lookups and inserts (Supabase) are modelled as a table value plus a flag saying whether the call returns an error. A comment fetch is the table filtered by submission, plus a flag `fetchFails` for a fetch that returns no data, which leaves the list on screen as it was. Server-side ordering is taken to be creation order. Authentication and the user record are out of scope, and a signed-in user is assumed.
- Portal.ClickSubmission: the model completes each comment fetch before the next event. In the page the fetch is not awaited, so two fetches started by quick clicks can finish out of order and leave the list of the earlier submission on screen.
- Portal.AddComment: the same holds for the reload after an insert, which is not awaited and can finish after a fetch started by a later click.
- The race between the waitlist's duplicate lookup and its insert is left out, because the model runs submissions one after another.
- `setTimeout`, `onClose`, toast rendering, routing, animation and every other component are presentation and are not modelled. `AfterSuccessDelay` is the state change the timer makes.
- The rating captions under the stars are presentation and are not modelled.
- The browser's own `required` and `type="email"` checks on the inputs (src/components/sections/SubmitSection.tsx:226, 248, 257, 360 and src/components/WaitlistModal.tsx:199, 208, 213) are left out. In a browser they stop an empty or malformed form before `handleSubmit` runs. The handlers are modelled on every input, including those the browser would not let through.
- `isSubmitting` is modelled only where it ends: every contact submission ends with it false. The waitlist's intermediate `true` is not observable in a sequential model.

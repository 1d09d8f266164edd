# Word converter workflow, in Dafny

This project models the one piece of logic in the `WordConverter` page
(`app/page.tsx`): a small state machine that lets a user drop or pick a Word
document, choose one of seven output formats, confirm a file name, wait for a
simulated conversion and download the result under a derived name.

- `jsstring.dfy` (`JsString`): the JavaScript string operations the page relies
  on: `includes`, `endsWith` and `trim` (with ECMAScript's WhiteSpace and
  LineTerminator characters).
- `basename.dfy` (`BaseName`): the default output name,
  `name.replace(/\.[^/.]+$/, "")`, computed by a scan from the end and proved
  equal to the regular expression's leftmost-match replacement.
- `formats.dfy` (`Formats`): the seven-row format table and the
  `find`-by-value lookup that yields a download extension.
- `converter.dfy` (`Converter`): the six `useState` cells as a `State`
  datatype, every event handler as a pure function, the download and preview
  names, and the button guards.
- `workflow.dfy` (`Workflow`): user actions and the conversion timer as events.
  The `await` in `handleConversion` splits it into `Start` and a later `Timer`
  event; a `Session` counts the suspended timers. `Enabled` says which events
  the rendered buttons allow. Every trace of enabled events keeps an invariant,
  so the page is never converting and complete at once.
- `wrappers.dfy` (`Wrappers`): `Option` and `Result`.

Three behaviours of the code worth noting:
- Selecting a file keeps the chosen format, the converting flag and the dialog
  flag (app/page.tsx:42-47).
- `resetConverter` leaves `isConverting` and `showNameDialog` unchanged
  (app/page.tsx:102-110).
- A timer still pending after a reset still marks the cleared state as
  complete (app/page.tsx:80-83; `Workflow.TimerSurvivesReset`).

## Model

| member | source | states |
|---|---|---|
| `JsString.Includes` | app/page.tsx:53 | `type.includes("word")` is true exactly when "word" occurs at some offset of the type |
| `JsString.EndsWith` | app/page.tsx:54-55 | `name.endsWith(suffix)`: the suffix fits and the name's last characters are the suffix |
| `JsString.EndsWithIsSuffix` | app/page.tsx:54-55 | `name.endsWith(suffix)` holds exactly when the name is some string followed by the suffix |
| `JsString.LeadingBlanks` | app/page.tsx:74 | the number of whitespace characters a name starts with: all of those are whitespace, and the next one, if any, is not |
| `JsString.TrailingBlanks` | app/page.tsx:74 | the number of whitespace characters a name ends with: all of those are whitespace, and the one before them, if any, is not |
| `JsString.TrimStart` | app/page.tsx:74 | leading whitespace removed: the result is a suffix whose cut-off part is blank and whose first character is not whitespace |
| `JsString.TrimEnd` | app/page.tsx:74 | trailing whitespace removed: the result is a prefix whose cut-off part is blank and whose last character is not whitespace |
| `JsString.Trim` | app/page.tsx:74 | `fileName.trim()` is empty exactly when the name is blank; a non-empty result starts and ends with non-whitespace |
| `JsString.TrimIsInfix` | app/page.tsx:74 | what `trim` keeps is the infix of the name that starts where `trimStart` stops, with only whitespace on both sides |
| `BaseName.TrailingRun` | app/page.tsx:45 | length of the longest final run of characters from `[^/.]`: every character in it is in the class, and the one before it is not |
| `BaseName.StripExtension` | app/page.tsx:45 | the base name is a prefix of the file name; it differs exactly when `\.[^/.]+$` matches, and then what is cut off is exactly that match |
| `BaseName.MatchUnique` | app/page.tsx:45 | `\.[^/.]+$` matches a name at most at one offset |
| `BaseName.StripIsRegexReplace` | app/page.tsx:45 | on every name, the base name equals the result of `replace` with the regular expression (cut the leftmost match, or leave the name alone) |
| `BaseName.StripKnownExtension` | app/page.tsx:45 | a name ending in `.` plus a non-empty run of extension characters loses exactly that ending |
| `BaseName.DirectoryDot` | app/page.tsx:45 | when a `/` follows the last dot, the name is unchanged |
| `BaseName.StrippedNames` | app/page.tsx:45 | `report.docx` gives `report`, and `a.tar.gz` gives `a.tar`: only the last extension goes |
| `BaseName.UnchangedNames` | app/page.tsx:45 | `x.`, `noext` and `v1.0/readme` are unchanged; `.docx` becomes empty |
| `Formats.Find` | app/page.tsx:87 | `find` on `value` gives nothing exactly when no row has the value, and otherwise the first row that has it |
| `Formats.ExtensionFor` | app/page.tsx:87-88 | the extension found for the format (empty when the lookup fails) is the matching row's extension, and is empty exactly when the value is not in the table |
| `Formats.TableShape` | app/page.tsx:32-40 | seven rows with distinct values and distinct extensions, each extension a dot and at least one more character |
| `Formats.ExtensionsOfTable` | app/page.tsx:32-40 | each of the seven values maps to its literal extension (`markdown` to `.md`); `md` and the empty value map to nothing |
| `Converter.SelectFile` | app/page.tsx:42-47 | sets the file and clears completion; the name is a prefix of the file's name, shorter exactly when it has an extension, and then short by exactly the regex match; format, converting flag and dialog unchanged |
| `Converter.IsWordFile` | app/page.tsx:52-55 | the drop filter on a present file: its declared type includes "word", or its name ends with ".docx" or ".doc" |
| `Converter.WordFilterMeaning` | app/page.tsx:52-55 | the drop filter holds exactly when "word" occurs in the declared type or the name is something followed by ".docx" or ".doc" |
| `Converter.BeginShown` | app/page.tsx:216 | "Begin Conversion" is rendered only while no conversion has completed |
| `Converter.BeginDisabled` | app/page.tsx:219 | "Begin Conversion" is disabled without a file, without a format, or while a conversion runs |
| `Converter.Drop` | app/page.tsx:52-58 | a dropped file is selected when its type contains "word" or its name ends in ".docx" or ".doc", and ignored otherwise |
| `Converter.HandleDrop` | app/page.tsx:49-59 | a drop without files throws (the filter reads `name` of `undefined`); any other drop is handled by the filter on its first file |
| `Converter.HandleDropIntended` | app/page.tsx:52-55 | the guarded filter: a drop without files leaves the state alone; any other drop is handled by the filter on its first file |
| `Converter.EmptyDropThrows` | app/page.tsx:52-55 | an empty drop throws as written and is a no-op when guarded; whenever the written handler does not throw, both agree |
| `Converter.WordMimeTypesAccepted` | app/page.tsx:52-53 | files declared `application/msword` or the OOXML word-processing type pass the drop filter whatever their name |
| `Converter.FileInput` | app/page.tsx:61-66 | a null or empty `files` list changes nothing; otherwise the first file is selected, whatever its type |
| `Converter.ChooseFormat` | app/page.tsx:193 | the selector sets the format and no other cell |
| `Converter.EditName` | app/page.tsx:275 | typing in the dialog sets the name and no other cell |
| `Converter.DismissDialog` | app/page.tsx:259-287 | Cancel and the dialog's close request close the dialog and touch nothing else |
| `Converter.InitiateConversion` | app/page.tsx:68-71 | without a file or with an empty format nothing changes; otherwise only the dialog opens |
| `Converter.StartConversion` | app/page.tsx:73-77 | a blank name changes nothing; otherwise only the dialog closes and the conversion is marked in progress |
| `Converter.TimerFires` | app/page.tsx:80-83 | the resumed handler clears the converting flag and sets completion, touching nothing else |
| `Converter.Reset` | app/page.tsx:102-110 | file, format, name and completion are cleared; converting flag and dialog are untouched |
| `Converter.DownloadName` | app/page.tsx:86-88 | the download name starts with the untrimmed name and adds the extension of the table row whose value is the format, or nothing when no row matches |
| `Converter.PreviewName` | app/page.tsx:280-281 | the dialog's "Final name" equals the download name once a name is typed, and reads "filename" plus the extension while the name is empty |
| `Converter.StartDisabled` | app/page.tsx:289-292 | "Start Conversion" is disabled exactly when the name is blank |
| `Converter.BeginOpensDialog` | app/page.tsx:68-71 | a click on an enabled "Begin Conversion" (app/page.tsx:219) opens the dialog and changes nothing else; when the button is disabled for lack of a file or a format, the handler would change nothing either |
| `Converter.StartButtonMatchesGuard` | app/page.tsx:289-292 | an enabled "Start Conversion" always starts; a disabled one would do nothing if clicked |
| `Converter.ResetIdempotent` | app/page.tsx:102-106 | resetting twice is resetting once |
| `Converter.ResetReachesInitial` | app/page.tsx:102-106 | reset gives the state on mount exactly when nothing is converting and the dialog is closed |
| `Converter.WordNameLosesWordExtension` | app/page.tsx:42-57 | a dropped `.docx` / `.doc` file is selected and its name loses exactly that ending |
| `Workflow.Step` | app/page.tsx:42-110 | dispatches each event to its handler; `Start` with a non-blank name suspends one more timer and a blank one changes nothing; a pending `Timer` resumes one and a `Timer` with none pending changes nothing; no other event changes the count |
| `Workflow.IdleEventsChangeNothing` | app/page.tsx:73-84 | a start with a blank name, and a timer with no conversion suspended, leave the session exactly as it was |
| `Workflow.Enabled` | app/page.tsx:162-291 | an event is allowed when its control is rendered and enabled: file picking only without a file (172), a format only from the table (193-207), "Begin Conversion" only when shown and not disabled (216-219), name edits, Cancel and "Start Conversion" only in the open dialog with a non-blank name for the last (259-292), reset only from "Choose Different File" or "Convert Another" (162, 248), a timer only when one is pending |
| `Workflow.StepKeepsInv` | app/page.tsx:216-292 | every event the buttons allow keeps the invariant: at most one suspended conversion, exactly while converting; no dialog during or after a conversion; format empty or from the table; never converting and complete |
| `Workflow.RunKeepsInv` | app/page.tsx:216-292 | every trace of allowed events keeps that invariant |
| `Workflow.NeverConvertingAndComplete` | app/page.tsx:216-292 | from mount, following the buttons, the page is never converting and complete at once |
| `Workflow.GuardsAreNeeded` | app/page.tsx:73-84 | pressing start, letting the timer fire and pressing start again sets both flags, and the buttons never allow that sequence |
| `Workflow.TimerSurvivesReset` | app/page.tsx:80-110 | a reset during a conversion does not cancel it: the timer still marks the cleared state complete |
| `Workflow.HappyPath` | app/page.tsx:68-84 | with a file, a format and nothing running, begin / type a non-blank name / start / timer is allowed and completes under that name |
| `Workflow.DropEssayChoosePdf` | app/page.tsx:42-59 | dropping `essay.docx` and choosing PDF is allowed and leaves the file, format `pdf` and name `essay` |
| `Workflow.EssayWalkthrough` | app/page.tsx:42-110 | the full walk-through is allowed, completes, downloads as `final-essay.pdf`, and a reset then returns to the state on mount |

## Left out

- Rendering and styling (app/page.tsx:112-334 apart from the guards and the
  preview line) and `app/layout.tsx`: markup with no logic.
- Download side effects (app/page.tsx:90-99): the placeholder Blob, object URL
  and anchor click are browser I/O; only the computed file name is modelled.
- The 2000 ms delay and React's batching of state updates: the delay is the
  discrete `Timer` event, and each handler's updates are applied together.
  Two clicks landing before a re-render are not modelled.
- The file size display (app/page.tsx:159): floating-point formatting.
- The `accept` attribute (app/page.tsx:181): the browser enforces it, not the
  page, so `FileInput` accepts any file.
- Clearing the hidden input's `value` in `resetConverter` (app/page.tsx:107-109):
  a DOM effect with no state cell.
- The dialog's modality: `Workflow.Enabled` still allows drops, picks,
  format choices, "Begin Conversion" (which re-opens the open dialog) and
  resets while the dialog is open; the page's modal overlay blocks them. This is more permissive than the page, so
  the invariant holds all the more. The dialog component only ever asks to
  close, so `onOpenChange` is modelled as `DismissDialog` alone.
- `File.size` and the file contents: only the name and declared type are read.
- Strings are sequences of Unicode scalar values; JavaScript strings are UTF-16
  code units. Every character the code tests is outside the surrogate range,
  so the two readings agree on well-formed strings.

## Findings

| source | as written | input that shows it | evidently intended | confidence | as-written member | corrected member |
|---|---|---|---|---|---|---|
| app/page.tsx:52-55 | the null check `droppedFile &&` sits inside the first of the three alternatives of the filter, so it guards only the type test | a drop carrying no files (for example dragged text): `droppedFile` is `undefined` and reading its `name` throws a TypeError | the null check guards the whole filter, and a drop without files is ignored | high (not executed) | `Converter.HandleDrop` (shown by `Converter.EmptyDropThrows`) | `Converter.HandleDropIntended`, used by `Workflow.Step` |

Both readings leave the state unchanged on such a drop, because the throw
happens before any update.

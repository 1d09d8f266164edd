/** The state of the `WordConverter` component and its event handlers, each a
    pure function from the state before the event to the state after it. */
module Converter {
  import opened Wrappers
  import JsString
  import BaseName
  import Formats

  /** The parts of a browser `File` the handlers read: its name and its
      declared MIME type (`File.type`). */
  datatype File = File(name: string, mimeType: string)

  /** The six `useState` cells of the component. */
  datatype State = State(
    file: Option<File>,
    outputFormat: string,
    fileName: string,
    isConverting: bool,
    showNameDialog: bool,
    conversionComplete: bool)

  /** The state on mount: every cell empty or false. */
  const Initial := State(None, "", "", false, false, false)

  /** Names of the state cells, to say which ones a handler may change. */
  datatype Field = FileCell | OutputFormatCell | FileNameCell
                 | IsConvertingCell | ShowNameDialogCell | ConversionCompleteCell

  /** `s` and `t` hold the same value in cell `f`. */
  predicate Agree(s: State, t: State, f: Field)
  {
    match f
    case FileCell => s.file == t.file
    case OutputFormatCell => s.outputFormat == t.outputFormat
    case FileNameCell => s.fileName == t.fileName
    case IsConvertingCell => s.isConverting == t.isConverting
    case ShowNameDialogCell => s.showNameDialog == t.showNameDialog
    case ConversionCompleteCell => s.conversionComplete == t.conversionComplete
  }

  /** `t` differs from `s` at most in the cells of `changed`. */
  predicate SameExcept(s: State, t: State, changed: set<Field>)
  {
    forall f :: f !in changed ==> Agree(s, t, f)
  }

  /** `handleFileSelect`: keep the file, default the output name to the file's
      base name and forget any finished conversion. The chosen format, the
      converting flag and the dialog are left as they were. */
  function SelectFile(s: State, f: File): (r: State)
    ensures r.file == Some(f)
    ensures r.fileName <= f.name
    ensures r.fileName != f.name <==> BaseName.HasExtension(f.name)
    ensures r.fileName != f.name ==>
              BaseName.MatchAt(f.name, |r.fileName|, |f.name| - |r.fileName|)
    ensures !r.conversionComplete
    ensures SameExcept(s, r, {FileCell, FileNameCell, ConversionCompleteCell})
  {
    s.(file := Some(f), conversionComplete := false, fileName := BaseName.StripExtension(f.name))
  }

  /** The filter `handleDrop` applies to a dropped file: its declared type
      mentions "word", or its name ends in ".docx" or ".doc". */
  predicate IsWordFile(f: File)
  {
    JsString.Includes(f.mimeType, "word")
    || JsString.EndsWith(f.name, ".docx")
    || JsString.EndsWith(f.name, ".doc")
  }

  /** The drop filter accepts a file exactly when "word" occurs in its
      declared type or its name is some string followed by ".docx" or ".doc". */
  lemma WordFilterMeaning(f: File)
    ensures IsWordFile(f) <==> (exists i: nat :: JsString.OccursAt(f.mimeType, "word", i))
                               || (exists p :: f.name == p + ".docx")
                               || (exists p :: f.name == p + ".doc")
  {
    JsString.EndsWithIsSuffix(f.name, ".docx");
    JsString.EndsWithIsSuffix(f.name, ".doc");
  }

  /** A file dropped on the drop zone: selected if it passes the Word filter,
      ignored otherwise. */
  function Drop(s: State, f: File): (r: State)
    ensures IsWordFile(f) ==> r == SelectFile(s, f)
    ensures !IsWordFile(f) ==> r == s
  {
    if IsWordFile(f) then SelectFile(s, f) else s
  }

  /** What `handleDrop` can throw. */
  datatype HandlerError = NameOfUndefined

  /** `handleDrop` given the dropped `FileList`. The filter reads the first
      file's `name` even when there is no first file, so a drop without files
      throws a TypeError before any state is set. */
  function HandleDrop(s: State, files: seq<File>): (r: Result<State, HandlerError>)
    ensures files == [] <==> r.Failure?
    ensures files != [] ==> r == Success(Drop(s, files[0]))
  {
    if |files| == 0 then Failure(NameOfUndefined) else Success(Drop(s, files[0]))
  }

  /** The filter as evidently intended, `droppedFile && (…)`: a drop without
      files is ignored instead of throwing; any other drop is handled as the
      code handles it. */
  function HandleDropIntended(s: State, files: seq<File>): (r: State)
    ensures files == [] ==> r == s
    ensures files != [] ==> r == Drop(s, files[0])
  {
    if |files| == 0 then s else Drop(s, files[0])
  }

  /** The precedence slip in `handleDrop`: for every state, a drop without
      files makes the handler throw, while the guarded filter leaves the state
      as it was; on every drop that does not throw the two agree. */
  lemma EmptyDropThrows(s: State, files: seq<File>)
    ensures files == [] ==> HandleDrop(s, files) == Failure(NameOfUndefined)
                            && HandleDropIntended(s, files) == s
    ensures HandleDrop(s, files).Success? ==> HandleDrop(s, files).value == HandleDropIntended(s, files)
  {
  }

  /** Both MIME types the file input advertises for Word documents contain
      "word", so a file declaring either passes the drop filter whatever its
      name. */
  lemma WordMimeTypesAccepted(name: string)
    ensures IsWordFile(File(name, "application/msword"))
    ensures IsWordFile(File(name, "application/vnd.openxmlformats-officedocument.wordprocessingml.document"))
  {
    var doc := "application/msword";
    assert doc[14..18] == "word";
    assert JsString.OccursAt(doc, "word", 14);
    var docx := "application/vnd.openxmlformats-officedocument.wordprocessingml.document";
    assert docx[46] == 'w' && docx[47] == 'o' && docx[48] == 'r' && docx[49] == 'd';
    assert docx[46..50] == "word";
    assert JsString.OccursAt(docx, "word", 46);
  }

  /** `handleFileInput`: the file input's `files` may be null or empty, in
      which case nothing happens; otherwise its first file is selected,
      whatever its type. */
  function FileInput(s: State, files: Option<seq<File>>): (r: State)
    ensures files.None? || files.value == [] ==> r == s
    ensures files.Some? && files.value != [] ==> r == SelectFile(s, files.value[0])
  {
    match files
    case None => s
    case Some(fs) => if |fs| == 0 then s else SelectFile(s, fs[0])
  }

  /** The format selector's `onValueChange`. */
  function ChooseFormat(s: State, value: string): (r: State)
    ensures r.outputFormat == value
    ensures SameExcept(s, r, {OutputFormatCell})
  {
    s.(outputFormat := value)
  }

  /** The name field's `onChange` in the naming dialog. */
  function EditName(s: State, value: string): (r: State)
    ensures r.fileName == value
    ensures SameExcept(s, r, {FileNameCell})
  {
    s.(fileName := value)
  }

  /** The dialog's Cancel button and its `onOpenChange(false)` (Escape or a
      click outside): the dialog closes. */
  function DismissDialog(s: State): (r: State)
    ensures !r.showNameDialog
    ensures SameExcept(s, r, {ShowNameDialogCell})
  {
    s.(showNameDialog := false)
  }

  /** `initiateConversion`: opens the naming dialog, but only once a file is
      present and a format is chosen (the empty string is falsy). */
  function InitiateConversion(s: State): (r: State)
    ensures s.file.None? || s.outputFormat == "" ==> r == s
    ensures s.file.Some? && s.outputFormat != "" ==> r.showNameDialog
    ensures SameExcept(s, r, {ShowNameDialogCell})
  {
    if s.file.None? || s.outputFormat == "" then s else s.(showNameDialog := true)
  }

  /** The first half of `handleConversion`, up to its `await`: a name that is
      empty after `trim()` stops it; otherwise the dialog closes and the
      conversion is marked in progress. */
  function StartConversion(s: State): (r: State)
    ensures JsString.IsBlank(s.fileName) ==> r == s
    ensures !JsString.IsBlank(s.fileName) ==> r.isConverting && !r.showNameDialog
    ensures SameExcept(s, r, {IsConvertingCell, ShowNameDialogCell})
  {
    if |JsString.Trim(s.fileName)| == 0 then s
    else s.(showNameDialog := false, isConverting := true)
  }

  /** The second half of `handleConversion`, run when the timer resolves: it
      sets the two flags unconditionally, whatever happened meanwhile. */
  function TimerFires(s: State): (r: State)
    ensures !r.isConverting && r.conversionComplete
    ensures SameExcept(s, r, {IsConvertingCell, ConversionCompleteCell})
  {
    s.(isConverting := false, conversionComplete := true)
  }

  /** `resetConverter`: clears the file, the format, the name and the
      completion flag. The converting flag and the dialog are not touched. */
  function Reset(s: State): (r: State)
    ensures r.file.None? && r.outputFormat == "" && r.fileName == "" && !r.conversionComplete
    ensures SameExcept(s, r, {FileCell, OutputFormatCell, FileNameCell, ConversionCompleteCell})
  {
    s.(file := None, outputFormat := "", fileName := "", conversionComplete := false)
  }

  /** The name `downloadFile` gives the download: the user's name, untrimmed,
      followed by the chosen format's extension, or the bare name when the
      state holds no format from the table. */
  function DownloadName(s: State): (r: string)
    ensures s.fileName <= r
    ensures forall i :: 0 <= i < |Formats.SupportedFormats|
                        && Formats.SupportedFormats[i].value == s.outputFormat ==>
              r == s.fileName + Formats.SupportedFormats[i].extension
    ensures !Formats.IsSupported(s.outputFormat) ==> r == s.fileName
  {
    s.fileName + Formats.ExtensionFor(s.outputFormat)
  }

  /** The "Final name" line of the naming dialog: the name, or the word
      "filename" while it is empty, then the extension when there is one. */
  function PreviewName(s: State): (r: string)
    ensures s.fileName != "" ==> r == DownloadName(s)
    ensures s.fileName == "" ==> r == "filename" + Formats.ExtensionFor(s.outputFormat)
  {
    (if s.fileName == "" then "filename" else s.fileName) + Formats.ExtensionFor(s.outputFormat)
  }

  /** "Begin Conversion" is rendered only while no conversion has completed. */
  predicate BeginShown(s: State)
  {
    !s.conversionComplete
  }

  /** "Begin Conversion" is disabled without a file, without a format, or
      while a conversion runs. */
  predicate BeginDisabled(s: State)
  {
    s.file.None? || s.outputFormat == "" || s.isConverting
  }

  /** "Start Conversion" is disabled while the trimmed name is empty. */
  function StartDisabled(s: State): (r: bool)
    ensures r <==> JsString.IsBlank(s.fileName)
  {
    |JsString.Trim(s.fileName)| == 0
  }

  /** A click on an enabled "Begin Conversion" always opens the dialog and
      changes nothing else; when the button is disabled for lack of a file or
      a format, the handler would do nothing even if called. */
  lemma BeginOpensDialog(s: State)
    ensures !BeginDisabled(s) ==> InitiateConversion(s) == s.(showNameDialog := true)
    ensures BeginDisabled(s) && !s.isConverting ==> InitiateConversion(s) == s
  {
  }

  /** An enabled "Start Conversion" always starts a conversion; a disabled
      one would be a no-op even if clicked. */
  lemma StartButtonMatchesGuard(s: State)
    ensures !StartDisabled(s) ==> StartConversion(s) == s.(showNameDialog := false, isConverting := true)
    ensures StartDisabled(s) ==> StartConversion(s) == s
  {
  }

  /** Applying `Reset` a second time changes nothing. */
  lemma ResetIdempotent(s: State)
    ensures Reset(Reset(s)) == Reset(s)
  {
  }

  /** Reset returns to the state on mount exactly when no conversion is in
      flight and the dialog is closed. */
  lemma ResetReachesInitial(s: State)
    ensures Reset(s) == Initial <==> !s.isConverting && !s.showNameDialog
  {
  }

  /** A Word file whose name ends in ".docx" or ".doc" gets exactly that
      ending removed as its default output name. */
  lemma WordNameLosesWordExtension(s: State, f: File)
    requires JsString.EndsWith(f.name, ".docx") || JsString.EndsWith(f.name, ".doc")
    ensures Drop(s, f).file == Some(f)
    ensures JsString.EndsWith(f.name, ".docx") ==> Drop(s, f).fileName == f.name[..|f.name| - 5]
    ensures JsString.EndsWith(f.name, ".doc") ==> Drop(s, f).fileName == f.name[..|f.name| - 4]
  {
    var n := f.name;
    if JsString.EndsWith(n, ".docx") {
      assert n[|n| - 5..] == ['.'] + "docx";
      BaseName.StripKnownExtension(n, "docx");
    } else {
      assert n[|n| - 4..] == ['.'] + "doc";
      BaseName.StripKnownExtension(n, "doc");
    }
  }
}

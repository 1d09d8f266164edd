/** The fixed table of output formats the converter offers, and the lookup
    `supportedFormats.find((f) => f.value === outputFormat)`. */
module Formats {
  import opened Wrappers

  /** One row of the table: the value stored in the state, the label (caption) shown in
      the selector and the extension appended to the downloaded file. */
  datatype Format = Format(value: string, caption: string, extension: string)

  const SupportedFormats: seq<Format> := [
    Format("pdf", "PDF Document", ".pdf"),
    Format("txt", "Plain Text", ".txt"),
    Format("html", "HTML Document", ".html"),
    Format("rtf", "Rich Text Format", ".rtf"),
    Format("odt", "OpenDocument Text", ".odt"),
    Format("epub", "EPUB eBook", ".epub"),
    Format("markdown", "Markdown", ".md")
  ]

  /** `value` names a row of the table. */
  predicate IsSupported(value: string)
  {
    exists i :: 0 <= i < |SupportedFormats| && SupportedFormats[i].value == value
  }

  /** `Array.prototype.find` on the `value` field: the first row whose value
      is `value`, or nothing when no row has it. */
  function Find(formats: seq<Format>, value: string): (r: Option<Format>)
    ensures r.None? <==> forall i :: 0 <= i < |formats| ==> formats[i].value != value
    ensures r.Some? ==> exists i :: 0 <= i < |formats| && formats[i] == r.value
                                    && r.value.value == value
                                    && forall j :: 0 <= j < i ==> formats[j].value != value
  {
    if |formats| == 0 then
      None
    else if formats[0].value == value then
      Some(formats[0])
    else
      var r := Find(formats[1..], value);
      assert forall i :: 1 <= i < |formats| ==> formats[i] == formats[1..][i - 1];
      if r.Some? then
        var k :| 0 <= k < |formats[1..]| && formats[1..][k] == r.value
                 && r.value.value == value
                 && forall j :: 0 <= j < k ==> formats[1..][j].value != value;
        assert formats[k + 1] == r.value;
        r
      else
        r
  }

  /** `selectedFormat?.extension || ""`: the extension of the chosen format,
      or the empty string when the state holds no value from the table. */
  function ExtensionFor(value: string): (ext: string)
    ensures forall i :: 0 <= i < |SupportedFormats| && SupportedFormats[i].value == value ==>
              ext == SupportedFormats[i].extension
    ensures ext == "" <==> !IsSupported(value)
  {
    TableShape();
    match Find(SupportedFormats, value)
    case Some(f) => f.extension
    case None => ""
  }

  /** The table has seven rows, with pairwise distinct values and pairwise
      distinct extensions, each extension a dot and at least one more character. */
  lemma TableShape()
    ensures |SupportedFormats| == 7
    ensures forall i, j :: 0 <= i < j < |SupportedFormats| ==>
              SupportedFormats[i].value != SupportedFormats[j].value
              && SupportedFormats[i].extension != SupportedFormats[j].extension
    ensures forall i :: 0 <= i < |SupportedFormats| ==>
              |SupportedFormats[i].extension| >= 2 && SupportedFormats[i].extension[0] == '.'
  {
  }

  /** The lookup is total on the table and returns each row's own extension;
      Markdown is the one format whose extension is not its value. */
  lemma ExtensionsOfTable()
    ensures ExtensionFor("pdf") == ".pdf"
    ensures ExtensionFor("txt") == ".txt"
    ensures ExtensionFor("html") == ".html"
    ensures ExtensionFor("rtf") == ".rtf"
    ensures ExtensionFor("odt") == ".odt"
    ensures ExtensionFor("epub") == ".epub"
    ensures ExtensionFor("markdown") == ".md"
    ensures ExtensionFor("md") == ""
    ensures ExtensionFor("") == ""
  {
    assert SupportedFormats[0].value == "pdf";
    assert SupportedFormats[1].value == "txt";
    assert SupportedFormats[2].value == "html";
    assert SupportedFormats[3].value == "rtf";
    assert SupportedFormats[4].value == "odt";
    assert SupportedFormats[5].value == "epub";
    assert SupportedFormats[6].value == "markdown";
  }
}

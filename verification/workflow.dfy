/** The component as an event-driven machine: the user's actions and the
    timer behind `await new Promise((resolve) => setTimeout(resolve, 2000))`
    become events, the rendered buttons become guards on those events, and
    traces of enabled events are shown never to reach a state that is both
    converting and complete. */
module Workflow {
  import opened Wrappers
  import JsString
  import Formats
  import opened Converter

  /** Everything that can happen to the component. */
  datatype Event =
    | DropFiles(dropped: seq<File>)
    | PickFiles(picked: Option<seq<File>>)
    | SelectFormat(format: string)
    | Begin
    | TypeName(name: string)
    | Dismiss
    | Start
    | Timer
    | ResetClicked

  /** The component's state together with the number of `handleConversion`
      calls suspended at their `await`, each waiting for its timer. */
  datatype Session = Session(ui: State, pendingTimers: nat)

  const InitialSession := Session(Initial, 0)

  /** What one event does. A drop without files leaves the state as it was
      (the code throws before setting anything); a timer with nothing
      suspended cannot happen and changes nothing. */
  function Step(ss: Session, e: Event): (r: Session)
    ensures e.Start? && !JsString.IsBlank(ss.ui.fileName) ==> r.pendingTimers == ss.pendingTimers + 1
    ensures e.Timer? && ss.pendingTimers > 0 ==> r.pendingTimers == ss.pendingTimers - 1
    ensures !(e.Start? || e.Timer?) ==> r.pendingTimers == ss.pendingTimers
  {
    match e
    case DropFiles(files) => ss.(ui := HandleDropIntended(ss.ui, files))
    case PickFiles(files) => ss.(ui := FileInput(ss.ui, files))
    case SelectFormat(v) => ss.(ui := ChooseFormat(ss.ui, v))
    case Begin => ss.(ui := InitiateConversion(ss.ui))
    case TypeName(v) => ss.(ui := EditName(ss.ui, v))
    case Dismiss => ss.(ui := DismissDialog(ss.ui))
    case Start =>
      if |JsString.Trim(ss.ui.fileName)| == 0 then ss
      else Session(StartConversion(ss.ui), ss.pendingTimers + 1)
    case Timer =>
      if ss.pendingTimers == 0 then ss
      else Session(TimerFires(ss.ui), ss.pendingTimers - 1)
    case ResetClicked => ss.(ui := Reset(ss.ui))
  }

  /** Whether the interface lets the event happen: the control that raises it
      is rendered and not disabled, and a timer fires only if one is pending. */
  predicate Enabled(ss: Session, e: Event)
  {
    var s := ss.ui;
    match e
    case DropFiles(_) => true
    case PickFiles(_) => s.file.None?
    case SelectFormat(v) => Formats.IsSupported(v)
    case Begin => BeginShown(s) && !BeginDisabled(s)
    case TypeName(_) => s.showNameDialog
    case Dismiss => s.showNameDialog
    case Start => s.showNameDialog && !StartDisabled(s)
    case Timer => ss.pendingTimers > 0
    case ResetClicked => s.file.Some? || s.conversionComplete
  }

  /** The session after every event of `trace`, in order. */
  function Run(ss: Session, trace: seq<Event>): Session
    decreases |trace|
  {
    if |trace| == 0 then ss else Run(Step(ss, trace[0]), trace[1..])
  }

  /** Every event of `trace` is enabled when it happens. */
  predicate ValidTrace(ss: Session, trace: seq<Event>)
    decreases |trace|
  {
    |trace| == 0 || (Enabled(ss, trace[0]) && ValidTrace(Step(ss, trace[0]), trace[1..]))
  }

  /** The facts the guards keep true. At most one conversion is suspended, and
      exactly while `isConverting` holds; the dialog is never open during or
      after a conversion; the format is empty or from the table; and the two
      flags are never both set. */
  predicate Inv(ss: Session)
  {
    var s := ss.ui;
    && ss.pendingTimers <= 1
    && (s.isConverting <==> ss.pendingTimers == 1)
    && (s.showNameDialog ==> !s.isConverting && !s.conversionComplete)
    && (s.outputFormat == "" || Formats.IsSupported(s.outputFormat))
    && !(s.isConverting && s.conversionComplete)
  }

  /** A start with a blank name and a timer with nothing pending leave the
      session exactly as it was. */
  lemma IdleEventsChangeNothing(ss: Session)
    ensures JsString.IsBlank(ss.ui.fileName) ==> Step(ss, Start) == ss
    ensures ss.pendingTimers == 0 ==> Step(ss, Timer) == ss
  {
  }

  /** Every enabled event keeps the invariant. */
  lemma StepKeepsInv(ss: Session, e: Event)
    requires Inv(ss) && Enabled(ss, e)
    ensures Inv(Step(ss, e))
  {
  }

  /** Every trace of enabled events keeps the invariant. */
  lemma {:induction false} RunKeepsInv(ss: Session, trace: seq<Event>)
    requires Inv(ss) && ValidTrace(ss, trace)
    ensures Inv(Run(ss, trace))
    decreases |trace|
  {
    if |trace| > 0 {
      StepKeepsInv(ss, trace[0]);
      RunKeepsInv(Step(ss, trace[0]), trace[1..]);
    }
  }

  /** Starting from mount and following the buttons, the component is never
      converting and complete at once. */
  lemma NeverConvertingAndComplete(trace: seq<Event>)
    requires ValidTrace(InitialSession, trace)
    ensures !(Run(InitialSession, trace).ui.isConverting && Run(InitialSession, trace).ui.conversionComplete)
  {
    RunKeepsInv(InitialSession, trace);
  }

  /** A start with a non-blank name suspends one more conversion. */
  lemma StartSuspends(ss: Session)
    requires !JsString.IsBlank(ss.ui.fileName)
    ensures Step(ss, Start) == Session(StartConversion(ss.ui), ss.pendingTimers + 1)
  {
  }

  /** The guards are what keeps the two flags apart: were "Start Conversion"
      pressable again after a conversion completed, a non-blank name would
      reach a state that is converting and complete at once. The buttons
      never allow this sequence. */
  lemma GuardsAreNeeded(ss: Session)
    requires !JsString.IsBlank(ss.ui.fileName) && ss.pendingTimers == 0
    ensures Run(ss, [Start, Timer, Start]).ui.isConverting
    ensures Run(ss, [Start, Timer, Start]).ui.conversionComplete
    ensures !ValidTrace(ss, [Start, Timer, Start])
  {
    StartSuspends(ss);
    var s1 := Step(ss, Start);
    var s2 := Step(s1, Timer);
    assert s2 == Session(TimerFires(s1.ui), 0);
    StartSuspends(s2);
    var s3 := Step(s2, Start);
    assert !Enabled(s2, Start);
    assert [Start, Timer, Start][1..] == [Timer, Start];
    assert [Timer, Start][1..] == [Start];
    assert Run(s2, [Start]) == s3;
  }

  /** A reset during a conversion does not cancel it: the pending timer still
      fires and marks the cleared state as complete. */
  lemma TimerSurvivesReset(ss: Session)
    requires ss.ui.isConverting && ss.pendingTimers == 1
    ensures var r := Step(Step(ss, ResetClicked), Timer);
            r.ui.conversionComplete && !r.ui.isConverting && r.ui.file.None? && r.pendingTimers == 0
  {
  }

  /** Running two traces one after the other is running their concatenation,
      and the concatenation is allowed exactly when both halves are, each from
      where it starts. */
  lemma {:induction false} RunAppend(ss: Session, a: seq<Event>, b: seq<Event>)
    ensures Run(ss, a + b) == Run(Run(ss, a), b)
    ensures ValidTrace(ss, a + b) <==> ValidTrace(ss, a) && ValidTrace(Run(ss, a), b)
    decreases |a|
  {
    if |a| > 0 {
      assert (a + b)[0] == a[0];
      assert (a + b)[1..] == a[1..] + b;
      RunAppend(Step(ss, a[0]), a[1..], b);
    } else {
      assert a + b == b;
    }
  }

  /** Once a file and a format are chosen and nothing is running, the buttons
      let the user begin, type any non-blank name, start and wait: the
      conversion then completes under that name, with the dialog closed and
      no timer left. */
  lemma HappyPath(ss: Session, name: string)
    requires ss.ui.file.Some? && Formats.IsSupported(ss.ui.outputFormat)
    requires !ss.ui.isConverting && !ss.ui.conversionComplete && ss.pendingTimers == 0
    requires !JsString.IsBlank(name)
    ensures ValidTrace(ss, [Begin, TypeName(name), Start, Timer])
    ensures Run(ss, [Begin, TypeName(name), Start, Timer])
            == Session(ss.ui.(fileName := name, showNameDialog := false, conversionComplete := true), 0)
  {
    var t3 := [Timer];
    var t2 := [Start, Timer];
    var t1 := [TypeName(name), Start, Timer];
    var t0 := [Begin, TypeName(name), Start, Timer];
    assert t0[1..] == t1 && t1[1..] == t2 && t2[1..] == t3 && t3[1..] == [];
    var s1 := Step(ss, Begin);
    assert s1.ui.showNameDialog;
    var s2 := Step(s1, TypeName(name));
    assert s2.ui.fileName == name;
    var s3 := Step(s2, Start);
    assert s3.ui.isConverting && s3.pendingTimers == 1;
    var s4 := Step(s3, Timer);
    assert Run(s3, t3) == s4 && ValidTrace(s3, t3);
    assert Run(s2, t2) == s4 && ValidTrace(s2, t2);
    assert Run(s1, t1) == s4 && ValidTrace(s1, t1);
  }

  /** Dropping "essay.docx" on a fresh component (whatever type the browser
      declares for it) and choosing PDF: the file is kept, the name defaults to
      "essay", and both events are allowed. */
  lemma DropEssayChoosePdf(mimeType: string)
    ensures var trace := [DropFiles([File("essay.docx", mimeType)]), SelectFormat("pdf")];
            && ValidTrace(InitialSession, trace)
            && Run(InitialSession, trace)
               == Session(State(Some(File("essay.docx", mimeType)), "pdf", "essay", false, false, false), 0)
  {
    var f := File("essay.docx", mimeType);
    var d := DropFiles([f]);
    var s1 := Session(Initial.(file := Some(f), fileName := "essay"), 0);
    DropEssay(f);
    assert Formats.SupportedFormats[0].value == "pdf";
    var s2 := Step(s1, SelectFormat("pdf"));
    assert Enabled(s1, SelectFormat("pdf"));
    var trace := [d, SelectFormat("pdf")];
    assert trace[1..] == [SelectFormat("pdf")];
    assert trace[1..][1..] == [];
    assert Run(s1, trace[1..]) == s2 && ValidTrace(s1, trace[1..]);
  }

  /** The drop step of the walk-through on its own. */
  lemma DropEssay(f: File)
    requires f.name == "essay.docx"
    ensures Enabled(InitialSession, DropFiles([f]))
    ensures Step(InitialSession, DropFiles([f])) == Session(Initial.(file := Some(f), fileName := "essay"), 0)
  {
    WordNameLosesWordExtension(Initial, f);
    var u1 := Drop(Initial, f);
    assert u1 == Initial.(file := Some(f), fileName := "essay");
    assert HandleDropIntended(Initial, [f]) == u1;
  }

  /** The walk-through: drop "essay.docx", choose PDF, then begin, rename to
      "final-essay", start and let the timer fire. Every step is allowed by the
      buttons, the conversion ends complete, the download is called
      "final-essay.pdf", and a reset then returns to the state on mount. */
  lemma EssayWalkthrough(mimeType: string)
    ensures var trace := [DropFiles([File("essay.docx", mimeType)]), SelectFormat("pdf")]
                         + [Begin, TypeName("final-essay"), Start, Timer];
            var s := Run(InitialSession, trace);
            && ValidTrace(InitialSession, trace)
            && s.ui.conversionComplete && !s.ui.isConverting
            && DownloadName(s.ui) == "final-essay.pdf"
            && Enabled(s, ResetClicked)
            && Step(s, ResetClicked) == InitialSession
  {
    var f := File("essay.docx", mimeType);
    var prefix := [DropFiles([f]), SelectFormat("pdf")];
    DropEssayChoosePdf(mimeType);
    var s2 := Session(State(Some(f), "pdf", "essay", false, false, false), 0);
    assert Formats.SupportedFormats[0].value == "pdf";
    var name := "final-essay";
    assert !JsString.IsWhitespace(name[0]);
    HappyPath(s2, name);
    var rest := [Begin, TypeName(name), Start, Timer];
    RunAppend(InitialSession, prefix, rest);
    var s := Session(State(Some(f), "pdf", name, false, false, true), 0);
    assert Run(InitialSession, prefix + rest) == s;
    assert DownloadName(s.ui) == name + Formats.SupportedFormats[0].extension;
  }
}

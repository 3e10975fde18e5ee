/**
 * The rename dialog for the output document: the edit field starts as the
 * current name with `.pdf` taken out, and a submitted name is trimmed and
 * must not be empty.
 */
module RenameModal {
  import opened JsStrings

  const PdfExtension: string := ".pdf"

  /**
   * `currentName.replace('.pdf', '')`: the leftmost `.pdf` is cut out
   * wherever it sits (not only at the end); a name without one is kept.
   */
  function EditableName(currentName: string): (r: string)
    ensures (exists k :: OccursAt(currentName, PdfExtension, k)) ==> |r| == |currentName| - 4
    ensures (forall k :: !OccursAt(currentName, PdfExtension, k)) ==> r == currentName
    ensures forall k :: FirstOccurrence(currentName, PdfExtension, k) ==> r == currentName[..k] + currentName[k + 4..]
  {
    RemoveFirst(currentName, PdfExtension)
  }

  /** Only the first occurrence goes, so stripping is not idempotent and can cut mid-name. */
  lemma EditableNameExamples()
    ensures EditableName("a.pdf.pdf") == "a.pdf"
    ensures EditableName("x.pdfy") == "xy"
    ensures EditableName(EditableName("a.pdf.pdf")) == "a"
  {
    assert FirstOccurrence("a.pdf.pdf", PdfExtension, 1) by {
      assert "a.pdf.pdf"[1..5] == PdfExtension;
      assert "a.pdf.pdf"[0..4] != PdfExtension by {
        assert "a.pdf.pdf"[0..4][0] != PdfExtension[0];
      }
    }
    assert "a.pdf.pdf"[..1] + "a.pdf.pdf"[5..] == "a.pdf";
    assert FirstOccurrence("x.pdfy", PdfExtension, 1) by {
      assert "x.pdfy"[1..5] == PdfExtension;
      assert "x.pdfy"[0..4] != PdfExtension by {
        assert "x.pdfy"[0..4][0] != PdfExtension[0];
      }
    }
    assert "x.pdfy"[..1] + "x.pdfy"[5..] == "xy";
    assert FirstOccurrence("a.pdf", PdfExtension, 1) by {
      assert "a.pdf"[1..5] == PdfExtension;
      assert "a.pdf"[0..4] != PdfExtension by {
        assert "a.pdf"[0..4][0] != PdfExtension[0];
      }
    }
    assert "a.pdf"[..1] + "a.pdf"[5..] == "a";
  }

  /**
   * The dialog's state: the edit field, and the `[currentName, isOpen]`
   * values the effect last ran with.
   */
  datatype Modal = Modal(field: string, isOpen: bool, currentName: string)

  /**
   * First render: `useState` seeds the field from the name, and the effect
   * runs once with the first props (setting the same value when open).
   */
  function Mount(isOpen: bool, currentName: string): Modal {
    Modal(EditableName(currentName), isOpen, currentName)
  }

  /** The input's `onChange`; the input is rendered only while the dialog is open. */
  function Type(m: Modal, text: string): Modal
    requires m.isOpen
  {
    m.(field := text)
  }

  /**
   * A render with props `isOpen` and `currentName`. The effect re-runs only
   * when one of its dependencies changed since its last run, and then
   * re-derives the field only if the dialog is open.
   */
  function Render(m: Modal, isOpen: bool, currentName: string): (r: Modal)
    ensures r.isOpen == isOpen && r.currentName == currentName
    ensures isOpen == m.isOpen && currentName == m.currentName ==> r == m
    ensures !isOpen ==> r.field == m.field
    ensures isOpen && !(m.isOpen && currentName == m.currentName) ==> r.field == EditableName(currentName)
  {
    if isOpen == m.isOpen && currentName == m.currentName then m
    else Modal(if isOpen then EditableName(currentName) else m.field, isOpen, currentName)
  }

  /** Rendering twice with the same props is rendering once: the second render runs no effect. */
  lemma RenderIdempotent(m: Modal, isOpen: bool, currentName: string)
    ensures Render(Render(m, isOpen, currentName), isOpen, currentName) == Render(m, isOpen, currentName)
  {
  }

  /** Text typed while the dialog is open survives every re-render that leaves the props alone. */
  lemma TypedTextSurvivesRerender(m: Modal, text: string)
    requires m.isOpen
    ensures Render(Type(m, text), true, m.currentName).field == text
  {
  }

  /**
   * Closing and re-opening the dialog on the same name discards the text
   * typed before and starts again from the name.
   */
  lemma ReopenDiscardsTypedText(m: Modal, text: string)
    requires m.isOpen
    ensures var closed := Render(Type(m, text), false, m.currentName);
      closed.field == text && Render(closed, true, m.currentName).field == EditableName(m.currentName)
  {
  }

  /** A new name arriving while the dialog is open replaces whatever was typed. */
  lemma NameChangeWhileOpen(m: Modal, text: string, newName: string)
    requires m.isOpen && newName != m.currentName
    ensures Render(Type(m, text), true, newName).field == EditableName(newName)
  {
  }

  /** What reaches the dialog: a render with new props, or a keystroke in the input. */
  datatype Event = Props(isOpen: bool, currentName: string) | Typed(text: string)

  /** One event; a keystroke can only reach the input while the dialog shows it. */
  function Step(m: Modal, e: Event): Modal {
    match e
    case Props(isOpen, currentName) => Render(m, isOpen, currentName)
    case Typed(text) => if m.isOpen then Type(m, text) else m
  }

  /** The dialog after a run of events. */
  function Run(m: Modal, events: seq<Event>): Modal
    decreases |events|
  {
    if |events| == 0 then m else Run(Step(m, events[0]), events[1..])
  }

  /**
   * The field never holds anything the user did not type or the effect did
   * not derive: after any run it is the starting text, some typed text, or
   * the edit form of some name the dialog was rendered with.
   */
  lemma {:induction false} FieldComesFromTypingOrName(m: Modal, events: seq<Event>)
    ensures var r := Run(m, events);
      || r.field == m.field
      || (exists k :: 0 <= k < |events| && events[k].Typed? && r.field == events[k].text)
      || (exists k :: 0 <= k < |events| && events[k].Props? && r.field == EditableName(events[k].currentName))
    decreases |events|
  {
    if |events| > 0 {
      var rest := events[1..];
      var m' := Step(m, events[0]);
      FieldComesFromTypingOrName(m', rest);
      var r := Run(m, events);
      assert r == Run(m', rest);
      if exists k :: 0 <= k < |rest| && rest[k].Typed? && r.field == rest[k].text {
        var k :| 0 <= k < |rest| && rest[k].Typed? && r.field == rest[k].text;
        assert events[k + 1] == rest[k];
      } else if exists k :: 0 <= k < |rest| && rest[k].Props? && r.field == EditableName(rest[k].currentName) {
        var k :| 0 <= k < |rest| && rest[k].Props? && r.field == EditableName(rest[k].currentName);
        assert events[k + 1] == rest[k];
      } else {
        assert r.field == m'.field;
      }
    }
  }

  /** The result of `handleSubmit`. */
  datatype Submission = Rejected | Renamed(name: string)

  /**
   * `handleSubmit`: a field that is blank after trimming is refused and
   * `onRename` is not called; otherwise `onRename` gets the trimmed text,
   * which is non-empty, has no surrounding whitespace and is a contiguous
   * piece of the field whose cut-off ends are whitespace.
   */
  function Submit(m: Modal): (r: Submission)
    ensures r.Rejected? <==> AllSpace(m.field)
    ensures r.Renamed? ==> |r.name| > 0 && !IsJsSpace(r.name[0]) && !IsJsSpace(r.name[|r.name| - 1])
    ensures r.Renamed? ==> exists a, b :: 0 <= a <= b <= |m.field| && r.name == m.field[a..b]
                                       && SpacesIn(m.field, 0, a) && SpacesIn(m.field, b, |m.field|)
  {
    if Trim(m.field) == "" then Rejected else Renamed(Trim(m.field))
  }

  /**
   * Opening the dialog on `base.pdf` (or handing an open one that name) and
   * submitting untouched renames to `base` itself.
   */
  lemma {:induction false} RenameRoundTrip(m: Modal, base: string)
    requires !(m.isOpen && m.currentName == base + PdfExtension)
    requires |base| > 0 && !IsJsSpace(base[0]) && !IsJsSpace(base[|base| - 1])
    requires forall k :: !OccursAt(base, PdfExtension, k)
    ensures Submit(Render(m, true, base + PdfExtension)) == Renamed(base)
  {
    var name := base + PdfExtension;
    var n := |base|;
    assert name[n..n + 4] == PdfExtension;
    forall j | 0 <= j < n
      ensures !OccursAt(name, PdfExtension, j)
    {
      if j + 4 <= n {
        assert !OccursAt(base, PdfExtension, j);
        assert name[j..j + 4] == base[j..j + 4];
      } else {
        // an occurrence across the seam would need a second '.' inside ".pdf"
        assert name[j..j + 4][n - j] == '.' != PdfExtension[n - j];
      }
    }
    assert FirstOccurrence(name, PdfExtension, n);
    assert name[..n] + name[n + 4..] == base;
    assert SkipSpaces(base, 0) == 0;
    assert SkipSpacesBack(base, 0, |base|) == |base|;
  }
}

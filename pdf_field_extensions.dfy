/**
 * The extension methods on form fields: writing a value with the button
 * coercion, and reading the option labels, the page and the rectangle of a field.
 */
module PdfFieldExtensions {
  import opened Wrappers
  import opened Text
  import DotNetBool
  import opened PdfModel

  const OffState := "Off"
  const OnState := "Yes"

  /**
   * The field is a `PdfButtonFormField` that also reports the tag `/Btn`: a
   * checkbox, but also a radio button or a push button, which all get the
   * "Yes"/"Off" coercion.
   */
  predicate IsBtnButton(fieldClass: FieldClass, formType: FormType) {
    fieldClass == ButtonField && formType == Btn
  }

  /**
   * The value `SetNewValue` stores. A `/Btn` button gets one of the two appearance
   * states: "Off" exactly when the input, trimmed of white space and NULs, reads
   * "false" in any letter case; "Yes" for everything else, including "true" and
   * text that is no boolean at all. Every other field stores the input verbatim.
   */
  function CoercedValue(fieldClass: FieldClass, formType: FormType, fieldValue: string): (v: string)
    ensures IsBtnButton(fieldClass, formType) ==> v == OffState || v == OnState
    ensures IsBtnButton(fieldClass, formType) ==>
      (v == OffState <==> EqualsIgnoreCase(DotNetBool.TrimWhiteSpaceAndNull(fieldValue), "false"))
    ensures !IsBtnButton(fieldClass, formType) ==> v == fieldValue
  {
    if IsBtnButton(fieldClass, formType) then
      if DotNetBool.TryParse(fieldValue) == Some(false) then OffState else OnState
    else fieldValue
  }

  /** `field.SetNewValue(fieldValue)`: stores the coerced value and changes nothing else. */
  method SetNewValue(field: FormField, fieldValue: string)
    modifies field
    ensures field.value == CoercedValue(field.fieldClass, field.formType, fieldValue)
  {
    if IsBtnButton(field.fieldClass, field.formType) {
      var parsed := DotNetBool.TryParse(fieldValue);
      field.value := if parsed == Some(false) then OffState else OnState;
    } else {
      field.value := fieldValue;
    }
  }

  /**
   * The label of one `/Opt` entry. A two-element array `[export, display]` gives
   * its display string, else its export string, else "". Anything else gives the
   * entry itself when it is a string, else "": an array of any other size,
   * a one-element `[display]` included, gives "".
   */
  function OptionLabel(entry: PdfObject): string
  {
    if entry.PdfArray? && |entry.items| == 2 then
      match AsString(entry.items, 1)
      case Some(display) => display
      case None => AsString(entry.items, 0).GetOr("")
    else if entry.PdfString? then entry.text
    else ""
  }

  /** The labels of an option list, entry by entry. */
  function Labels(opt: seq<PdfObject>): seq<string>
  {
    if opt == [] then [] else [OptionLabel(opt[0])] + Labels(opt[1..])
  }

  /** `Labels` keeps the length of the list, and label `i` is the label of entry `i` alone. */
  lemma {:induction false} LabelsAt(opt: seq<PdfObject>)
    ensures |Labels(opt)| == |opt|
    ensures forall i :: 0 <= i < |opt| ==> Labels(opt)[i] == OptionLabel(opt[i])
  {
    if opt != [] {
      LabelsAt(opt[1..]);
      assert forall i :: 1 <= i < |opt| ==> opt[1..][i - 1] == opt[i];
    }
  }

  /**
   * The label rules for any entry: a two-element array prefers its display
   * string to its export string and gives "" when neither is a string; any
   * other entry is its own label when it is a string and "" otherwise, so an
   * array of any other size (a one-element `[display]` included, whatever the
   * comment in the code suggests) gets no label.
   */
  lemma OptionLabelRules(e: PdfObject)
    ensures e.PdfArray? && |e.items| == 2 ==>
      OptionLabel(e) == if e.items[1].PdfString? then e.items[1].text
                        else if e.items[0].PdfString? then e.items[0].text
                        else ""
    ensures !(e.PdfArray? && |e.items| == 2) ==> OptionLabel(e) == if e.PdfString? then e.text else ""
  {
  }

  /** An option list of `[export, display]` pairs yields the display strings, in order. */
  lemma {:induction false} PairsGiveDisplayLabels(opt: seq<PdfObject>)
    requires forall i :: 0 <= i < |opt| ==>
      opt[i].PdfArray? && |opt[i].items| == 2 && opt[i].items[1].PdfString?
    ensures |Labels(opt)| == |opt|
    ensures forall i :: 0 <= i < |opt| ==> Labels(opt)[i] == opt[i].items[1].text
  {
    LabelsAt(opt);
  }

  /** What `GetFillOptions` returns: null unless a choice field with a non-empty `/Opt` array. */
  function FillOptions(field: FormField): Option<seq<string>>
  {
    if field.fieldClass != ChoiceField then None
    else match field.options
      case None => None
      case Some(opt) => if |opt| == 0 then None else Some(Labels(opt))
  }

  /**
   * `field.GetFillOptions()`: null for a field that is not a choice field and for
   * a choice field whose option list is absent or empty; otherwise a new array
   * with one label per option, in the order of the list.
   */
  method GetFillOptions(field: FormField) returns (options: array?<string>)
    ensures options != null ==> fresh(options)
    ensures options == null <==>
      field.fieldClass != ChoiceField || field.options.None? || |field.options.value| == 0
    ensures options != null ==>
      && options.Length == |field.options.value|
      && forall i :: 0 <= i < options.Length ==> options[i] == OptionLabel(field.options.value[i])
  {
    if field.fieldClass != ChoiceField {
      return null;
    }
    if field.options.None? || |field.options.value| == 0 {
      return null;
    }
    var opt := field.options.value;
    options := new string[|opt|];
    for i := 0 to |opt|
      invariant forall k :: 0 <= k < i ==> options[k] == OptionLabel(opt[k])
    {
      if opt[i].PdfArray? && |opt[i].items| == 2 {
        var arr := opt[i].items;
        options[i] := if arr[1].PdfString? then arr[1].text
                      else if arr[0].PdfString? then arr[0].text
                      else "";
      } else {
        options[i] := if opt[i].PdfString? then opt[i].text else "";
      }
    }
  }

  /** `GetFillOptions` agrees with `FillOptions`: the same null cases, the same labels. */
  lemma FillOptionsAgree(field: FormField, options: array?<string>)
    requires options == null <==>
      field.fieldClass != ChoiceField || field.options.None? || |field.options.value| == 0
    requires options != null ==>
      && options.Length == |field.options.value|
      && forall i :: 0 <= i < options.Length ==> options[i] == OptionLabel(field.options.value[i])
    ensures options == null <==> FillOptions(field).None?
    ensures options != null ==> options[..] == FillOptions(field).value
  {
    if options != null {
      LabelsAt(field.options.value);
    }
  }

  /**
   * `field.GetPageNumber(pdfDoc)`: only the first widget counts. -1 when there is
   * no widget or it has no page; otherwise the document's 1-based number of that
   * page (0 when the page is not in the document's page tree).
   */
  function GetPageNumber(field: FormField, pdfDoc: PdfDocument): (n: int)
    ensures -1 <= n <= |pdfDoc.pages|
    ensures n == -1 <==> field.widgets == [] || field.widgets[0].page.None?
    ensures n >= 1 ==> field.widgets != [] && field.widgets[0].page == Some(pdfDoc.pages[n - 1])
    ensures n == 0 <==> field.widgets != [] && field.widgets[0].page.Some? && field.widgets[0].page.value !in pdfDoc.pages
  {
    if |field.widgets| <= 0 then -1
    else
      match field.widgets[0].page
      case Some(page) => pdfDoc.GetPageNumber(page)
      case None => -1
  }

  /**
   * `field.GetPosition()`: the first widget's rectangle when it has exactly four
   * components, in their order; otherwise empty.
   */
  function GetPosition(field: FormField): (rect: seq<real>)
    ensures |rect| == 0 || |rect| == 4
    ensures |rect| == 4 <==> field.widgets != [] && field.widgets[0].rect.Some? && |field.widgets[0].rect.value| == 4
    ensures |rect| == 4 ==> rect == field.widgets[0].rect.value
  {
    if |field.widgets| <= 0 then []
    else
      var pdfArray := field.widgets[0].rect;
      if pdfArray.Some? && |pdfArray.value| == 4 then
        [pdfArray.value[0], pdfArray.value[1], pdfArray.value[2], pdfArray.value[3]]
      else []
  }
}

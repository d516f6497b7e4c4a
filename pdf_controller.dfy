/**
 * The two operations over an open document: filling named fields (and
 * optionally flattening the form) and listing every field as a descriptor.
 */
module PdfController {
  import opened Wrappers
  import opened PdfModel
  import opened PdfFieldExtensions

  // ------------------------------------------------------------------------ fill

  /**
   * The value the request gives for `name`: that of the last pair naming it, as
   * the enumeration of the request would leave it, or `None` when no pair does.
   */
  function RequestedValue(newValues: seq<(string, string)>, name: string): Option<string>
  {
    if newValues == [] then None
    else if newValues[|newValues| - 1].0 == name then Some(newValues[|newValues| - 1].1)
    else RequestedValue(newValues[..|newValues| - 1], name)
  }

  /** The request names every field at most once, as the keys of a dictionary do. */
  predicate UniqueNames(newValues: seq<(string, string)>) {
    forall i, j :: 0 <= i < j < |newValues| ==> newValues[i].0 != newValues[j].0
  }

  /** For a request with unique names, `RequestedValue` is the dictionary lookup. */
  lemma {:induction false} RequestedValueIsLookup(newValues: seq<(string, string)>, name: string, value: string)
    requires UniqueNames(newValues)
    ensures RequestedValue(newValues, name) == Some(value) <==> (name, value) in newValues
  {
    if newValues != [] {
      var init := newValues[..|newValues| - 1];
      var last := newValues[|newValues| - 1];
      assert newValues == init + [last];
      RequestedValueIsLookup(init, name, value);
      if last.0 == name {
        assert forall i :: 0 <= i < |init| ==> init[i].0 != name;
      }
    }
  }

  /** A name absent from the request leaves its field as it was. */
  lemma {:induction false} UnrequestedIsNone(newValues: seq<(string, string)>, name: string)
    requires forall i :: 0 <= i < |newValues| ==> newValues[i].0 != name
    ensures RequestedValue(newValues, name) == None
  {
    if newValues != [] {
      UnrequestedIsNone(newValues[..|newValues| - 1], name);
    }
  }

  /** One more pair of the request overrides what came before it for its own name only. */
  lemma RequestedValueStep(newValues: seq<(string, string)>, i: nat, name: string)
    requires i < |newValues|
    ensures RequestedValue(newValues[..i + 1], name) ==
      if newValues[i].0 == name then Some(newValues[i].1) else RequestedValue(newValues[..i], name)
  {
    assert newValues[..i + 1][..i] == newValues[..i];
  }

  /** The value a field holds after the fill: the coerced requested value, or its value before. */
  function FilledValue(field: FormField, before: string, newValues: seq<(string, string)>, name: string): string
  {
    match RequestedValue(newValues, name)
    case Some(v) => CoercedValue(field.fieldClass, field.formType, v)
    case None => before
  }

  /**
   * `FillFieldsAsync` on an open document. The form (created when the document has
   * none) first gets `NeedAppearances` set; then every requested name that is a
   * field gets `SetNewValue`, and names that are no field are skipped; fields the
   * request does not name keep their value. The form is flattened, leaving no
   * fields, exactly when `flatten` is set; otherwise it keeps the same fields in
   * the same order.
   */
  method FillFields(pdfDoc: PdfDocument, newValues: seq<(string, string)>, flatten: bool)
    requires pdfDoc.acroForm != null ==> pdfDoc.acroForm.Valid()
    modifies pdfDoc, pdfDoc.FormObjects()
    ensures pdfDoc.acroForm != null && pdfDoc.acroForm.Valid() && pdfDoc.acroForm.needAppearances
    ensures old(pdfDoc.acroForm) != null ==> pdfDoc.acroForm == old(pdfDoc.acroForm)
    ensures old(pdfDoc.acroForm) == null ==> fresh(pdfDoc.acroForm)
    ensures flatten ==> pdfDoc.acroForm.fields == map[] && pdfDoc.acroForm.order == []
    ensures !flatten ==> pdfDoc.acroForm.fields == old(pdfDoc.Fields())
    ensures !flatten && old(pdfDoc.acroForm) != null ==> pdfDoc.acroForm.order == old(pdfDoc.acroForm.order)
    ensures forall n :: n in old(pdfDoc.Fields()) ==>
      old(pdfDoc.Fields())[n].value == FilledValue(old(pdfDoc.Fields())[n], old(pdfDoc.Fields()[n].value), newValues, n)
  {
    var form := pdfDoc.GetAcroForm(true);
    form.SetNeedAppearances(true);
    var fields := form.fields;
    SetNewValues(fields, newValues);
    if flatten {
      form.FlattenFields();
    }
  }

  /**
   * The `foreach` of `FillFieldsAsync`: each pair whose name is a field has its
   * value written with `SetNewValue`; a pair naming no field is skipped.
   */
  method SetNewValues(fields: map<string, FormField>, newValues: seq<(string, string)>)
    requires DistinctFields(fields)
    modifies fields.Values
    ensures forall n :: n in fields ==> fields[n].value == FilledValue(fields[n], old(fields[n].value), newValues, n)
  {
    ghost var before := map n | n in fields :: fields[n].value;
    for i := 0 to |newValues|
      invariant forall n :: n in fields ==> fields[n].value == FilledValue(fields[n], before[n], newValues[..i], n)
    {
      var (fieldName, newValue) := newValues[i];
      label Step:
      if fieldName in fields {
        var field := fields[fieldName];
        assert forall n :: n in fields && n != fieldName ==> fields[n] != field;
        SetNewValue(field, newValue);
      }
      forall n | n in fields
        ensures fields[n].value == FilledValue(fields[n], before[n], newValues[..i + 1], n)
      {
        RequestedValueStep(newValues, i, n);
        if n == fieldName {
          assert RequestedValue(newValues[..i + 1], n) == Some(newValue);
        } else {
          assert RequestedValue(newValues[..i + 1], n) == RequestedValue(newValues[..i], n);
          assert fields[n].value == old@Step(fields[n].value);
        }
      }
    }
    assert newValues[..|newValues|] == newValues;
  }

  // --------------------------------------------------------------------- inspect

  /** `PdfFieldInfo`: the snapshot of one field that the inspection returns. */
  datatype PdfFieldInfo = PdfFieldInfo(
    name: string,
    formType: string,
    value: string,
    options: Option<seq<string>>,
    page: int,
    rect: seq<real>,
    readOnly: bool,
    required: bool)

  /** The descriptor of the field `field` named `name` while it holds `value`. */
  function Describe(pdfDoc: PdfDocument, name: string, field: FormField, value: string): PdfFieldInfo
  {
    PdfFieldInfo(name, FormTypeName(field.formType), value, FillOptions(field),
                 GetPageNumber(field, pdfDoc), GetPosition(field), field.IsReadOnly(), field.IsRequired())
  }

  /**
   * `GetFieldInfos`: no AcroForm gives the empty list; otherwise one descriptor
   * per field, in the form's enumeration order, named by the field's key, so no
   * two descriptors share a name.
   */
  method GetFieldInfos(pdfDoc: PdfDocument) returns (list: seq<PdfFieldInfo>)
    requires pdfDoc.acroForm != null ==> pdfDoc.acroForm.Valid()
    ensures pdfDoc.acroForm == null ==> list == []
    ensures pdfDoc.acroForm != null ==>
      && |list| == |pdfDoc.acroForm.order|
      && forall i :: 0 <= i < |list| ==>
           var name := pdfDoc.acroForm.order[i];
           name in pdfDoc.acroForm.fields && list[i] == Describe(pdfDoc, name, pdfDoc.acroForm.fields[name], pdfDoc.acroForm.fields[name].value)
    ensures forall i, j :: 0 <= i < j < |list| ==> list[i].name != list[j].name
  {
    var form := pdfDoc.acroForm;
    if form == null {
      return [];
    }
    list := DescribeAll(pdfDoc, form.fields, form.order);
    assert forall i :: 0 <= i < |list| ==> list[i].name == form.order[i];
  }

  /** The `foreach` of `GetFieldInfos`: one descriptor per name of `order`, in that order. */
  method DescribeAll(pdfDoc: PdfDocument, fields: map<string, FormField>, order: seq<string>)
    returns (list: seq<PdfFieldInfo>)
    requires forall i :: 0 <= i < |order| ==> order[i] in fields
    ensures |list| == |order|
    ensures forall i :: 0 <= i < |list| ==> list[i] == Describe(pdfDoc, order[i], fields[order[i]], fields[order[i]].value)
  {
    list := [];
    for k := 0 to |order|
      invariant |list| == k
      invariant forall i :: 0 <= i < k ==> list[i] == Describe(pdfDoc, order[i], fields[order[i]], fields[order[i]].value)
    {
      var fieldInfo := FieldInfo(pdfDoc, order[k], fields[order[k]]);
      list := list + [fieldInfo];
    }
  }

  /** The `new PdfFieldInfo(...)` of one field, built with the extension methods. */
  method FieldInfo(pdfDoc: PdfDocument, name: string, field: FormField) returns (fieldInfo: PdfFieldInfo)
    ensures fieldInfo == Describe(pdfDoc, name, field, field.value)
  {
    var options := GetFillOptions(field);
    FillOptionsAgree(field, options);
    fieldInfo := PdfFieldInfo(
      name,
      FormTypeName(field.formType),
      field.value,
      if options == null then None else Some(options[..]),
      GetPageNumber(field, pdfDoc),
      GetPosition(field),
      field.IsReadOnly(),
      field.IsRequired());
  }

  // ------------------------------------------------------------------ together

  /**
   * A fill followed by an inspection of the same document. A flattened form
   * lists no fields; otherwise a requested text value is listed exactly as it was
   * sent, and every field is listed with the value the fill left in it.
   */
  method FillThenInspect(pdfDoc: PdfDocument, newValues: seq<(string, string)>, flatten: bool)
    returns (infos: seq<PdfFieldInfo>)
    requires pdfDoc.acroForm != null ==> pdfDoc.acroForm.Valid()
    modifies pdfDoc, pdfDoc.FormObjects()
    ensures pdfDoc.acroForm != null
    ensures flatten ==> infos == []
    ensures !flatten ==> |infos| == |pdfDoc.acroForm.order|
    ensures !flatten ==> forall i :: 0 <= i < |infos| ==>
      var n := infos[i].name;
      n in old(pdfDoc.Fields()) &&
      infos[i].value == FilledValue(old(pdfDoc.Fields())[n], old(pdfDoc.Fields()[n].value), newValues, n)
    ensures !flatten ==> forall name, v ::
      (name in old(pdfDoc.Fields()) && (name, v) in newValues &&
       UniqueNames(newValues) && old(pdfDoc.Fields())[name].fieldClass == TextField) ==>
      exists i :: 0 <= i < |infos| && infos[i].name == name && infos[i].value == v
    ensures !flatten ==> forall n :: n in old(pdfDoc.Fields()) ==>
      exists i :: 0 <= i < |infos| && infos[i].name == n
    ensures !flatten && old(pdfDoc.acroForm) != null ==>
      && |infos| == |old(pdfDoc.acroForm.order)|
      && forall i :: 0 <= i < |infos| ==> infos[i].name == old(pdfDoc.acroForm.order)[i]
    ensures forall i, j :: 0 <= i < j < |infos| ==> infos[i].name != infos[j].name
  {
    FillFields(pdfDoc, newValues, flatten);
    infos := GetFieldInfos(pdfDoc);
    if !flatten {
      var form := pdfDoc.acroForm;
      forall n | n in old(pdfDoc.Fields())
        ensures exists i :: 0 <= i < |infos| && infos[i].name == n
      {
        var i :| 0 <= i < |form.order| && form.order[i] == n;
        assert infos[i].name == n;
      }
      forall name, v | name in old(pdfDoc.Fields()) && (name, v) in newValues &&
        UniqueNames(newValues) && old(pdfDoc.Fields())[name].fieldClass == TextField
        ensures exists i :: 0 <= i < |infos| && infos[i].name == name && infos[i].value == v
      {
        RequestedValueIsLookup(newValues, name, v);
        var i :| 0 <= i < |form.order| && form.order[i] == name;
        assert infos[i].name == name;
      }
    }
  }
}

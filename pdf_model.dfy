/**
 * The parts of the iText object model that the service touches, abstracted: a
 * field with its form-type tag, the iText class it was instantiated as, its
 * option list, widgets and flags; the AcroForm holding the fields by name; and
 * the document with its page tree.
 */
module PdfModel {
  import opened Wrappers
  import Seqs

  /** A name other than the four field types, so that every PDF name has one representation. */
  type OtherName = n: string | n != "Tx" && n != "Btn" && n != "Ch" && n != "Sig" witness "X"

  /** The `/FT` tag a field reports through `GetFormType()`. */
  datatype FormType = Tx | Btn | Ch | Sig | OtherType(name: OtherName)

  /** The PDF name of a tag, without its slash. */
  function TagName(t: FormType): string
  {
    match t
    case Tx => "Tx"
    case Btn => "Btn"
    case Ch => "Ch"
    case Sig => "Sig"
    case OtherType(name) => name
  }

  /** `PdfName.ToString()` of the tag: its name after a slash, "/Tx", "/Btn", "/Ch" and "/Sig" for the field types. */
  function FormTypeName(t: FormType): (s: string)
    ensures s == "/" + TagName(t)
    ensures t == Tx <==> s == "/Tx"
    ensures t == Btn <==> s == "/Btn"
    ensures t == Ch <==> s == "/Ch"
    ensures t == Sig <==> s == "/Sig"
  {
    match t
    case Tx => "/Tx"
    case Btn => "/Btn"
    case Ch => "/Ch"
    case Sig => "/Sig"
    case OtherType(name) =>
      assert ("/" + name)[1..] == name;
      "/" + name
  }

  /** Distinct tags are reported under distinct names. */
  lemma FormTypeNameInjective(a: FormType, b: FormType)
    ensures FormTypeName(a) == FormTypeName(b) ==> a == b
  {
    if FormTypeName(a) == FormTypeName(b) {
      assert TagName(a) == FormTypeName(a)[1..] == FormTypeName(b)[1..] == TagName(b);
    }
  }

  /**
   * The iText class a field object was created as. It is kept apart from the tag
   * because the code tests both: a `PdfButtonFormField` need not report `/Btn`.
   */
  datatype FieldClass = TextField | ButtonField | ChoiceField | SignatureField | PlainField

  /** The PDF objects that can stand in an `/Opt` array. */
  datatype PdfObject = PdfString(text: string) | PdfArray(items: seq<PdfObject>) | PdfNumber(number: real) | PdfOther

  /** `PdfArray.GetAsString(i)`: the entry when it is a string, else null. */
  function AsString(items: seq<PdfObject>, i: nat): Option<string>
    requires i < |items|
  {
    if items[i].PdfString? then Some(items[i].text) else None
  }

  /** A page object of the document, by its object number. */
  type PageRef = nat

  /** A widget annotation: the page it is placed on, if known, and its `/Rect`. */
  datatype Widget = Widget(page: Option<PageRef>, rect: Option<seq<real>>)

  /** The `/Ff` bits that `IsReadOnly()` and `IsRequired()` test (bits 1 and 2 of the PDF standard). */
  const ReadOnlyFlag: bv32 := 1
  const RequiredFlag: bv32 := 2

  /**
   * A form field (`PdfFormField`). Only its value is changed by this program;
   * everything else is read.
   */
  class FormField {
    const fieldClass: FieldClass
    const formType: FormType
    /** `/Opt`, or `None` when it is absent or not an array. */
    const options: Option<seq<PdfObject>>
    const widgets: seq<Widget>
    const flags: bv32
    var value: string

    constructor (fieldClass: FieldClass, formType: FormType, options: Option<seq<PdfObject>>,
                 widgets: seq<Widget>, flags: bv32, value: string)
      ensures this.fieldClass == fieldClass && this.formType == formType && this.options == options
      ensures this.widgets == widgets && this.flags == flags && this.value == value
    {
      this.fieldClass := fieldClass;
      this.formType := formType;
      this.options := options;
      this.widgets := widgets;
      this.flags := flags;
      this.value := value;
    }

    /** Bit position 1 of `/Ff` (value 1), as section 12.7.3.1 of ISO 32000-1 numbers the field flags. */
    predicate IsReadOnly()
      ensures IsReadOnly() <==> flags % 2 == 1
    {
      flags & ReadOnlyFlag != 0
    }

    /** Bit position 2 of `/Ff` (value 2). */
    predicate IsRequired()
      ensures IsRequired() <==> (flags / 2) % 2 == 1
    {
      flags & RequiredFlag != 0
    }
  }

  /** No field object is reachable under two names. */
  predicate DistinctFields(fields: map<string, FormField>) {
    forall a, b :: a in fields && b in fields && a != b ==> fields[a] != fields[b]
  }

  /**
   * The AcroForm: the fields by fully qualified name, the order in which
   * `GetAllFormFields()` enumerates them, and the `/NeedAppearances` flag.
   */
  class Form {
    var fields: map<string, FormField>
    var order: seq<string>
    var needAppearances: bool

    /** Names are unique, the order lists exactly the names, and no field object is shared by two names. */
    ghost predicate Valid()
      reads this
    {
      && (forall i, j :: 0 <= i < j < |order| ==> order[i] != order[j])
      && (forall n :: n in fields <==> n in order)
      && DistinctFields(fields)
    }

    /** An empty AcroForm, as `GetAcroForm(doc, true)` creates for a document without one. */
    constructor ()
      ensures Valid() && fields == map[] && order == [] && !needAppearances
    {
      fields := map[];
      order := [];
      needAppearances := false;
    }

    method SetNeedAppearances(needAppearances: bool)
      modifies this
      ensures this.needAppearances == needAppearances
      ensures fields == old(fields) && order == old(order)
    {
      this.needAppearances := needAppearances;
    }

    /** `FlattenFields()`: every interactive field is turned into page content and leaves the form. */
    method FlattenFields()
      modifies this
      ensures Valid() && fields == map[] && order == []
      ensures needAppearances == old(needAppearances)
    {
      fields := map[];
      order := [];
    }
  }

  /** A document: its page tree and, when it has one, its AcroForm. */
  class PdfDocument {
    const pages: seq<PageRef>
    var acroForm: Form?

    constructor (pages: seq<PageRef>, acroForm: Form?)
      ensures this.pages == pages && this.acroForm == acroForm
    {
      this.pages := pages;
      this.acroForm := acroForm;
    }

    /** The fields of the AcroForm, none when there is no AcroForm. */
    function Fields(): map<string, FormField>
      reads this, acroForm
    {
      if acroForm == null then map[] else acroForm.fields
    }

    /** The objects a fill may change: the AcroForm and its fields. */
    ghost function FormObjects(): set<object>
      reads this, acroForm
    {
      if acroForm == null then {} else {acroForm as object} + set f | f in acroForm.fields.Values :: f as object
    }

    /** `GetPageNumber(page)`: the 1-based position of `page` in the page tree, 0 when it is not there. */
    function GetPageNumber(page: PageRef): (n: int)
      ensures 0 <= n <= |pages|
      ensures n == 0 <==> page !in pages
      ensures n > 0 ==> pages[n - 1] == page && page !in pages[..n - 1]
    {
      Seqs.IndexOf(pages, page) + 1
    }

    /** `PdfAcroForm.GetAcroForm(doc, createIfMissing)`. */
    method GetAcroForm(createIfMissing: bool) returns (form: Form?)
      modifies this
      ensures old(acroForm) != null ==> form == acroForm == old(acroForm)
      ensures old(acroForm) == null && !createIfMissing ==> form == acroForm == null
      ensures old(acroForm) == null && createIfMissing ==>
        form == acroForm && fresh(form) && form.Valid() && form.fields == map[] && !form.needAppearances
    {
      if acroForm == null && createIfMissing {
        acroForm := new Form();
      }
      form := acroForm;
    }
  }
}

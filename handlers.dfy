/** The component's event handlers that build the next form state: `handleChange`,
    `addDocument`, `removeDocument` and `handleDocumentChange`. Each is one atomic
    transition from the current FormState to the next. */
module Handlers {
  import opened Form

  datatype AddressKind = Residential | Permanent

  datatype StreetLine = Line1 | Line2

  /** A change event, told apart by the input's name: `firstName`, `lastName`, `email`,
      `dob`, `residentialStreet1` ... `permanentStreet2`, or the `sameAddress` checkbox. */
  datatype Input =
    | FirstNameInput(value: string)
    | LastNameInput(value: string)
    | EmailInput(value: string)
    | DobInput(birthYear: Option<int>)
    | StreetInput(kind: AddressKind, line: StreetLine, value: string)
    | SameAddressInput(checked: bool)

  /** A change event inside one upload row: the name input, the type drop-down, or the
      file input, which delivers the MIME types of every file picked (possibly none). */
  datatype DocumentEdit =
    | FileNameEdit(value: string)
    | FileTypeEdit(value: string)
    | FileEdit(files: seq<string>)

  function AddressOf(f: FormState, kind: AddressKind): Address {
    match kind
    case Residential => f.residentialAddress
    case Permanent => f.permanentAddress
  }

  function StreetOf(a: Address, line: StreetLine): string {
    match line
    case Line1 => a.street1
    case Line2 => a.street2
  }

  /** One address line of the form, selected by address and line. */
  function StreetAt(f: FormState, kind: AddressKind, line: StreetLine): string {
    StreetOf(AddressOf(f, kind), line)
  }

  function WithStreet(a: Address, line: StreetLine, value: string): Address {
    match line
    case Line1 => a.(street1 := value)
    case Line2 => a.(street2 := value)
  }

  /** `handleChange`: an address input updates one line of the address its name
      selects; the checkbox sets `sameAddress` and copies the residential address into the
      permanent one, or clears it; any other input sets the field it names. */
  function HandleChange(f: FormState, input: Input): (r: FormState)
    ensures r.documents == f.documents
    ensures input.StreetInput? ==>
      && StreetAt(r, input.kind, input.line) == input.value
      && (forall kind, line :: kind != input.kind || line != input.line ==> StreetAt(r, kind, line) == StreetAt(f, kind, line))
      && r.(residentialAddress := f.residentialAddress, permanentAddress := f.permanentAddress) == f
    ensures input.SameAddressInput? ==>
      && r.sameAddress == input.checked
      && (input.checked ==> r.permanentAddress == f.residentialAddress)
      && (!input.checked ==> r.permanentAddress == EmptyAddress)
      && r.(sameAddress := f.sameAddress, permanentAddress := f.permanentAddress) == f
    ensures input.FirstNameInput? ==> r.firstName == input.value && r.(firstName := f.firstName) == f
    ensures input.LastNameInput? ==> r.lastName == input.value && r.(lastName := f.lastName) == f
    ensures input.EmailInput? ==> r.email == input.value && r.(email := f.email) == f
    ensures input.DobInput? ==> r.dob == input.birthYear && r.(dob := f.dob) == f
  {
    match input
    case StreetInput(kind, line, value) =>
      (match kind
       case Residential => f.(residentialAddress := WithStreet(f.residentialAddress, line, value))
       case Permanent => f.(permanentAddress := WithStreet(f.permanentAddress, line, value)))
    case SameAddressInput(checked) =>
      f.(sameAddress := checked, permanentAddress := if checked then f.residentialAddress else EmptyAddress)
    case FirstNameInput(value) => f.(firstName := value)
    case LastNameInput(value) => f.(lastName := value)
    case EmailInput(value) => f.(email := value)
    case DobInput(birthYear) => f.(dob := birthYear)
  }

  /** The list `filter((_, i) => i !== index)` keeps: every row whose position is not
      `index`, in order. */
  function WithoutIndex(docs: seq<Document>, index: int): (r: seq<Document>)
    ensures 0 <= index < |docs| ==> r == docs[..index] + docs[index + 1..]
    ensures !(0 <= index < |docs|) ==> r == docs
  {
    if docs == [] then []
    else
      var last := |docs| - 1;
      WithoutIndex(docs[..last], index) + (if index == last then [] else [docs[last]])
  }

  /** `addDocument`: one empty row is appended and nothing else changes. */
  function AddDocument(f: FormState): (r: FormState)
    ensures |r.documents| == |f.documents| + 1
    ensures r.documents[..|f.documents|] == f.documents
    ensures r.documents[|f.documents|] == EmptyDocument
    ensures r.(documents := f.documents) == f
  {
    f.(documents := f.documents + [EmptyDocument])
  }

  /** `removeDocument`: row 0 is never removed; any other existing row is removed and the
      remaining rows keep their order; an index past the end changes nothing. */
  function RemoveDocument(f: FormState, index: int): (r: FormState)
    ensures index == 0 ==> r == f
    ensures 0 < index < |f.documents| ==> r.documents == f.documents[..index] + f.documents[index + 1..]
    ensures !(0 < index < |f.documents|) ==> r == f
    ensures r.(documents := f.documents) == f
  {
    if index == 0 then f else f.(documents := WithoutIndex(f.documents, index))
  }

  /** The row after one edit; from a file input only the first picked file is kept. */
  function Edited(d: Document, edit: DocumentEdit): Document {
    match edit
    case FileNameEdit(value) => d.(fileName := value)
    case FileTypeEdit(value) => d.(fileType := value)
    case FileEdit(files) => d.(file := if |files| > 0 then Some(files[0]) else None)
  }

  /** `handleDocumentChange`: the edit lands in row `index` only. */
  function HandleDocumentChange(f: FormState, index: nat, edit: DocumentEdit): (r: FormState)
    requires index < |f.documents|
    ensures |r.documents| == |f.documents|
    ensures forall i :: 0 <= i < |f.documents| && i != index ==> r.documents[i] == f.documents[i]
    ensures edit.FileNameEdit? ==> r.documents[index] == f.documents[index].(fileName := edit.value)
    ensures edit.FileTypeEdit? ==> r.documents[index] == f.documents[index].(fileType := edit.value)
    ensures edit.FileEdit? && edit.files == [] ==> r.documents[index].file == None
    ensures edit.FileEdit? && edit.files != [] ==> r.documents[index].file == Some(edit.files[0])
    ensures edit.FileEdit? ==> r.documents[index].(file := f.documents[index].file) == f.documents[index]
    ensures r.(documents := f.documents) == f
  {
    f.(documents := f.documents[index := Edited(f.documents[index], edit)])
  }

  // ---------------------------------------------------------------------------
  // The upload list invariant

  /** No handler can empty the upload list or remove its first row. */
  lemma HandlersKeepFirstDocument(f: FormState, input: Input, index: int, row: nat, edit: DocumentEdit)
    requires HasFirstDocument(f)
    ensures HasFirstDocument(HandleChange(f, input))
    ensures HasFirstDocument(AddDocument(f)) && AddDocument(f).documents[0] == f.documents[0]
    ensures HasFirstDocument(RemoveDocument(f, index)) && RemoveDocument(f, index).documents[0] == f.documents[0]
    ensures row < |f.documents| ==> HasFirstDocument(HandleDocumentChange(f, row, edit))
  {
    if 0 < index < |f.documents| {
      assert RemoveDocument(f, index).documents[0] == (f.documents[..index] + f.documents[index + 1..])[0];
    }
  }

  /** Ticking the box copies the residential address, but a later residential edit is
      not carried over to the permanent address while the box stays ticked. */
  lemma ResidentialEditLeavesCopyStale()
    ensures exists f: FormState, v: string ::
      && f.sameAddress && f.permanentAddress == f.residentialAddress
      && var g := HandleChange(f, StreetInput(Residential, Line1, v));
         g.sameAddress && g.permanentAddress != g.residentialAddress
  {
    var f := HandleChange(Initial, SameAddressInput(true));
    assert f.sameAddress && f.permanentAddress == f.residentialAddress;
    var g := HandleChange(f, StreetInput(Residential, Line1, "x"));
    assert g.residentialAddress.street1 == "x" && g.permanentAddress.street1 == "";
  }

  /** Ticking and then unticking the box leaves an empty permanent address, whatever was
      typed there before. */
  lemma ToggleOnThenOffClearsPermanent(f: FormState)
    ensures var g := HandleChange(HandleChange(f, SameAddressInput(true)), SameAddressInput(false));
      && !g.sameAddress && g.permanentAddress == EmptyAddress
      && g.residentialAddress == f.residentialAddress
  {
  }
}

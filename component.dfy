/** The Home form component: its two pieces of state, `formData` and `errors`, and the
    handlers that replace them. */
module Component {
  import opened Form
  import opened Validation
  import opened Submission
  import Handlers

  /** How the POST of the body ended: a response whose `success` flag is read, or a
      transport or server failure. */
  datatype PostResult = Responded(success: bool) | Failed

  /** The rules of `validate` that read the scalar fields and the addresses, in source
      order, each recording its message and clearing the validity flag when it fails. */
  method CheckFields(f: FormState, currentYear: int) returns (found: map<ErrorKey, string>, isValid: bool)
    ensures found == FieldErrors(f, currentYear)
    ensures isValid <==> FieldsAcceptable(f, currentYear)
  {
    found := map[];
    isValid := true;
    if f.firstName == "" {
      isValid := false;
      found := found[FirstName := FirstNameRequired];
    }
    if f.lastName == "" {
      isValid := false;
      found := found[LastName := LastNameRequired];
    }
    if f.email == "" {
      isValid := false;
      found := found[Email := EmailRequired];
    }
    if f.dob.None? {
      isValid := false;
      found := found[Dob := DobRequired];
    } else {
      var age := currentYear - f.dob.value;
      if age < MinimumAge {
        isValid := false;
        found := found[Dob := UnderAge];
      }
    }
    // the name, e-mail and date-of-birth rules are done
    assert found == PersonalErrors(f, currentYear, map[]);
    if f.residentialAddress.street1 == "" {
      isValid := false;
      found := found[Street1 := Street1Required];
    }
    if !f.sameAddress {
      if f.permanentAddress.street1 == "" {
        isValid := false;
        found := found[PermanentStreet1 := PermanentStreet1Required];
      }
    }
    if f.residentialAddress.street2 == "" {
      isValid := false;
      found := found[Street2 := Street2Required];
    }
    if !f.sameAddress {
      if f.permanentAddress.street2 == "" {
        isValid := false;
        found := found[PermanentStreet2 := PermanentStreet2Required];
      }
    }
  }

  /** The callback `validate` runs on each upload row: its three rules, recorded in the
      map and the validity flag it shares with `validate`. */
  method CheckDocument(doc: Document, index: nat, found: map<ErrorKey, string>, isValid: bool)
    returns (found': map<ErrorKey, string>, isValid': bool)
    ensures found' == DocumentErrors(found, doc, index)
    ensures isValid' <==> isValid && DocumentComplete(doc)
  {
    found', isValid' := found, isValid;
    if doc.fileName == "" {
      isValid' := false;
      found' := found'[DocumentFileName(index) := FileNameRequired];
    }
    if doc.fileType == "" {
      isValid' := false;
      found' := found'[DocumentFileType(index) := FileTypeRequired];
    }
    if doc.file.None? {
      isValid' := false;
      found' := found'[DocumentFile(index) := FileRequired];
    } else if FileTypeMismatch(doc.fileType, doc.file.value) {
      isValid' := false;
      found' := found'[DocumentFile(index) := WrongFileType(doc.fileType)];
    }
  }

  /** `forEach` over the upload rows, in list order. */
  method CheckDocuments(f: FormState, currentYear: int, found: map<ErrorKey, string>, isValid: bool)
    returns (found': map<ErrorKey, string>, isValid': bool)
    requires found == FixedErrors(f, currentYear)
    ensures found' == RowErrors(f, currentYear, |f.documents|)
    ensures isValid' <==> isValid && forall j :: 0 <= j < |f.documents| ==> DocumentComplete(f.documents[j])
  {
    found', isValid' := found, isValid;
    var index := 0;
    while index < |f.documents|
      invariant index <= |f.documents|
      invariant found' == RowErrors(f, currentYear, index)
      invariant isValid' <==> isValid && RowsComplete(f.documents, index)
    {
      found', isValid' := CheckDocument(f.documents[index], index, found', isValid');
      index := index + 1;
    }
    RowsCompleteAll(f.documents, |f.documents|);
  }

  class Home {
    var formData: FormState
    var errors: map<ErrorKey, string>

    ghost predicate Valid()
      reads this
    {
      HasFirstDocument(formData)
    }

    /** The state on mount. */
    constructor ()
      ensures Valid()
      ensures formData == Initial && errors == map[]
    {
      formData := Initial;
      errors := map[];
    }

    method HandleChange(input: Handlers.Input)
      requires Valid()
      modifies this`formData
      ensures Valid()
      ensures formData == Handlers.HandleChange(old(formData), input)
    {
      formData := Handlers.HandleChange(formData, input);
    }

    method AddDocument()
      requires Valid()
      modifies this`formData
      ensures Valid()
      ensures formData == Handlers.AddDocument(old(formData))
    {
      formData := Handlers.AddDocument(formData);
    }

    method RemoveDocument(index: int)
      requires Valid()
      modifies this`formData
      ensures Valid()
      ensures formData == Handlers.RemoveDocument(old(formData), index)
      ensures formData.documents[0] == old(formData.documents[0])
    {
      Handlers.HandlersKeepFirstDocument(formData, Handlers.SameAddressInput(false), index, 0, Handlers.FileEdit([]));
      formData := Handlers.RemoveDocument(formData, index);
    }

    method HandleDocumentChange(index: nat, edit: Handlers.DocumentEdit)
      requires Valid()
      requires index < |formData.documents|
      modifies this`formData
      ensures Valid()
      ensures formData == Handlers.HandleDocumentChange(old(formData), index, edit)
    {
      formData := Handlers.HandleDocumentChange(formData, index, edit);
    }

    /** `validate`: runs every rule over the current form, records the messages as the
        new `errors`, and reports whether none was recorded. */
    method Validate(currentYear: int) returns (isValid: bool)
      modifies this`errors
      ensures errors == ValidationErrors(formData, currentYear)
      ensures isValid <==> Acceptable(formData, currentYear)
      ensures isValid <==> errors == map[]
    {
      var f := formData;
      var found;
      found, isValid := CheckFields(f, currentYear);
      if |f.documents| < MinimumDocuments {
        isValid := false;
        found := found[Documents := DocumentsRequired];
      } else {
        found, isValid := CheckDocuments(f, currentYear, found, isValid);
      }
      AccumulatedIsValidationErrors(f, currentYear);
      errors := found;
      NoErrorsIffAcceptable(f, currentYear);
    }

    /** `handleSubmit`: validates; if valid, builds the body and posts it, and only a
        response flagged as successful resets the form to its state on mount. */
    method HandleSubmit(currentYear: int, post: PostResult) returns (sent: Option<seq<Part>>)
      requires Valid()
      modifies this
      ensures Valid()
      ensures errors == ValidationErrors(old(formData), currentYear)
      ensures !Acceptable(old(formData), currentYear) ==> sent == None && formData == old(formData)
      ensures Acceptable(old(formData), currentYear) ==> sent == Some(Payload(old(formData)))
      ensures Acceptable(old(formData), currentYear) && post == Responded(true) ==> formData == Initial
      ensures post != Responded(true) ==> formData == old(formData)
    {
      var isValid := Validate(currentYear);
      if isValid {
        var parts := BuildPayload(formData);
        sent := Some(parts);
        if post == Responded(true) {
          formData := Initial;
        }
      } else {
        sent := None;
      }
    }
  }
}

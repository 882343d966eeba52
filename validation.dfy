/** The rule set the component's `validate` applies to the form before it is submitted:
    every rule that fails records one message under its own key. */
module Validation {
  import opened Form

  /** The keys of the error map. `Street1` and `Street2` are the residential address
      lines; the per-document keys carry the row index. */
  datatype ErrorKey =
    | FirstName | LastName | Email | Dob
    | Street1 | PermanentStreet1 | Street2 | PermanentStreet2
    | Documents
    | DocumentFileName(index: nat)
    | DocumentFileType(index: nat)
    | DocumentFile(index: nat)
  {
    predicate IsPersonal() {
      FirstName? || LastName? || Email? || Dob?
    }

    predicate IsAddress() {
      Street1? || PermanentStreet1? || Street2? || PermanentStreet2?
    }

    predicate IsPerDocument() {
      DocumentFileName? || DocumentFileType? || DocumentFile?
    }
  }

  const MinimumAge := 18
  const MinimumDocuments := 2

  // The messages, verbatim; the two street-2 messages repeat the street-1 wording.
  const FirstNameRequired := "First Name is required"
  const LastNameRequired := "Last Name is required"
  const EmailRequired := "Email is required"
  const DobRequired := "Date of Birth is required"
  const UnderAge := "You must be at least 18 years old"
  const Street1Required := "Residential Street 1 is required"
  const PermanentStreet1Required := "Permanent Street 1 is required"
  const Street2Required := "Residential Street 1 is required"
  const PermanentStreet2Required := "Permanent Street 1 is required"
  const DocumentsRequired := "At least two documents are required"
  const FileNameRequired := "File Name is required"
  const FileTypeRequired := "File Type is required"
  const FileRequired := "File is required"

  function WrongFileType(fileType: string): string {
    "File must be of type " + fileType
  }

  const PdfMimeType := "application/pdf"
  const WordMimeTypes := ["application/msword", "application/vnd.openxmlformats-officedocument.wordprocessingml.document"]
  const JpegMimeTypes := ["image/jpeg", "image/jpg"]

  // ---------------------------------------------------------------------------
  // The string keys the error map is indexed by

  function DigitChar(d: nat): (c: char)
    requires d < 10
    ensures '0' <= c <= '9'
  {
    (48 + d) as char
  }

  /** The decimal numeral a template literal produces for a row index. */
  function Decimal(n: nat): (s: string)
    ensures 1 <= |s|
    ensures n < 10 <==> |s| == 1
    ensures forall i :: 0 <= i < |s| ==> '0' <= s[i] <= '9'
  {
    if n < 10 then [DigitChar(n)] else Decimal(n / 10) + [DigitChar(n % 10)]
  }

  /** The property name under which the source stores the message for a key. */
  function KeyName(k: ErrorKey): string {
    match k
    case FirstName => "firstName"
    case LastName => "lastName"
    case Email => "email"
    case Dob => "dob"
    case Street1 => "street1"
    case PermanentStreet1 => "permanentStreet1"
    case Street2 => "street2"
    case PermanentStreet2 => "permanentStreet2"
    case Documents => "documents"
    case DocumentFileName(i) => "documents_" + Decimal(i) + "_fileName"
    case DocumentFileType(i) => "documents_" + Decimal(i) + "_fileType"
    case DocumentFile(i) => "documents_" + Decimal(i) + "_file"
  }

  lemma {:induction false} DecimalInjective(a: nat, b: nat)
    requires Decimal(a) == Decimal(b)
    ensures a == b
  {
    if a >= 10 && b >= 10 {
      var s := Decimal(a);
      assert Decimal(a / 10) == s[..|s| - 1] == Decimal(b / 10);
      DecimalInjective(a / 10, b / 10);
      assert DigitChar(a % 10) == s[|s| - 1] == DigitChar(b % 10);
    }
  }

  /** Distinct keys are stored under distinct names, so a map over ErrorKey holds exactly
      the entries of the source's string-keyed error object. */
  lemma KeyNameInjective(j: ErrorKey, k: ErrorKey)
    ensures KeyName(j) == KeyName(k) ==> j == k
  {
    var sj, sk := KeyName(j), KeyName(k);
    if j.IsPerDocument() && k.IsPerDocument() {
      var dj, dk := Decimal(j.index), Decimal(k.index);
      assert sj[10..10 + |dj|] == dj && sj[10 + |dj|] == '_';
      assert sk[10..10 + |dk|] == dk && sk[10 + |dk|] == '_';
      if |dj| < |dk| {
        assert sk[10 + |dj|] == dk[|dj|];
      } else if |dk| < |dj| {
        assert sj[10 + |dk|] == dj[|dk|];
      } else if dj != dk {
        assert sj[10..10 + |dj|] != sk[10..10 + |dk|];
      } else {
        DecimalInjective(j.index, k.index);
        assert sj[10 + |dj|..] == KeyName(j)[10 + |dj|..];
        assert sk[10 + |dk|..] == KeyName(k)[10 + |dk|..];
      }
    } else if j.IsPerDocument() {
      assert |sj| >= 16 && sj[0] == 'd' && sj[9] == '_';
    } else if k.IsPerDocument() {
      assert |sk| >= 16 && sk[0] == 'd' && sk[9] == '_';
    }
  }

  // ---------------------------------------------------------------------------
  // The rules

  /** The MIME types a declared extension admits; None for an extension with no check. */
  function AcceptedMimeTypes(fileType: string): Option<seq<string>> {
    if fileType == ".pdf" then Some([PdfMimeType])
    else if fileType == ".doc" then Some(WordMimeTypes)
    else if fileType == ".jpg" then Some(JpegMimeTypes)
    else None
  }

  /** The source's three-way condition under which a chosen file does not match its
      declared extension. */
  function FileTypeMismatch(fileType: string, mime: string): (mismatch: bool)
    ensures mismatch <==> AcceptedMimeTypes(fileType).Some? && mime !in AcceptedMimeTypes(fileType).value
    ensures fileType == ".webp" ==> !mismatch
  {
    (fileType == ".pdf" && mime != PdfMimeType)
    || (fileType == ".doc" && mime !in WordMimeTypes)
    || (fileType == ".jpg" && mime !in JpegMimeTypes)
  }

  /** Whether the file rule fails for one row: no file chosen, or a type mismatch. */
  predicate FileFails(d: Document) {
    d.file.None? || FileTypeMismatch(d.fileType, d.file.value)
  }

  /** The message the file rule records for one row: a missing file comes first. */
  function FileMessage(d: Document): string {
    if d.file.None? then FileRequired else WrongFileType(d.fileType)
  }

  /** Whether the date-of-birth rule fails: no date, or fewer than 18 years between the
      birth year and the current year. */
  predicate DobFails(f: FormState, currentYear: int) {
    f.dob.None? || currentYear - f.dob.value < MinimumAge
  }

  function DobMessage(f: FormState): string {
    if f.dob.None? then DobRequired else UnderAge
  }

  /** The message the per-row callback records under one of a row's keys, if its rule
      fails for that row. */
  function RowError(d: Document, k: ErrorKey): Option<string>
    requires k.IsPerDocument()
  {
    if k.DocumentFileName? then (if d.fileName == "" then Some(FileNameRequired) else None)
    else if k.DocumentFileType? then (if d.fileType == "" then Some(FileTypeRequired) else None)
    else if FileFails(d) then Some(FileMessage(d)) else None
  }

  /** The message recorded under key k, if its rule fails. Each rule reads only its own
      fields; per-document rules apply only to rows that exist and only once there are
      at least two rows. */
  function ErrorAt(f: FormState, currentYear: int, k: ErrorKey): Option<string> {
    var docs := f.documents;
    match k
    case FirstName => if f.firstName == "" then Some(FirstNameRequired) else None
    case LastName => if f.lastName == "" then Some(LastNameRequired) else None
    case Email => if f.email == "" then Some(EmailRequired) else None
    case Dob => if DobFails(f, currentYear) then Some(DobMessage(f)) else None
    case Street1 => if f.residentialAddress.street1 == "" then Some(Street1Required) else None
    case PermanentStreet1 =>
      if !f.sameAddress && f.permanentAddress.street1 == "" then Some(PermanentStreet1Required) else None
    case Street2 => if f.residentialAddress.street2 == "" then Some(Street2Required) else None
    case PermanentStreet2 =>
      if !f.sameAddress && f.permanentAddress.street2 == "" then Some(PermanentStreet2Required) else None
    case Documents => if |docs| < MinimumDocuments then Some(DocumentsRequired) else None
    case _ => if MinimumDocuments <= |docs| && k.index < |docs| then RowError(docs[k.index], k) else None
  }

  function FixedKeys(): set<ErrorKey> {
    {FirstName, LastName, Email, Dob, Street1, PermanentStreet1, Street2, PermanentStreet2, Documents}
  }

  function DocumentKeys(n: nat): set<ErrorKey> {
    (set i: nat | i < n :: DocumentFileName(i))
    + (set i: nat | i < n :: DocumentFileType(i))
    + (set i: nat | i < n :: DocumentFile(i))
  }

  /** The error map `validate` leaves behind: exactly the keys whose rule fails, each with
      that rule's message. */
  function ValidationErrors(f: FormState, currentYear: int): (errors: map<ErrorKey, string>)
    ensures forall k :: k in errors <==> ErrorAt(f, currentYear, k).Some?
    ensures forall k :: k in errors ==> errors[k] == ErrorAt(f, currentYear, k).value
  {
    var keys := FixedKeys() + DocumentKeys(|f.documents|);
    assert forall k :: ErrorAt(f, currentYear, k).Some? ==> k in keys by {
      forall k | ErrorAt(f, currentYear, k).Some? ensures k in keys {
        if k.IsPerDocument() {
          assert k.index < |f.documents|;
        }
      }
    }
    map k | k in keys && ErrorAt(f, currentYear, k).Some? :: ErrorAt(f, currentYear, k).value
  }

  /** The message a map holds under k, if any. */
  function Lookup(m: map<ErrorKey, string>, k: ErrorKey): Option<string> {
    if k in m then Some(m[k]) else None
  }

  /** The error map read at one key is that key's rule. */
  lemma ValidationErrorsAt(f: FormState, currentYear: int, k: ErrorKey)
    ensures Lookup(ValidationErrors(f, currentYear), k) == ErrorAt(f, currentYear, k)
  {
  }

  // ---------------------------------------------------------------------------
  // The map as `validate` accumulates it, rule after rule

  /** The map after one rule has run: its message added under k when the rule fails. */
  function Record(found: map<ErrorKey, string>, fails: bool, k: ErrorKey, message: string): map<ErrorKey, string> {
    if fails then found[k := message] else found
  }

  /** The map after the name, e-mail and date-of-birth rules have run on `found`. */
  function PersonalErrors(f: FormState, currentYear: int, found: map<ErrorKey, string>): map<ErrorKey, string> {
    var m := Record(found, f.firstName == "", FirstName, FirstNameRequired);
    var m := Record(m, f.lastName == "", LastName, LastNameRequired);
    var m := Record(m, f.email == "", Email, EmailRequired);
    Record(m, DobFails(f, currentYear), Dob, DobMessage(f))
  }

  /** The map after the four address rules have run on `found`. */
  function AddressErrors(f: FormState, found: map<ErrorKey, string>): map<ErrorKey, string> {
    var m := Record(found, f.residentialAddress.street1 == "", Street1, Street1Required);
    var m := Record(m, !f.sameAddress && f.permanentAddress.street1 == "", PermanentStreet1, PermanentStreet1Required);
    var m := Record(m, f.residentialAddress.street2 == "", Street2, Street2Required);
    Record(m, !f.sameAddress && f.permanentAddress.street2 == "", PermanentStreet2, PermanentStreet2Required)
  }

  /** The map after every rule that does not look at the upload list, in source order. */
  function FieldErrors(f: FormState, currentYear: int): map<ErrorKey, string> {
    AddressErrors(f, PersonalErrors(f, currentYear, map[]))
  }

  /** The map once the list-length rule has also run. */
  function FixedErrors(f: FormState, currentYear: int): map<ErrorKey, string> {
    Record(FieldErrors(f, currentYear), |f.documents| < MinimumDocuments, Documents, DocumentsRequired)
  }

  /** The map after the three rules of one upload row have run. */
  function DocumentErrors(found: map<ErrorKey, string>, d: Document, index: nat): map<ErrorKey, string> {
    var m := Record(found, d.fileName == "", DocumentFileName(index), FileNameRequired);
    var m := Record(m, d.fileType == "", DocumentFileType(index), FileTypeRequired);
    Record(m, FileFails(d), DocumentFile(index), FileMessage(d))
  }

  /** The map after the rules of each of the first `rows` rows have also run. */
  function RowErrors(f: FormState, currentYear: int, rows: nat): map<ErrorKey, string>
    requires rows <= |f.documents|
  {
    if rows == 0 then FixedErrors(f, currentYear)
    else DocumentErrors(RowErrors(f, currentYear, rows - 1), f.documents[rows - 1], rows - 1)
  }

  /** Each group of rules adds the messages of its own failing rules and keeps the rest. */
  lemma PersonalErrorsAt(f: FormState, currentYear: int, found: map<ErrorKey, string>, k: ErrorKey)
    ensures Lookup(PersonalErrors(f, currentYear, found), k)
      == if k.IsPersonal() && ErrorAt(f, currentYear, k).Some? then ErrorAt(f, currentYear, k) else Lookup(found, k)
  {
  }

  lemma AddressErrorsAt(f: FormState, found: map<ErrorKey, string>, currentYear: int, k: ErrorKey)
    ensures Lookup(AddressErrors(f, found), k)
      == if k.IsAddress() && ErrorAt(f, currentYear, k).Some? then ErrorAt(f, currentYear, k) else Lookup(found, k)
  {
  }

  lemma DocumentErrorsAt(f: FormState, currentYear: int, found: map<ErrorKey, string>, index: nat, k: ErrorKey)
    requires MinimumDocuments <= |f.documents| && index < |f.documents|
    ensures Lookup(DocumentErrors(found, f.documents[index], index), k)
      == if k.IsPerDocument() && k.index == index && ErrorAt(f, currentYear, k).Some? then ErrorAt(f, currentYear, k) else Lookup(found, k)
  {
  }

  lemma FixedErrorsAt(f: FormState, currentYear: int, k: ErrorKey)
    ensures Lookup(FixedErrors(f, currentYear), k) == (if k.IsPerDocument() then None else ErrorAt(f, currentYear, k))
  {
    PersonalErrorsAt(f, currentYear, map[], k);
    AddressErrorsAt(f, PersonalErrors(f, currentYear, map[]), currentYear, k);
  }

  /** Part-way through, the accumulated map holds exactly the failing rules run so far. */
  lemma {:induction false} RowErrorsAt(f: FormState, currentYear: int, rows: nat, k: ErrorKey)
    requires rows <= |f.documents| && (rows == 0 || MinimumDocuments <= |f.documents|)
    ensures Lookup(RowErrors(f, currentYear, rows), k)
      == (if k.IsPerDocument() && k.index >= rows then None else ErrorAt(f, currentYear, k))
  {
    if rows > 0 {
      RowErrorsAt(f, currentYear, rows - 1, k);
      DocumentErrorsAt(f, currentYear, RowErrors(f, currentYear, rows - 1), rows - 1, k);
    } else {
      FixedErrorsAt(f, currentYear, k);
    }
  }

  /** Once every row has been visited (or, with fewer than two rows, none), the
      accumulated map is the error map. */
  lemma AccumulatedAgreesAt(f: FormState, currentYear: int, rows: nat, k: ErrorKey)
    requires (rows == |f.documents| && MinimumDocuments <= |f.documents|) || (rows == 0 && |f.documents| < MinimumDocuments)
    ensures var acc, spec := RowErrors(f, currentYear, rows), ValidationErrors(f, currentYear);
      (k in acc <==> k in spec) && (k in acc ==> acc[k] == spec[k])
  {
    RowErrorsAt(f, currentYear, rows, k);
  }

  lemma AccumulatedIsValidationErrors(f: FormState, currentYear: int)
    ensures MinimumDocuments <= |f.documents| ==> RowErrors(f, currentYear, |f.documents|) == ValidationErrors(f, currentYear)
    ensures |f.documents| < MinimumDocuments ==> FixedErrors(f, currentYear) == ValidationErrors(f, currentYear)
  {
    if MinimumDocuments <= |f.documents| {
      forall k {
        AccumulatedAgreesAt(f, currentYear, |f.documents|, k);
      }
    } else {
      forall k {
        AccumulatedAgreesAt(f, currentYear, 0, k);
      }
      assert RowErrors(f, currentYear, 0) == ValidationErrors(f, currentYear);
    }
  }

  /** Reference statement of an acceptable form, written as one conjunction. */
  predicate DocumentComplete(d: Document) {
    d.fileName != "" && d.fileType != "" && d.file.Some? && !FileTypeMismatch(d.fileType, d.file.value)
  }

  /** The first n rows are complete. */
  predicate RowsComplete(docs: seq<Document>, n: nat)
    requires n <= |docs|
  {
    n == 0 || (RowsComplete(docs, n - 1) && DocumentComplete(docs[n - 1]))
  }

  lemma {:induction false} RowsCompleteAll(docs: seq<Document>, n: nat)
    requires n <= |docs|
    ensures RowsComplete(docs, n) <==> forall j :: 0 <= j < n ==> DocumentComplete(docs[j])
  {
    if n > 0 {
      RowsCompleteAll(docs, n - 1);
    }
  }

  /** Every rule that does not look at the upload rows is met. */
  predicate FieldsAcceptable(f: FormState, currentYear: int) {
    && f.firstName != "" && f.lastName != "" && f.email != ""
    && f.dob.Some? && currentYear - f.dob.value >= MinimumAge
    && f.residentialAddress.street1 != "" && f.residentialAddress.street2 != ""
    && (f.sameAddress || (f.permanentAddress.street1 != "" && f.permanentAddress.street2 != ""))
  }

  predicate Acceptable(f: FormState, currentYear: int) {
    && FieldsAcceptable(f, currentYear)
    && |f.documents| >= MinimumDocuments
    && forall i :: 0 <= i < |f.documents| ==> DocumentComplete(f.documents[i])
  }

  // ---------------------------------------------------------------------------
  // What the rules promise

  /** The form is valid (no message recorded) exactly when every rule is met. */
  lemma NoErrorsIffAcceptable(f: FormState, currentYear: int)
    ensures ValidationErrors(f, currentYear) == map[] <==> Acceptable(f, currentYear)
  {
    var errors := ValidationErrors(f, currentYear);
    if Acceptable(f, currentYear) {
      forall k ensures k !in errors {
        AcceptableBreaksNoRule(f, currentYear, k);
      }
    } else {
      var k := FailingRule(f, currentYear);
      assert k in errors;
    }
  }

  lemma AcceptableBreaksNoRule(f: FormState, currentYear: int, k: ErrorKey)
    requires Acceptable(f, currentYear)
    ensures ErrorAt(f, currentYear, k).None?
  {
    if k.IsPerDocument() && k.index < |f.documents| {
      assert DocumentComplete(f.documents[k.index]);
    }
  }

  /** A form that is not acceptable breaks at least one rule. */
  lemma FailingRule(f: FormState, currentYear: int) returns (k: ErrorKey)
    requires !Acceptable(f, currentYear)
    ensures ErrorAt(f, currentYear, k).Some?
  {
    var docs := f.documents;
    if !FieldsAcceptable(f, currentYear) {
      k := if f.firstName == "" then FirstName
        else if f.lastName == "" then LastName
        else if f.email == "" then Email
        else if DobFails(f, currentYear) then Dob
        else if f.residentialAddress.street1 == "" then Street1
        else if f.residentialAddress.street2 == "" then Street2
        else if f.permanentAddress.street1 == "" then PermanentStreet1
        else PermanentStreet2;
    } else if |docs| < MinimumDocuments {
      k := Documents;
    } else {
      var i :| 0 <= i < |docs| && !DocumentComplete(docs[i]);
      k := if docs[i].fileName == "" then DocumentFileName(i)
        else if docs[i].fileType == "" then DocumentFileType(i)
        else DocumentFile(i);
    }
  }

  /** An empty first name, last name or e-mail is reported under its own key. */
  lemma RequiredNameAndEmail(f: FormState, currentYear: int)
    ensures var errors := ValidationErrors(f, currentYear);
      && (FirstName in errors <==> f.firstName == "")
      && (LastName in errors <==> f.lastName == "")
      && (Email in errors <==> f.email == "")
      && (FirstName in errors ==> errors[FirstName] == FirstNameRequired)
      && (LastName in errors ==> errors[LastName] == LastNameRequired)
      && (Email in errors ==> errors[Email] == EmailRequired)
  {
  }

  /** The date-of-birth rule: missing is "required"; otherwise only the difference of the
      years is compared, so a difference of exactly 18 passes. */
  lemma DateOfBirthRule(f: FormState, currentYear: int)
    ensures var errors := ValidationErrors(f, currentYear);
      && (f.dob.None? ==> Dob in errors && errors[Dob] == DobRequired)
      && (f.dob.Some? ==> (Dob in errors <==> currentYear - f.dob.value < 18))
      && (f.dob.Some? && Dob in errors ==> errors[Dob] == UnderAge)
      && (f.dob == Some(currentYear - 18) ==> Dob !in errors)
  {
  }

  /** Residential lines are always required; permanent lines only without "same address". */
  lemma AddressRules(f: FormState, currentYear: int)
    ensures var errors := ValidationErrors(f, currentYear);
      && (Street1 in errors <==> f.residentialAddress.street1 == "")
      && (Street2 in errors <==> f.residentialAddress.street2 == "")
      && (PermanentStreet1 in errors <==> !f.sameAddress && f.permanentAddress.street1 == "")
      && (PermanentStreet2 in errors <==> !f.sameAddress && f.permanentAddress.street2 == "")
  {
  }

  /** With "same address" ticked the permanent address does not affect validation at all. */
  lemma SameAddressIgnoresPermanent(f: FormState, currentYear: int, other: Address)
    requires f.sameAddress
    ensures ValidationErrors(f, currentYear) == ValidationErrors(f.(permanentAddress := other), currentYear)
  {
    var g := f.(permanentAddress := other);
    assert forall k :: ErrorAt(f, currentYear, k) == ErrorAt(g, currentYear, k);
  }

  /** The "documents" message is recorded exactly when there are fewer than two rows, and
      then no per-row key is; otherwise every per-row key names a row that exists. */
  lemma DocumentCountRule(f: FormState, currentYear: int)
    ensures var errors := ValidationErrors(f, currentYear);
      && (Documents in errors <==> |f.documents| < 2)
      && (Documents in errors ==> errors[Documents] == DocumentsRequired)
      && (|f.documents| < 2 ==> forall k :: k in errors ==> !k.IsPerDocument())
      && (forall k :: k in errors && k.IsPerDocument() ==> k.index < |f.documents|)
  {
  }

  /** Each row is checked on its own: whatever else differs between two forms with at
      least two rows, a row they share gets the same entries under its three keys. */
  lemma DocumentRowsIndependent(f: FormState, g: FormState, currentYear: int, k: ErrorKey)
    requires |f.documents| >= 2 && |g.documents| >= 2 && k.IsPerDocument()
    requires k.index < |f.documents| && k.index < |g.documents| && f.documents[k.index] == g.documents[k.index]
    ensures Lookup(ValidationErrors(f, currentYear), k) == Lookup(ValidationErrors(g, currentYear), k)
  {
    ValidationErrorsAt(f, currentYear, k);
    ValidationErrorsAt(g, currentYear, k);
  }

  /** The per-row messages: empty name, empty type, missing file (which skips the type
      check) and a declared type the chosen file does not match. */
  lemma DocumentRowRules(f: FormState, currentYear: int, i: nat)
    requires |f.documents| >= 2 && i < |f.documents|
    ensures var errors, d := ValidationErrors(f, currentYear), f.documents[i];
      && (DocumentFileName(i) in errors <==> d.fileName == "")
      && (DocumentFileType(i) in errors <==> d.fileType == "")
      && (d.file.None? ==> errors[DocumentFile(i)] == FileRequired)
      && (d.file.Some? ==>
            (DocumentFile(i) in errors <==> FileTypeMismatch(d.fileType, d.file.value))
            && (DocumentFile(i) in errors ==> errors[DocumentFile(i)] == WrongFileType(d.fileType)))
  {
  }

  /** The concrete MIME rules, and that no other declared type is ever a mismatch. */
  lemma MimeRules(fileType: string, mime: string)
    ensures fileType == ".pdf" ==> (FileTypeMismatch(fileType, mime) <==> mime != "application/pdf")
    ensures fileType == ".doc" ==> (FileTypeMismatch(fileType, mime) <==>
              mime != "application/msword"
              && mime != "application/vnd.openxmlformats-officedocument.wordprocessingml.document")
    ensures fileType == ".jpg" ==> (FileTypeMismatch(fileType, mime) <==> mime != "image/jpeg" && mime != "image/jpg")
    ensures fileType != ".pdf" && fileType != ".doc" && fileType != ".jpg" ==> !FileTypeMismatch(fileType, mime)
  {
  }
}

/** The multipart body `handleSubmit` assembles before posting the form: scalar fields,
    the two addresses flattened into bracketed names, then every row's file. */
module Submission {
  import opened Form

  datatype PartValue =
    | Text(text: string)
    | BirthDate(year: Option<int>)
    | Blob(file: Option<string>)

  /** One appended (name, value) entry of the body. */
  datatype Part = Part(name: string, value: PartValue)

  const ResidentialStreet1Name := "residentialAddress[street1]"
  const ResidentialStreet2Name := "residentialAddress[street2]"
  const PermanentStreet1Name := "permanentAddress[street1]"
  const PermanentStreet2Name := "permanentAddress[street2]"
  const DocumentsName := "documents"

  /** The address whose lines are sent as the permanent address. */
  function SubmittedPermanentAddress(f: FormState): Address {
    if f.sameAddress then f.residentialAddress else f.permanentAddress
  }

  function ScalarParts(f: FormState): seq<Part> {
    [ Part("firstName", Text(f.firstName)),
      Part("lastName", Text(f.lastName)),
      Part("email", Text(f.email)),
      Part("dob", BirthDate(f.dob)),
      Part(ResidentialStreet1Name, Text(f.residentialAddress.street1)),
      Part(ResidentialStreet2Name, Text(f.residentialAddress.street2)),
      Part(PermanentStreet1Name, Text(SubmittedPermanentAddress(f).street1)),
      Part(PermanentStreet2Name, Text(SubmittedPermanentAddress(f).street2)) ]
  }

  function DocumentPart(d: Document): Part {
    Part(DocumentsName, Blob(d.file))
  }

  /** The body in append order. */
  function Payload(f: FormState): seq<Part> {
    ScalarParts(f) + seq(|f.documents|, i requires 0 <= i < |f.documents| => DocumentPart(f.documents[i]))
  }

  /** Appends the entries one by one, as the submit handler does. */
  method BuildPayload(f: FormState) returns (parts: seq<Part>)
    ensures parts == Payload(f)
  {
    parts := [];
    parts := parts + [Part("firstName", Text(f.firstName))];
    parts := parts + [Part("lastName", Text(f.lastName))];
    parts := parts + [Part("email", Text(f.email))];
    parts := parts + [Part("dob", BirthDate(f.dob))];
    parts := parts + [Part(ResidentialStreet1Name, Text(f.residentialAddress.street1))];
    parts := parts + [Part(ResidentialStreet2Name, Text(f.residentialAddress.street2))];
    if f.sameAddress {
      parts := parts + [Part(PermanentStreet1Name, Text(f.residentialAddress.street1))];
      parts := parts + [Part(PermanentStreet2Name, Text(f.residentialAddress.street2))];
    } else {
      parts := parts + [Part(PermanentStreet1Name, Text(f.permanentAddress.street1))];
      parts := parts + [Part(PermanentStreet2Name, Text(f.permanentAddress.street2))];
    }
    var i := 0;
    while i < |f.documents|
      invariant 0 <= i <= |f.documents|
      invariant parts == Payload(f)[..|ScalarParts(f)| + i]
    {
      parts := parts + [Part(DocumentsName, Blob(f.documents[i].file))];
      i := i + 1;
    }
  }

  // ---------------------------------------------------------------------------
  // Reading the body back by name

  /** Every value appended under `name`, in append order (what `FormData.getAll` gives). */
  function GetAll(parts: seq<Part>, name: string): seq<PartValue> {
    if parts == [] then []
    else (if parts[0].name == name then [parts[0].value] else []) + GetAll(parts[1..], name)
  }

  lemma {:induction false} GetAllConcat(a: seq<Part>, b: seq<Part>, name: string)
    ensures GetAll(a + b, name) == GetAll(a, name) + GetAll(b, name)
  {
    if a != [] {
      assert (a + b)[1..] == a[1..] + b;
      GetAllConcat(a[1..], b, name);
    } else {
      assert a + b == b;
    }
  }

  /** A name that occurs at exactly one position reads back as that one value. */
  lemma {:induction false} GetAllUnique(parts: seq<Part>, name: string, at: nat)
    requires at < |parts| && parts[at].name == name
    requires forall j :: 0 <= j < |parts| && j != at ==> parts[j].name != name
    ensures GetAll(parts, name) == [parts[at].value]
  {
    if at == 0 {
      GetAllAbsent(parts[1..], name);
    } else {
      GetAllUnique(parts[1..], name, at - 1);
    }
  }

  lemma {:induction false} GetAllAbsent(parts: seq<Part>, name: string)
    requires forall j :: 0 <= j < |parts| ==> parts[j].name != name
    ensures GetAll(parts, name) == []
  {
    if parts != [] {
      GetAllAbsent(parts[1..], name);
    }
  }

  /** When every entry carries `name`, reading it back gives all values in order. */
  lemma {:induction false} GetAllEvery(parts: seq<Part>, name: string)
    requires forall j :: 0 <= j < |parts| ==> parts[j].name == name
    ensures GetAll(parts, name) == seq(|parts|, j requires 0 <= j < |parts| => parts[j].value)
  {
    if parts != [] {
      GetAllEvery(parts[1..], name);
    }
  }

  // ---------------------------------------------------------------------------
  // What the body carries

  /** The entry names in append order: the eight fixed names, then one `documents` per row. */
  lemma PayloadNames(f: FormState)
    ensures var p := Payload(f);
      && |p| == 8 + |f.documents|
      && p[0].name == "firstName" && p[1].name == "lastName" && p[2].name == "email" && p[3].name == "dob"
      && p[4].name == ResidentialStreet1Name && p[5].name == ResidentialStreet2Name
      && p[6].name == PermanentStreet1Name && p[7].name == PermanentStreet2Name
      && forall j :: 8 <= j < |p| ==> p[j].name == DocumentsName
  {
  }

  /** Each scalar field is sent exactly once, with its value. */
  lemma PayloadPersonalFields(f: FormState)
    ensures var p := Payload(f);
      && GetAll(p, "firstName") == [Text(f.firstName)]
      && GetAll(p, "lastName") == [Text(f.lastName)]
      && GetAll(p, "email") == [Text(f.email)]
      && GetAll(p, "dob") == [BirthDate(f.dob)]
  {
    var p := Payload(f);
    PayloadNames(f);
    GetAllUnique(p, "firstName", 0);
    GetAllUnique(p, "lastName", 1);
    GetAllUnique(p, "email", 2);
    GetAllUnique(p, "dob", 3);
  }

  /** Each flattened address line is sent exactly once; the permanent lines carry the
      address that is actually meant. */
  lemma PayloadAddressFields(f: FormState)
    ensures var p := Payload(f);
      && GetAll(p, ResidentialStreet1Name) == [Text(f.residentialAddress.street1)]
      && GetAll(p, ResidentialStreet2Name) == [Text(f.residentialAddress.street2)]
      && GetAll(p, PermanentStreet1Name) == [Text(SubmittedPermanentAddress(f).street1)]
      && GetAll(p, PermanentStreet2Name) == [Text(SubmittedPermanentAddress(f).street2)]
  {
    var p := Payload(f);
    PayloadNames(f);
    GetAllUnique(p, ResidentialStreet1Name, 4);
    GetAllUnique(p, ResidentialStreet2Name, 5);
    GetAllUnique(p, PermanentStreet1Name, 6);
    GetAllUnique(p, PermanentStreet2Name, 7);
  }

  /** With "same address" ticked the permanent lines sent are the residential lines,
      whatever the permanent address holds. */
  lemma PayloadPermanentFromResidential(f: FormState, other: Address)
    requires f.sameAddress
    ensures var p := Payload(f);
      && GetAll(p, PermanentStreet1Name) == GetAll(p, ResidentialStreet1Name)
      && GetAll(p, PermanentStreet2Name) == GetAll(p, ResidentialStreet2Name)
      && Payload(f.(permanentAddress := other)) == p
  {
    PayloadAddressFields(f);
  }

  /** One `documents` entry per row, in list order. */
  lemma PayloadDocumentsInOrder(f: FormState)
    ensures var p := Payload(f);
      GetAll(p, DocumentsName) == seq(|f.documents|, i requires 0 <= i < |f.documents| => Blob(f.documents[i].file))
  {
    var scalars := ScalarParts(f);
    var rows := seq(|f.documents|, i requires 0 <= i < |f.documents| => DocumentPart(f.documents[i]));
    GetAllConcat(scalars, rows, DocumentsName);
    GetAllAbsent(scalars, DocumentsName);
    GetAllEvery(rows, DocumentsName);
  }
}

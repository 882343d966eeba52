/** The record the Home form component keeps in its `formData` state. */
module Form {

  datatype Option<+T> = None | Some(value: T)

  /** One street address: the component keeps a residential and a permanent one. */
  datatype Address = Address(street1: string, street2: string)

  /** One upload row. `fileType` is the extension picked in the drop-down ("", ".pdf",
      ".doc", ".jpg" or ".webp"); `file` is the chosen file, represented by its MIME type,
      or None while no file is chosen. */
  datatype Document = Document(fileName: string, fileType: string, file: Option<string>)

  /** The whole form. The date of birth is represented by its year (None while the date
      input is empty), which is all the age rule looks at. */
  datatype FormState = FormState(
    firstName: string,
    lastName: string,
    email: string,
    dob: Option<int>,
    residentialAddress: Address,
    sameAddress: bool,
    permanentAddress: Address,
    documents: seq<Document>)

  const EmptyAddress := Address("", "")

  const EmptyDocument := Document("", "", None)

  /** The state on mount, and the state a successful submission resets to. */
  const Initial := FormState("", "", "", None, EmptyAddress, false, EmptyAddress, [EmptyDocument])

  /** The upload list always has a first row, the one whose button adds rows. */
  predicate HasFirstDocument(f: FormState) {
    |f.documents| >= 1
  }

}

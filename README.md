# Home form component, modelled in Dafny

The model covers the `Home` React component of Xinom-Front (`src/Home/home.js`). This
component is a customer-onboarding form. It keeps two pieces of state:

- `formData` holds the names, e-mail, date of birth, a residential address, a "same
  address" flag, a permanent address and a list of upload rows (name, declared type, file).
- `errors` maps each failed rule's key to its message.

Its handlers edit the form, add and remove upload rows, validate the form, and on submit
build a multipart body and reset the form after a successful response.

The modules follow the component:

- `form.dfy`, module `Form`: the `formData` record and the initial state.
- `handlers.dfy`, module `Handlers`: `handleChange`, `addDocument`, `removeDocument` and
  `handleDocumentChange`. Each is a pure function from the current form to the next.
- `validation.dfy`, module `Validation`: the rules of `validate`.
  - `ErrorAt` is one reference rule per error key, and `ValidationErrors` is the map they
    define.
  - `PersonalErrors`, `AddressErrors`, `FixedErrors`, `DocumentErrors` and `RowErrors` give
    the map as `validate` builds it, rule after rule. Lemmas prove the two views agree.
  - `Acceptable` is a reference conjunction of all rules. `NoErrorsIffAcceptable` proves
    that no error is recorded exactly when it holds.
- `submission.dfy`, module `Submission`: the ordered (name, value) entries `handleSubmit`
  appends to its `FormData`, and what reading them back by name gives.
- `component.dfy`, module `Component`: class `Home`.
  - Its fields `formData` and `errors` are updated in place by the handler methods,
    `Validate` and `HandleSubmit`.
  - The imperative body of `validate` is written as methods with the source's `if` chain and
    its `forEach` loop. `CheckFields` holds the field and address rules, `CheckDocument` is
    the per-row callback, and `CheckDocuments` is the loop over the rows.

Modelling choices:

- The current year and the birth year are integers. `dob` is `Option<int>`, where `None`
  stands for the empty date input.
- A chosen file is represented by its MIME type. `None` stands for no file.
- Error keys are a datatype. `KeyName` renders them as the source's property names, such
  as `documents_3_fileType`. `KeyNameInjective` proves that distinct keys get distinct
  names, so a map over keys holds the same entries as the source's string-keyed object.
- The error messages are kept verbatim. This includes the two street-2 messages, which
  repeat the street-1 wording ("Residential Street 1 is required" and "Permanent Street 1
  is required").
- With "same address" ticked, the permanent address is a copy taken when the box was
  ticked. A later edit to the residential address is not mirrored into it
  (`Handlers.ResidentialEditLeavesCopyStale`). Validation ignores the permanent address in
  that state, and the submitted body sends the residential lines in its place.

## Model

| member | source | states |
|---|---|---|
| Component.Home.constructor | src/Home/home.js:7-24 | the state on mount: the initial form (empty strings, no date, unticked box, one empty upload row) and no errors |
| Handlers.HandleChange | src/Home/home.js:26-54 | an address input sets exactly the addressed line and nothing else; the checkbox sets `sameAddress` and copies the residential address into the permanent one when ticked, or clears it when unticked; any other input sets only its own field; the upload rows never change |
| Handlers.ResidentialEditLeavesCopyStale | src/Home/home.js:29-47 | with the box ticked, a residential edit leaves the permanent copy stale: a form exists where both addresses are equal and the box is ticked, but after one residential edit they differ |
| Handlers.ToggleOnThenOffClearsPermanent | src/Home/home.js:40-47 | ticking then unticking the box leaves an empty permanent address and an unchanged residential one, whatever the permanent address held before |
| Handlers.AddDocument | src/Home/home.js:197-202 | one empty row is appended; earlier rows and all other fields are unchanged |
| Handlers.WithoutIndex | src/Home/home.js:206 | the filter keeps every row but the one at `index`, in order; an index outside the list keeps the list as it is |
| Handlers.RemoveDocument | src/Home/home.js:204-211 | index 0 changes nothing; any other existing index removes exactly that row, keeping the order of the rest; any other field is unchanged |
| Handlers.HandleDocumentChange | src/Home/home.js:213-222 | the edit lands in row `index` only: a name or type edit sets that field; a file edit sets the first picked file, or no file when none is picked; the other rows and fields are unchanged |
| Handlers.HandlersKeepFirstDocument | src/Home/home.js:197-222 | no handler empties the upload list; adding and removing rows never changes row 0 |
| Component.Home.HandleChange | src/Home/home.js:26-54 | the new `formData` is `Handlers.HandleChange` of the old one, and the upload list keeps its first row |
| Component.Home.AddDocument | src/Home/home.js:197-202 | the new `formData` is `Handlers.AddDocument` of the old one, and the upload list keeps its first row |
| Component.Home.RemoveDocument | src/Home/home.js:204-211 | the new `formData` is `Handlers.RemoveDocument` of the old one, and row 0 is the same row as before |
| Component.Home.HandleDocumentChange | src/Home/home.js:213-222 | the new `formData` is `Handlers.HandleDocumentChange` of the old one, and the upload list keeps its first row |
| Validation.KeyNameInjective | src/Home/home.js:60-127 | distinct error keys have distinct property names, including the `documents_<i>_fileName`, `_fileType` and `_file` names for every row index |
| Validation.FileTypeMismatch | src/Home/home.js:119-123 | a chosen file mismatches exactly when its declared type has a list of accepted MIME types and the file's type is not in it; `.webp` never mismatches |
| Validation.MimeRules | src/Home/home.js:119-123 | `.pdf` accepts only `application/pdf`; `.doc` accepts the two Word types; `.jpg` accepts `image/jpeg` and `image/jpg`; any other declared type is never a mismatch |
| Validation.ValidationErrors | src/Home/home.js:56-131 | the error map holds exactly the keys whose rule fails, each with that rule's message |
| Validation.NoErrorsIffAcceptable | src/Home/home.js:56-134 | no error is recorded exactly when every rule in the reference conjunction `Acceptable` holds |
| Validation.RequiredNameAndEmail | src/Home/home.js:60-71 | an empty first name, last name or e-mail is reported under its own key, with its own message, and only then |
| Validation.DateOfBirthRule | src/Home/home.js:72-81 | a missing date gives "Date of Birth is required"; otherwise the error is present exactly when the year difference is below 18, with the under-age message; a difference of exactly 18 passes |
| Validation.AddressRules | src/Home/home.js:83-104 | residential lines are required whatever the box says; permanent lines are reported exactly when the box is unticked and the line is empty |
| Validation.SameAddressIgnoresPermanent | src/Home/home.js:88-104 | with the box ticked, replacing the permanent address by any other leaves the error map unchanged |
| Validation.DocumentCountRule | src/Home/home.js:106-131 | the `documents` message is recorded exactly when there are fewer than two rows; then no per-row key is recorded; every per-row key names an existing row |
| Validation.DocumentRowsIndependent | src/Home/home.js:109-130 | with two or more rows, a row's entries depend on that row alone: two forms that share the row get the same entries under its keys |
| Validation.DocumentRowRules | src/Home/home.js:110-128 | per row: an empty name and an empty type are reported under their keys, and only then; a missing file gives "File is required"; a chosen file is reported exactly on a type mismatch, with "File must be of type" and the declared type |
| Validation.RowErrorsAt | src/Home/home.js:106-131 | after the first `rows` rows have been visited, the accumulated map holds each failing rule of the fields, the list length and those rows, and nothing for later rows |
| Validation.AccumulatedIsValidationErrors | src/Home/home.js:56-132 | the map `validate` accumulates rule after rule equals the reference error map, with or without the row loop |
| Component.CheckFields | src/Home/home.js:60-104 | the if chain of the field and address rules builds the accumulated map, and the flag stays true exactly when each of those rules holds |
| Component.CheckDocument | src/Home/home.js:110-129 | the per-row callback adds that row's accumulated entries and clears the flag exactly when the row is incomplete |
| Component.CheckDocuments | src/Home/home.js:109-130 | the loop over all rows leaves the accumulated map with every row visited, and the flag stays set exactly when every row is complete |
| Component.Home.Validate | src/Home/home.js:56-135 | `errors` becomes the reference error map; the result is true exactly when the form is acceptable, and exactly when no error was recorded |
| Submission.BuildPayload | src/Home/home.js:142-160 | the appended entries are exactly `Payload`: the eight fields in order, the permanent lines taken from the residential address when the box is ticked, then one entry per row |
| Submission.PayloadNames | src/Home/home.js:142-160 | the body has 8 + (number of rows) entries; the names come in source order, then `documents` for every row |
| Submission.PayloadPersonalFields | src/Home/home.js:143-146 | `firstName`, `lastName`, `email` and `dob` each read back as exactly one value, the form's own |
| Submission.PayloadAddressFields | src/Home/home.js:147-156 | each bracketed address name reads back as exactly one value; the permanent ones are the residential lines when the box is ticked, else the permanent lines |
| Submission.PayloadPermanentFromResidential | src/Home/home.js:150-153 | with the box ticked, the permanent names read back the residential values, and the body does not depend on the stored permanent address |
| Submission.PayloadDocumentsInOrder | src/Home/home.js:158-160 | reading `documents` back gives every row's file, in list order |
| Component.Home.HandleSubmit | src/Home/home.js:137-195 | `errors` becomes the reference map of the submitted form; an unacceptable form sends nothing and keeps the form; an acceptable one sends exactly `Payload`; only a response flagged successful resets the form to its state on mount, and any other outcome keeps it |

## Left out

- JSX rendering, CSS classes, the upload buttons' wiring and conditional display are not modelled. They are UI only.
- `axios.post`, the response object, `toast` and `console.log` are not modelled. The outcome of the POST is a `PostResult` parameter (a response with its `success` flag, or a failure).
- Date parsing (`new Date(...)`, `getFullYear()`) is not modelled. The year of birth and the current year are integer inputs. An unparsable date string is not represented.
- Files are represented by their MIME-type string alone. The file contents, `FormData` and `File` objects are not modelled.
- React's `useState` batching and asynchronous updates are not modelled. Each handler is one atomic transition of `formData` or `errors`.
- Input names are an enumerated selector (`Handlers.Input`). The `includes`, `replace` and `toLowerCase` rewriting of the name is not modelled as string processing.
- Handlers.HandleDocumentChange does not model that the source mutates the row object it shares with the previous state. Rows are values here, so this aliasing is not captured.
- Handlers.HandleDocumentChange requires an existing row index, and so does Component.Home.HandleDocumentChange. The source is only ever called with the index of a rendered row.
- Submission.Payload sends the `dob` entry as the modelled birth year, not as the date string the source appends.
- The insertion order of keys in the source's error object is not modelled. The error map is unordered.

/**
 * The rows of the portal's four tables, the submitted forms, the outcome of each
 * handler (the flash message it shows, as a value), and `query.first()`.
 */
module Models {
  import opened Wrappers
  import opened Validators

  // ---------------------------------------------------------------- rows

  datatype Status = Pending | Solved

  /** A row of `officers`. Officers are created outside the portal. */
  datatype Officer = Officer(id: nat, name: string, email: string, password: string)

  /** A row of `citizens`; `password` is the stored bcrypt hash. */
  datatype Citizen = Citizen(
    id: nat,
    name: string,
    aadharNumber: string,
    contact: string,
    email: string,
    password: string,
    address: string,
    dateCreated: int)

  /** A row of `complaints`; the owner is found through `citizenAadhar`, not through a foreign key. */
  datatype Complaint = Complaint(
    id: nat,
    complaintNo: string,
    title: string,
    location: string,
    category: string,
    subcategory: string,
    subSubcategory: string,
    priority: Priority,
    affectedPeople: string,
    description: string,
    citizenAadhar: string,
    status: Status,
    dateCreated: int)

  /** A row of `complaint_images`, owned by the complaint whose `id` is `complaintId`. */
  datatype ComplaintImage = ComplaintImage(id: nat, complaintId: nat, imagePath: string, uploadedAt: int)

  // ---------------------------------------------------------------- forms

  /** `request.form.get(key, default)`: `None` is a field the request did not send. */
  function Field(value: Option<string>, default: string): string {
    value.GetOr(default)
  }

  datatype RegisterForm = RegisterForm(
    name: Option<string>,
    contact: Option<string>,
    aadharNumber: Option<string>,
    address: Option<string>,
    email: Option<string>,
    password: Option<string>)

  datatype LoginForm = LoginForm(email: Option<string>, password: Option<string>)

  datatype ComplaintForm = ComplaintForm(
    title: Option<string>,
    location: Option<string>,
    category: Option<string>,
    subcategory: Option<string>,
    subSubcategory: Option<string>,
    priority: Option<string>,
    affectedPeople: Option<string>,
    description: Option<string>)

  datatype StatusForm = StatusForm(aadharNo: Option<string>, complaintNo: Option<string>)

  /** One part of the `images` upload list; a part whose `filename` is empty is skipped. */
  datatype Upload = Upload(filename: string)

  // ---------------------------------------------------------------- outcomes

  /** The category of the flash message a handler shows. */
  datatype Flash = Success | Danger | Warning | Info

  datatype RegisterOutcome =
    | Registered
    | FieldsMissing
    | BadContact
    | BadAadhar
    | EmailTaken
    | AadharTaken
    | ContactTaken
  {
    function Category(): Flash {
      if Registered? then Success else Danger
    }
  }

  datatype LoginOutcome = Welcome(name: string) | CredentialsMissing | InvalidCredentials {
    function Category(): Flash {
      if Welcome? then Success else Danger
    }
  }

  datatype FileOutcome = FileNeedsLogin | MandatoryMissing | Filed(complaintNo: string) {
    function Category(): Flash {
      match this
      case FileNeedsLogin => Warning
      case MandatoryMissing => Danger
      case Filed(_) => Success
    }
  }

  datatype SolveOutcome = SolveNeedsLogin | NotFound | MarkedSolved | AlreadySolved {
    function Category(): Flash {
      match this
      case SolveNeedsLogin => Warning
      case NotFound => Danger
      case MarkedSolved => Success
      case AlreadySolved => Info
    }
  }

  datatype StatusOutcome = StatusNeedsLogin | LookupFieldsMissing | NoSuchComplaint | Found(complaint: Complaint) {
    /** A found complaint is rendered without a flash message. */
    function Category(): Option<Flash> {
      match this
      case StatusNeedsLogin => Some(Warning)
      case Found(_) => None
      case _ => Some(Danger)
    }
  }

  // ---------------------------------------------------------------- queries

  /** `query.filter_by(...).first()`: the index of the first row satisfying `p`, if any. */
  function FindFirst<T>(rows: seq<T>, p: T -> bool): (r: Option<nat>)
    ensures r.Some? ==> r.value < |rows| && p(rows[r.value]) && forall j :: 0 <= j < r.value ==> !p(rows[j])
    ensures r.None? ==> forall j :: 0 <= j < |rows| ==> !p(rows[j])
  {
    if rows == [] then None
    else if p(rows[0]) then Some(0)
    else
      match FindFirst(rows[1..], p)
      case None => None
      case Some(k) => Some(k + 1)
  }

  /** When exactly one row satisfies `p`, `first()` finds that row. */
  lemma FindFirstUnique<T>(rows: seq<T>, p: T -> bool, k: nat)
    requires k < |rows| && p(rows[k])
    requires forall j :: 0 <= j < |rows| && p(rows[j]) ==> j == k
    ensures FindFirst(rows, p) == Some(k)
  {
  }
}

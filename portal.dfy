/**
 * The portal's state and route handlers with the web layer removed: the
 * per-client `session` dictionary and the database tables, updated in place.
 */
module Portal {
  import opened Wrappers
  import opened Text
  import opened Validators
  import opened Models
  import opened Lifecycle

  /** The signed `session` cookie: who is logged in. */
  class Session {
    var citizenId: Option<nat>
    var citizenName: Option<string>
    var citizenAadhar: Option<string>
    var officerId: Option<nat>
    var officerName: Option<string>

    predicate IsEmpty()
      reads this
    {
      citizenId.None? && citizenName.None? && citizenAadhar.None? && officerId.None? && officerName.None?
    }

    /** `"officer_id" in session`: the guard of every officer page. */
    predicate HasOfficer()
      reads this
    {
      officerId.Some?
    }

    constructor ()
      ensures IsEmpty()
    {
      citizenId, citizenName, citizenAadhar := None, None, None;
      officerId, officerName := None, None;
    }

    /** `session.clear()`, the whole of both `logout` and `officer_logout`. */
    method Clear()
      modifies this
      ensures IsEmpty() && !HasOfficer()
    {
      citizenId, citizenName, citizenAadhar := None, None, None;
      officerId, officerName := None, None;
    }
  }

  /** The four tables. Rows are never deleted, so a row's id is its position plus one. */
  class Store {
    var officers: seq<Officer>
    var citizens: seq<Citizen>
    var complaints: seq<Complaint>
    var images: seq<ComplaintImage>

    ghost predicate Valid()
      reads this
    {
      TablesValid(officers, citizens, complaints, images)
    }

    /** A database holding only the given officers (they have no registration flow). */
    constructor (officers: seq<Officer>)
      requires OfficersValid(officers)
      ensures Valid()
      ensures this.officers == officers && citizens == [] && complaints == [] && images == []
    {
      this.officers := officers;
      citizens, complaints, images := [], [], [];
    }

    /** `current_citizen()`: the citizen row whose id the session holds, if any. */
    function CurrentCitizen(sess: Session): (r: Option<Citizen>)
      reads this, sess
      ensures r.Some? ==> r.value in citizens && sess.citizenId == Some(r.value.id)
      ensures r.None? ==>
        sess.citizenId.None? || sess.citizenId == Some(0) ||
        forall i :: 0 <= i < |citizens| ==> citizens[i].id != sess.citizenId.value
    {
      if sess.citizenId.None? || sess.citizenId.value == 0 then None
      else
        var id := sess.citizenId.value;
        match FindFirst(citizens, (c: Citizen) => c.id == id)
        case None => None
        case Some(i) => Some(citizens[i])
    }

    // ------------------------------------------------------------ complaint numbers

    /**
     * `_generate_complaint_no`: try the draws of `random.randint(100000, 999999)`
     * in turn and return the first whose rendering no complaint carries yet. The
     * program retries forever; here the draws are supplied and one is known to be free.
     */
    method GenerateComplaintNo(draws: seq<nat>) returns (no: string)
      requires forall i :: 0 <= i < |draws| ==> DrawLow <= draws[i] <= DrawHigh
      requires exists i :: 0 <= i < |draws| && DecimalString(draws[i]) !in ComplaintNos(complaints)
      ensures IsComplaintNo(no) && no !in ComplaintNos(complaints)
      ensures exists i :: 0 <= i < |draws| && no == DecimalString(draws[i]) &&
                         forall j :: 0 <= j < i ==> DecimalString(draws[j]) in ComplaintNos(complaints)
    {
      var k := 0;
      while true
        invariant 0 <= k < |draws|
        invariant exists i :: k <= i < |draws| && DecimalString(draws[i]) !in ComplaintNos(complaints)
        invariant forall j :: 0 <= j < k ==> DecimalString(draws[j]) in ComplaintNos(complaints)
        decreases |draws| - k
      {
        var num := DecimalString(draws[k]);
        var taken := FindFirst(complaints, (c: Complaint) => c.complaintNo == num);
        if taken.None? {
          DrawIsComplaintNo(draws[k]);
          return num;
        }
        k := k + 1;
      }
    }

    // ------------------------------------------------------------ citizens

    /** `register`: the checks of `CheckRegistration`, then one new row with the hashed password. */
    method Register(form: RegisterForm, hashed: string, now: int) returns (outcome: RegisterOutcome)
      requires Valid()
      modifies this`citizens
      ensures Valid()
      ensures outcome == CheckRegistration(old(citizens), form)
      ensures citizens == Admit(old(citizens), form, hashed, now)
    {
      RegistrationKeepsTablesValid(officers, citizens, complaints, images, form, hashed, now);
      outcome := CheckRegistration(citizens, form);
      if outcome == Registered {
        citizens := citizens + [NewCitizen(|citizens| + 1, ReadRegistration(form), hashed, now)];
      }
    }

    /**
     * `login`: both fields required; the citizen is found by the stripped,
     * lower-cased email and the password checked against the stored hash
     * (`checkPassword` stands for `bcrypt.check_password_hash`).
     */
    method Login(sess: Session, form: LoginForm, checkPassword: (string, string) -> bool) returns (outcome: LoginOutcome)
      requires Valid()
      modifies sess
      ensures var email, password := Lower(Strip(Field(form.email, ""))), Field(form.password, "");
        var found := FindFirst(citizens, (c: Citizen) => c.email == email);
        if email == "" || password == "" then
          outcome == CredentialsMissing && unchanged(sess)
        else if found.None? || !checkPassword(citizens[found.value].password, password) then
          outcome == InvalidCredentials && unchanged(sess)
        else
          var usr := citizens[found.value];
          && outcome == Welcome(usr.name)
          && sess.citizenId == Some(usr.id) && sess.citizenName == Some(usr.name)
          && sess.citizenAadhar == Some(usr.aadharNumber)
          && sess.officerId == old(sess.officerId) && sess.officerName == old(sess.officerName)
          && CurrentCitizen(sess) == Some(usr)
    {
      var email := Lower(Strip(Field(form.email, "")));
      var password := Field(form.password, "");
      if email == "" || password == "" {
        return CredentialsMissing;
      }
      var found := FindFirst(citizens, (c: Citizen) => c.email == email);
      if found.None? || !checkPassword(citizens[found.value].password, password) {
        return InvalidCredentials;
      }
      var usr := citizens[found.value];
      sess.citizenId, sess.citizenName, sess.citizenAadhar := Some(usr.id), Some(usr.name), Some(usr.aadharNumber);
      CitizenKeysIdentify(citizens, found.value);
      outcome := Welcome(usr.name);
    }

    /** `officer_login`: no emptiness check; the officer is found by the stripped, lower-cased email. */
    method OfficerLogin(sess: Session, form: LoginForm, checkPassword: (string, string) -> bool) returns (outcome: LoginOutcome)
      modifies sess
      ensures var email, password := Lower(Strip(Field(form.email, ""))), Field(form.password, "");
        var found := FindFirst(officers, (o: Officer) => o.email == email);
        if found.None? || !checkPassword(officers[found.value].password, password) then
          outcome == InvalidCredentials && unchanged(sess)
        else
          var usr := officers[found.value];
          && outcome == Welcome(usr.name)
          && sess.HasOfficer()
          && sess.officerId == Some(usr.id) && sess.officerName == Some(usr.name)
          && sess.citizenId == old(sess.citizenId) && sess.citizenName == old(sess.citizenName)
          && sess.citizenAadhar == old(sess.citizenAadhar)
    {
      var email := Lower(Strip(Field(form.email, "")));
      var password := Field(form.password, "");
      var found := FindFirst(officers, (o: Officer) => o.email == email);
      if found.None? || !checkPassword(officers[found.value].password, password) {
        return InvalidCredentials;
      }
      var usr := officers[found.value];
      sess.officerId, sess.officerName := Some(usr.id), Some(usr.name);
      outcome := Welcome(usr.name);
    }

    // ------------------------------------------------------------ complaints

    /**
     * `file_complaint`: a logged-in citizen with the mandatory fields filled in
     * gets one new Pending complaint under a fresh number, then one image row
     * per upload that carries a filename. `storedNames[i]` is the generated
     * file name of upload `i` (a random token and the sanitised original name).
     */
    method FileComplaint(sess: Session, form: ComplaintForm, uploads: seq<Upload>, storedNames: seq<string>,
                         draws: seq<nat>, now: int) returns (outcome: FileOutcome)
      requires Valid()
      requires |storedNames| == |uploads|
      requires forall i :: 0 <= i < |draws| ==> DrawLow <= draws[i] <= DrawHigh
      requires CurrentCitizen(sess).Some? && MandatoryFilled(ReadFiling(form)) ==>
        exists i :: 0 <= i < |draws| && DecimalString(draws[i]) !in ComplaintNos(complaints)
      modifies this`complaints, this`images
      ensures Valid()
      ensures old(CurrentCitizen(sess)).None? ==>
        outcome == FileNeedsLogin && complaints == old(complaints) && images == old(images)
      ensures old(CurrentCitizen(sess)).Some? && !MandatoryFilled(ReadFiling(form)) ==>
        outcome == MandatoryMissing && complaints == old(complaints) && images == old(images)
      ensures old(CurrentCitizen(sess)).Some? && MandatoryFilled(ReadFiling(form)) ==>
        && outcome.Filed?
        && IsComplaintNo(outcome.complaintNo)
        && outcome.complaintNo !in ComplaintNos(old(complaints))
        && (exists i :: 0 <= i < |draws| && outcome.complaintNo == DecimalString(draws[i]))
        && complaints == old(complaints) + [NewComplaint(|old(complaints)| + 1, outcome.complaintNo, ReadFiling(form),
                                                         old(CurrentCitizen(sess)).value.aadharNumber, now)]
        && images == old(images) + ImageRows(|old(images)| + 1, |complaints|, NamedPaths(uploads, storedNames), now)
    {
      var citizen := CurrentCitizen(sess);
      if citizen.None? {
        return FileNeedsLogin;
      }
      var filing := ReadFiling(form);
      if !MandatoryFilled(filing) {
        return MandatoryMissing;
      }
      var no := Lodge(citizen.value.aadharNumber, filing, uploads, storedNames, draws, now);
      outcome := Filed(no);
    }

    /**
     * The committing half of `file_complaint`: a fresh number, the complaint row
     * (Pending, owned by `aadhar`), then its image rows.
     */
    method Lodge(aadhar: string, filing: Filing, uploads: seq<Upload>, storedNames: seq<string>,
                 draws: seq<nat>, now: int) returns (no: string)
      requires Valid() && aadhar in Aadhars(citizens) && MandatoryFilled(filing)
      requires |storedNames| == |uploads|
      requires forall i :: 0 <= i < |draws| ==> DrawLow <= draws[i] <= DrawHigh
      requires exists i :: 0 <= i < |draws| && DecimalString(draws[i]) !in ComplaintNos(complaints)
      modifies this`complaints, this`images
      ensures Valid()
      ensures IsComplaintNo(no) && no !in ComplaintNos(old(complaints))
      ensures exists i :: 0 <= i < |draws| && no == DecimalString(draws[i])
      ensures complaints == old(complaints) + [NewComplaint(|old(complaints)| + 1, no, filing, aadhar, now)]
      ensures images == old(images) + ImageRows(|old(images)| + 1, |complaints|, NamedPaths(uploads, storedNames), now)
    {
      no := GenerateComplaintNo(draws);
      var id := |complaints| + 1;
      FilingKeepsComplaintsValid(complaints, Aadhars(citizens), no, filing, aadhar, now);
      complaints := complaints + [NewComplaint(id, no, filing, aadhar, now)];
      SaveImages(id, uploads, storedNames, now);
    }

    /**
     * The image loop of `file_complaint`: one image row for complaint `id` per
     * upload that carries a filename, in upload order, with consecutive ids.
     */
    method SaveImages(id: nat, uploads: seq<Upload>, storedNames: seq<string>, now: int)
      requires 1 <= id <= |complaints| && |storedNames| == |uploads|
      requires ImagesValid(images, |complaints|)
      modifies this`images
      ensures images == old(images) + ImageRows(|old(images)| + 1, id, NamedPaths(uploads, storedNames), now)
      ensures var idx := NamedIndices(uploads);
        && |images| == |old(images)| + |idx|
        && forall k :: 0 <= k < |idx| ==>
             images[|old(images)| + k] == ComplaintImage(|old(images)| + k + 1, id, storedNames[idx[k]], now)
      ensures ImagesValid(images, |complaints|)
    {
      ghost var before := images;
      var i := 0;
      while i < |uploads|
        invariant 0 <= i <= |uploads|
        invariant images == before + ImageRows(|before| + 1, id, NamedPaths(uploads[..i], storedNames[..i]), now)
        invariant ImagesValid(images, |complaints|)
      {
        assert uploads[..i + 1][..i] == uploads[..i] && storedNames[..i + 1][..i] == storedNames[..i];
        if uploads[i].filename != "" {
          images := images + [ComplaintImage(|images| + 1, id, storedNames[i], now)];
        }
        i := i + 1;
      }
      assert uploads[..i] == uploads && storedNames[..i] == storedNames;
      NamedPathsInOrder(uploads, storedNames);
    }

    /**
     * `solve_complaint`: an officer marks a Pending complaint Solved; an unknown
     * number and an already solved complaint change nothing.
     */
    method SolveComplaint(sess: Session, complaintNo: string) returns (outcome: SolveOutcome)
      requires Valid()
      modifies this`complaints
      ensures Valid()
      ensures !sess.HasOfficer() ==> outcome == SolveNeedsLogin && complaints == old(complaints)
      ensures sess.HasOfficer() ==> (outcome, complaints) == Resolve(old(complaints), complaintNo)
    {
      if !sess.HasOfficer() {
        return SolveNeedsLogin;
      }
      ResolveKeepsComplaintsValid(complaints, Aadhars(citizens), complaintNo);
      var found := FindFirst(complaints, (c: Complaint) => c.complaintNo == complaintNo);
      if found.None? {
        return NotFound;
      }
      var i := found.value;
      if complaints[i].status != Solved {
        complaints := complaints[i := complaints[i].(status := Solved)];
        outcome := MarkedSolved;
      } else {
        outcome := AlreadySolved;
      }
    }

    /**
     * `complaint_status`: for a logged-in citizen, the complaint with the submitted
     * number and Aadhar number. The Aadhar number is the one typed into the form,
     * not the session's own.
     */
    function ComplaintStatus(sess: Session, form: StatusForm): (r: StatusOutcome)
      reads this, sess
      ensures r == StatusNeedsLogin <==> CurrentCitizen(sess).None?
      ensures CurrentCitizen(sess).Some? ==> r == LookupStatus(complaints, form)
      ensures r.Found? ==>
        && r.complaint in complaints
        && r.complaint.complaintNo == Strip(Field(form.complaintNo, ""))
        && r.complaint.citizenAadhar == Strip(Field(form.aadharNo, ""))
    {
      if CurrentCitizen(sess).None? then StatusNeedsLogin else LookupStatus(complaints, form)
    }

    /** `officer_complaints`: for an officer, the complaints joined to their citizens, newest first. */
    function OfficerComplaints(sess: Session): (r: Option<seq<Complaint>>)
      reads this, sess
      ensures r.Some? <==> sess.HasOfficer()
      ensures r.Some? ==>
        && NewestFirst(r.value)
        && forall c :: c in r.value <==> c in complaints && c.citizenAadhar in Aadhars(citizens)
    {
      if !sess.HasOfficer() then None else Some(Listing(complaints, citizens))
    }

    /** In a valid store the officers see every complaint, each once. */
    lemma OfficersSeeEveryComplaint(sess: Session)
      requires Valid() && sess.HasOfficer()
      ensures multiset(OfficerComplaints(sess).value) == multiset(complaints)
    {
      ListingShowsEveryComplaint(complaints, citizens);
    }

    /** A citizen who files a complaint can look it up by its number and their own Aadhar number. */
    lemma OwnComplaintIsFound(sess: Session, form: StatusForm, k: nat)
      requires Valid() && CurrentCitizen(sess).Some? && k < |complaints|
      requires Strip(Field(form.complaintNo, "")) == complaints[k].complaintNo
      requires Strip(Field(form.aadharNo, "")) == complaints[k].citizenAadhar
      ensures ComplaintStatus(sess, form) == Found(complaints[k])
    {
      assert "" !in Aadhars(citizens);
      LookupByOwner(complaints, Aadhars(citizens), form, k);
    }
  }
}

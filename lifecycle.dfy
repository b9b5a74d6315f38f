/**
 * What the route handlers do to the tables, stated on values: the checks of
 * registration, the complaint a filing creates and the image rows it attaches,
 * resolving a complaint, the status lookup and the officers' listing. The store
 * in `Portal` applies these to its tables.
 */
module Lifecycle {
  import opened Wrappers
  import opened Text
  import opened Validators
  import opened Models

  // ---------------------------------------------------------------- citizens

  /** The registration fields as `register` reads them: stripped, the email also lower-cased, the password as sent. */
  datatype Registration = Registration(
    name: string,
    contact: string,
    aadhar: string,
    address: string,
    email: string,
    password: string)

  function ReadRegistration(f: RegisterForm): Registration {
    Registration(
      Strip(Field(f.name, "")),
      Strip(Field(f.contact, "")),
      Strip(Field(f.aadharNumber, "")),
      Strip(Field(f.address, "")),
      Lower(Strip(Field(f.email, ""))),
      Field(f.password, ""))
  }

  predicate AllFilled(r: Registration) {
    r.name != "" && r.contact != "" && r.aadhar != "" && r.address != "" && r.email != "" && r.password != ""
  }

  /** A stored citizen as registration admits it. */
  predicate CitizenWellFormed(c: Citizen) {
    && c.name != "" && c.address != ""
    && IsValidContact(c.contact)
    && |c.aadharNumber| == 12 && AllDigits(c.aadharNumber)
    && c.email != "" && Normalised(c.email)
  }

  /** The citizens table: ids in insertion order, and email, Aadhar number and contact each unique. */
  predicate CitizensValid(cs: seq<Citizen>) {
    && (forall i :: 0 <= i < |cs| ==> cs[i].id == i + 1 && CitizenWellFormed(cs[i]))
    && (forall i, j :: 0 <= i < j < |cs| ==>
          && cs[i].email != cs[j].email
          && cs[i].aadharNumber != cs[j].aadharNumber
          && cs[i].contact != cs[j].contact)
  }

  /** The checks of `register`, in the order it makes them; only `Registered` lets a row be added. */
  function CheckRegistration(cs: seq<Citizen>, f: RegisterForm): (r: RegisterOutcome)
    ensures var reg := ReadRegistration(f);
      r == Registered <==>
        && AllFilled(reg)
        && IsValidContact(reg.contact)
        && IsValidAadhar(Some(reg.aadhar))
        && forall c :: c in cs ==> c.email != reg.email && c.aadharNumber != reg.aadhar && c.contact != reg.contact
  {
    var reg := ReadRegistration(f);
    if !AllFilled(reg) then FieldsMissing
    else if !IsValidContact(reg.contact) then BadContact
    else if !IsValidAadhar(Some(reg.aadhar)) then BadAadhar
    else if FindFirst(cs, (c: Citizen) => c.email == reg.email).Some? then EmailTaken
    else if FindFirst(cs, (c: Citizen) => c.aadharNumber == reg.aadhar).Some? then AadharTaken
    else if FindFirst(cs, (c: Citizen) => c.contact == reg.contact).Some? then ContactTaken
    else Registered
  }

  /**
   * Which refusal `register` reports: the checks run in order and the first
   * failing one decides the message, so each refusal holds exactly when every
   * earlier check passed and its own failed.
   */
  lemma CheckRegistrationRefusals(cs: seq<Citizen>, f: RegisterForm)
    ensures var r, reg := CheckRegistration(cs, f), ReadRegistration(f);
      && (r == FieldsMissing <==> !AllFilled(reg))
      && (r == BadContact <==> AllFilled(reg) && !IsValidContact(reg.contact))
      && (r == BadAadhar <==>
            AllFilled(reg) && IsValidContact(reg.contact) && !IsValidAadhar(Some(reg.aadhar)))
      && (r == EmailTaken <==>
            AllFilled(reg) && IsValidContact(reg.contact) && IsValidAadhar(Some(reg.aadhar))
            && exists c :: c in cs && c.email == reg.email)
      && (r == AadharTaken <==>
            AllFilled(reg) && IsValidContact(reg.contact) && IsValidAadhar(Some(reg.aadhar))
            && (forall c :: c in cs ==> c.email != reg.email)
            && exists c :: c in cs && c.aadharNumber == reg.aadhar)
      && (r == ContactTaken <==>
            AllFilled(reg) && IsValidContact(reg.contact) && IsValidAadhar(Some(reg.aadhar))
            && (forall c :: c in cs ==> c.email != reg.email && c.aadharNumber != reg.aadhar)
            && exists c :: c in cs && c.contact == reg.contact)
  {
  }


  /** The row `register` adds; `hashed` is the bcrypt hash of the password. */
  function NewCitizen(id: nat, reg: Registration, hashed: string, now: int): Citizen {
    Citizen(id, reg.name, reg.aadhar, reg.contact, reg.email, hashed, reg.address, now)
  }

  /** The row of an admitted registration is well formed: ten-digit contact, twelve-digit Aadhar, normalised email. */
  lemma AdmittedCitizenWellFormed(cs: seq<Citizen>, f: RegisterForm, id: nat, hashed: string, now: int)
    requires CheckRegistration(cs, f) == Registered
    ensures CitizenWellFormed(NewCitizen(id, ReadRegistration(f), hashed, now))
  {
    StripLowerNormalised(Field(f.email, ""));
    StripIdempotent(Field(f.aadharNumber, ""));
  }

  /** Appending a well-formed citizen whose three keys are all new keeps the table valid. */
  lemma FreshCitizenKeepsCitizensValid(cs: seq<Citizen>, c: Citizen)
    requires CitizensValid(cs) && CitizenWellFormed(c) && c.id == |cs| + 1
    requires forall x :: x in cs ==> x.email != c.email && x.aadharNumber != c.aadharNumber && x.contact != c.contact
    ensures CitizensValid(cs + [c])
  {
    var cs' := cs + [c];
    forall i | 0 <= i < |cs'| ensures cs'[i].id == i + 1 && CitizenWellFormed(cs'[i]) {
      if i < |cs| { assert cs'[i] == cs[i]; }
    }
    forall i, j | 0 <= i < j < |cs'|
      ensures cs'[i].email != cs'[j].email && cs'[i].aadharNumber != cs'[j].aadharNumber && cs'[i].contact != cs'[j].contact
    {
      assert cs'[i] == cs[i];
      if j < |cs| {
        assert cs'[j] == cs[j];
      } else {
        assert cs[i] in cs;
      }
    }
  }

  /** An admitted registration keeps the citizens table valid: the three keys stay unique. */
  lemma RegistrationKeepsCitizensValid(cs: seq<Citizen>, f: RegisterForm, hashed: string, now: int)
    requires CitizensValid(cs) && CheckRegistration(cs, f) == Registered
    ensures CitizensValid(cs + [NewCitizen(|cs| + 1, ReadRegistration(f), hashed, now)])
  {
    AdmittedCitizenWellFormed(cs, f, |cs| + 1, hashed, now);
    FreshCitizenKeepsCitizensValid(cs, NewCitizen(|cs| + 1, ReadRegistration(f), hashed, now));
  }

  /** Sending the same registration twice: the second is refused, for its email. */
  lemma ResubmissionRejected(cs: seq<Citizen>, f: RegisterForm, hashed: string, now: int)
    requires CheckRegistration(cs, f) == Registered
    ensures CheckRegistration(cs + [NewCitizen(|cs| + 1, ReadRegistration(f), hashed, now)], f) == EmailTaken
  {
    var reg := ReadRegistration(f);
    var cs' := cs + [NewCitizen(|cs| + 1, reg, hashed, now)];
    assert cs'[|cs|].email == reg.email;
  }

  /** The row a lookup by a citizen's own key finds is that citizen's row. */
  lemma CitizenKeysIdentify(cs: seq<Citizen>, k: nat)
    requires CitizensValid(cs) && k < |cs|
    ensures FindFirst(cs, (c: Citizen) => c.id == cs[k].id) == Some(k)
    ensures FindFirst(cs, (c: Citizen) => c.email == cs[k].email) == Some(k)
    ensures FindFirst(cs, (c: Citizen) => c.aadharNumber == cs[k].aadharNumber) == Some(k)
  {
    FindFirstUnique(cs, (c: Citizen) => c.id == cs[k].id, k);
    FindFirstUnique(cs, (c: Citizen) => c.email == cs[k].email, k);
    FindFirstUnique(cs, (c: Citizen) => c.aadharNumber == cs[k].aadharNumber, k);
  }

  /** The Aadhar numbers of the registered citizens: the owners a complaint can join to. */
  function Aadhars(cs: seq<Citizen>): set<string> {
    set c | c in cs :: c.aadharNumber
  }

  /** Registering a citizen adds exactly their Aadhar number to the possible owners. */
  lemma AadharsGrow(cs: seq<Citizen>, c: Citizen)
    ensures Aadhars(cs + [c]) == Aadhars(cs) + {c.aadharNumber}
  {
    var cs' := cs + [c];
    assert c in cs';
    assert forall x :: x in cs' <==> x in cs || x == c;
  }

  // ---------------------------------------------------------------- officers

  /** The officers table: ids in order, email unique (the column's unique constraint). */
  predicate OfficersValid(os: seq<Officer>) {
    && (forall i :: 0 <= i < |os| ==> os[i].id == i + 1)
    && (forall i, j :: 0 <= i < j < |os| ==> os[i].email != os[j].email)
  }

  // ---------------------------------------------------------------- complaints

  /** The complaint fields as `file_complaint` reads them: stripped, the priority normalised. */
  datatype Filing = Filing(
    title: string,
    location: string,
    category: string,
    subcategory: string,
    subSubcategory: string,
    priority: Priority,
    affectedPeople: string,
    description: string)

  function ReadFiling(f: ComplaintForm): Filing {
    Filing(
      Strip(Field(f.title, "")),
      Strip(Field(f.location, "")),
      Strip(Field(f.category, "")),
      Strip(Field(f.subcategory, "")),
      Strip(Field(f.subSubcategory, "")),
      NormalizePriority(Strip(Field(f.priority, "Normal"))),
      Strip(Field(f.affectedPeople, "Just Me")),
      Strip(Field(f.description, "")))
  }

  /** Title, location, category and description are mandatory; the rest may be empty. */
  predicate MandatoryFilled(x: Filing) {
    x.title != "" && x.location != "" && x.category != "" && x.description != ""
  }

  /** The row `file_complaint` adds: a fresh number, the filer's Aadhar number, status Pending. */
  function NewComplaint(id: nat, no: string, x: Filing, aadhar: string, now: int): Complaint {
    Complaint(id, no, x.title, x.location, x.category, x.subcategory, x.subSubcategory,
              x.priority, x.affectedPeople, x.description, aadhar, Pending, now)
  }

  function ComplaintNos(cs: seq<Complaint>): set<string> {
    set c | c in cs :: c.complaintNo
  }

  /**
   * The complaints table: ids in order, well-formed and unique complaint numbers,
   * mandatory fields present, and every complaint owned by a registered Aadhar number.
   */
  predicate ComplaintsValid(cs: seq<Complaint>, owners: set<string>) {
    && (forall i :: 0 <= i < |cs| ==>
          && cs[i].id == i + 1
          && IsComplaintNo(cs[i].complaintNo)
          && cs[i].citizenAadhar in owners
          && cs[i].title != "" && cs[i].location != "" && cs[i].category != "" && cs[i].description != "")
    && (forall i, j :: 0 <= i < j < |cs| ==> cs[i].complaintNo != cs[j].complaintNo)
  }

  /** Filing with a fresh number keeps the table valid, so complaint numbers stay unique. */
  lemma FilingKeepsComplaintsValid(cs: seq<Complaint>, owners: set<string>, no: string, x: Filing, aadhar: string, now: int)
    requires ComplaintsValid(cs, owners)
    requires IsComplaintNo(no) && no !in ComplaintNos(cs)
    requires MandatoryFilled(x) && aadhar in owners
    ensures ComplaintsValid(cs + [NewComplaint(|cs| + 1, no, x, aadhar, now)], owners)
  {
    var cs' := cs + [NewComplaint(|cs| + 1, no, x, aadhar, now)];
    forall i, j | 0 <= i < j < |cs'| ensures cs'[i].complaintNo != cs'[j].complaintNo {
      if j == |cs| { assert cs'[i] in cs; }
    }
  }

  /** In a valid table two rows with the same complaint number are the same row. */
  lemma ComplaintNosIdentify(cs: seq<Complaint>, owners: set<string>, i: nat, j: nat)
    requires ComplaintsValid(cs, owners) && i < |cs| && j < |cs|
    requires cs[i].complaintNo == cs[j].complaintNo
    ensures i == j
  {
  }

  /** Registering more citizens never orphans a complaint. */
  lemma MoreOwnersKeepComplaintsValid(cs: seq<Complaint>, owners: set<string>, more: set<string>)
    requires ComplaintsValid(cs, owners) && owners <= more
    ensures ComplaintsValid(cs, more)
  {
  }

  /** The positions of the uploads that carry a filename (`if file and file.filename`), in increasing order. */
  function NamedIndices(uploads: seq<Upload>): (idx: seq<nat>)
    ensures forall k :: 0 <= k < |idx| ==> idx[k] < |uploads|
    ensures forall k, l :: 0 <= k < l < |idx| ==> idx[k] < idx[l]
    ensures forall i :: 0 <= i < |uploads| ==> (uploads[i].filename != "" <==> i in idx)
  {
    if uploads == [] then []
    else
      var n := |uploads| - 1;
      var front := NamedIndices(uploads[..n]);
      assert forall i :: 0 <= i < n ==> uploads[..n][i] == uploads[i];
      front + (if uploads[n].filename != "" then [n] else [])
  }

  /** The stored names of the uploads that carry a filename, in upload order. */
  function NamedPaths(uploads: seq<Upload>, names: seq<string>): (r: seq<string>)
    requires |names| == |uploads|
    ensures |r| <= |uploads|
    ensures (forall i :: 0 <= i < |uploads| ==> uploads[i].filename != "") ==> r == names
    ensures (forall i :: 0 <= i < |uploads| ==> uploads[i].filename == "") ==> r == []
  {
    if uploads == [] then []
    else
      var n := |uploads| - 1;
      NamedPaths(uploads[..n], names[..n]) + (if uploads[n].filename != "" then [names[n]] else [])
  }

  /** The k-th path is the stored name of the k-th upload that carries a filename: one per such upload, in order. */
  lemma {:induction false} NamedPathsInOrder(uploads: seq<Upload>, names: seq<string>)
    requires |names| == |uploads|
    ensures var r, idx := NamedPaths(uploads, names), NamedIndices(uploads);
      |r| == |idx| && forall k :: 0 <= k < |idx| ==> r[k] == names[idx[k]]
  {
    if uploads != [] {
      var n := |uploads| - 1;
      NamedPathsInOrder(uploads[..n], names[..n]);
      var front, idx0 := NamedPaths(uploads[..n], names[..n]), NamedIndices(uploads[..n]);
      var r, idx := NamedPaths(uploads, names), NamedIndices(uploads);
      assert r == front + (if uploads[n].filename != "" then [names[n]] else []);
      assert idx == idx0 + (if uploads[n].filename != "" then [n] else []);
      forall k | 0 <= k < |idx| ensures r[k] == names[idx[k]] {
        if k < |idx0| {
          assert r[k] == front[k] == names[..n][idx0[k]];
        }
      }
    }
  }

  /** The image rows for `paths`, numbered from `firstId`, all owned by complaint `complaintId`. */
  function ImageRows(firstId: nat, complaintId: nat, paths: seq<string>, now: int): (r: seq<ComplaintImage>)
  {
    seq(|paths|, k requires 0 <= k < |paths| => ComplaintImage(firstId + k, complaintId, paths[k], now))
  }

  /** The images table: ids in order, and every image owned by one of the `n` complaints. */
  predicate ImagesValid(imgs: seq<ComplaintImage>, n: nat) {
    forall k :: 0 <= k < |imgs| ==> imgs[k].id == k + 1 && 1 <= imgs[k].complaintId <= n
  }

  // ---------------------------------------------------------------- the whole database

  /** The invariant of the four tables together. */
  predicate TablesValid(os: seq<Officer>, cs: seq<Citizen>, cms: seq<Complaint>, ims: seq<ComplaintImage>) {
    && OfficersValid(os)
    && CitizensValid(cs)
    && ComplaintsValid(cms, Aadhars(cs))
    && ImagesValid(ims, |cms|)
  }

  /** The citizens table after `register`: one new row if the checks pass, else as it was. */
  function Admit(cs: seq<Citizen>, f: RegisterForm, hashed: string, now: int): (r: seq<Citizen>)
    ensures CheckRegistration(cs, f) == Registered ==> |r| == |cs| + 1 && r[..|cs|] == cs
    ensures CheckRegistration(cs, f) != Registered ==> r == cs
  {
    if CheckRegistration(cs, f) == Registered then cs + [NewCitizen(|cs| + 1, ReadRegistration(f), hashed, now)] else cs
  }

  /**
   * The row an admitted registration appends holds the registrant's stripped
   * fields, the lower-cased email and the password hash, and it is the row a
   * later `login` with that email finds.
   */
  lemma AdmitFindsRegistrant(cs: seq<Citizen>, f: RegisterForm, hashed: string, now: int)
    requires CheckRegistration(cs, f) == Registered
    ensures var r, reg := Admit(cs, f, hashed, now), ReadRegistration(f);
      && |r| == |cs| + 1
      && r[|cs|].id == |cs| + 1
      && r[|cs|].name == reg.name && r[|cs|].contact == reg.contact
      && r[|cs|].aadharNumber == reg.aadhar && r[|cs|].address == reg.address
      && r[|cs|].email == reg.email && r[|cs|].password == hashed
      && r[|cs|].dateCreated == now
      && FindFirst(r, (c: Citizen) => c.email == reg.email) == Some(|cs|)
  {
    var r, reg := Admit(cs, f, hashed, now), ReadRegistration(f);
    assert forall j :: 0 <= j < |cs| ==> r[j] == cs[j] && cs[j] in cs;
    FindFirstUnique(r, (c: Citizen) => c.email == reg.email, |cs|);
  }

  /** Registration, admitted or refused, keeps the database valid. */
  lemma RegistrationKeepsTablesValid(os: seq<Officer>, cs: seq<Citizen>, cms: seq<Complaint>, ims: seq<ComplaintImage>,
                                     f: RegisterForm, hashed: string, now: int)
    requires TablesValid(os, cs, cms, ims)
    ensures TablesValid(os, Admit(cs, f, hashed, now), cms, ims)
  {
    if CheckRegistration(cs, f) == Registered {
      var c := NewCitizen(|cs| + 1, ReadRegistration(f), hashed, now);
      RegistrationKeepsCitizensValid(cs, f, hashed, now);
      AadharsGrow(cs, c);
      MoreOwnersKeepComplaintsValid(cms, Aadhars(cs), Aadhars(cs + [c]));
    }
  }

  // ---------------------------------------------------------------- resolving

  /** Status only moves forward: rows keep their place and every field but status, and Pending may become Solved. */
  predicate Advances(before: seq<Complaint>, after: seq<Complaint>) {
    && |before| <= |after|
    && forall i :: 0 <= i < |before| ==>
         after[i] == before[i] || (before[i].status == Pending && after[i] == before[i].(status := Solved))
  }

  /** `solve_complaint` once the officer is known: look the number up, then mark a Pending complaint Solved. */
  function Resolve(cs: seq<Complaint>, no: string): (r: (SolveOutcome, seq<Complaint>))
    ensures r.0 == NotFound || r.0 == MarkedSolved || r.0 == AlreadySolved
    ensures |r.1| == |cs| && Advances(cs, r.1)
    ensures r.0 == NotFound <==> forall i :: 0 <= i < |cs| ==> cs[i].complaintNo != no
    ensures r.0 != MarkedSolved ==> r.1 == cs
    ensures r.0 == MarkedSolved ==>
      exists i :: 0 <= i < |cs| && cs[i].complaintNo == no && cs[i].status == Pending &&
        r.1 == cs[i := cs[i].(status := Solved)]
    ensures r.0 == AlreadySolved ==> exists i :: 0 <= i < |cs| && cs[i].complaintNo == no && cs[i].status == Solved
  {
    match FindFirst(cs, (c: Complaint) => c.complaintNo == no)
    case None => (NotFound, cs)
    case Some(i) =>
      if cs[i].status != Solved then (MarkedSolved, cs[i := cs[i].(status := Solved)])
      else (AlreadySolved, cs)
  }

  /** Resolving twice is resolving once: the second call changes nothing and reports "already solved". */
  lemma ResolveIdempotent(cs: seq<Complaint>, no: string)
    ensures var (first, cs1) := Resolve(cs, no);
      Resolve(cs1, no) == (if first == NotFound then NotFound else AlreadySolved, cs1)
  {
    var (first, cs1) := Resolve(cs, no);
    var p := (c: Complaint) => c.complaintNo == no;
    var before, after := FindFirst(cs, p), FindFirst(cs1, p);
    assert forall j :: 0 <= j < |cs| ==> cs1[j].complaintNo == cs[j].complaintNo;
    assert before.Some? ==> p(cs1[before.value]);
    assert after.Some? ==> p(cs[after.value]);
  }

  /** Resolving keeps the table valid. */
  lemma ResolveKeepsComplaintsValid(cs: seq<Complaint>, owners: set<string>, no: string)
    requires ComplaintsValid(cs, owners)
    ensures ComplaintsValid(Resolve(cs, no).1, owners)
  {
    var cs1 := Resolve(cs, no).1;
    assert forall j :: 0 <= j < |cs| ==> cs1[j].complaintNo == cs[j].complaintNo;
  }

  // ---------------------------------------------------------------- status lookup

  /** `complaint_status` once the citizen is known: both fields required, both must match. */
  function LookupStatus(cs: seq<Complaint>, f: StatusForm): (r: StatusOutcome)
    ensures var aadhar, no := Strip(Field(f.aadharNo, "")), Strip(Field(f.complaintNo, ""));
      && r != StatusNeedsLogin
      && (r == LookupFieldsMissing <==> aadhar == "" || no == "")
      && (r.Found? ==> r.complaint in cs && r.complaint.complaintNo == no && r.complaint.citizenAadhar == aadhar)
      && (r == NoSuchComplaint ==> forall c :: c in cs ==> c.complaintNo != no || c.citizenAadhar != aadhar)
  {
    var aadhar, no := Strip(Field(f.aadharNo, "")), Strip(Field(f.complaintNo, ""));
    if aadhar == "" || no == "" then LookupFieldsMissing
    else
      match FindFirst(cs, (c: Complaint) => c.complaintNo == no && c.citizenAadhar == aadhar)
      case None => NoSuchComplaint
      case Some(i) => Found(cs[i])
  }

  /** In a valid table a found complaint is the only one with that number, and an owner's complaint is always found. */
  lemma LookupByOwner(cs: seq<Complaint>, owners: set<string>, f: StatusForm, k: nat)
    requires ComplaintsValid(cs, owners) && "" !in owners && k < |cs|
    requires Strip(Field(f.aadharNo, "")) == cs[k].citizenAadhar
    requires Strip(Field(f.complaintNo, "")) == cs[k].complaintNo
    ensures LookupStatus(cs, f) == Found(cs[k])
  {
    assert |cs[k].complaintNo| == 6;
    var r := LookupStatus(cs, f);
    assert cs[k] in cs;
    if r.Found? {
      var j :| 0 <= j < |cs| && cs[j] == r.complaint;
      ComplaintNosIdentify(cs, owners, j, k);
    }
  }

  // ---------------------------------------------------------------- officer listing

  /** `.join(Citizen, Citizen.aadhar_number == Complaint.citizen_aadhar)`: the complaints with a registered owner. */
  function Joined(cs: seq<Complaint>, owners: set<string>): (r: seq<Complaint>)
    ensures forall c :: c in r <==> c in cs && c.citizenAadhar in owners
    ensures (forall i :: 0 <= i < |cs| ==> cs[i].citizenAadhar in owners) ==> r == cs
  {
    if cs == [] then []
    else (if cs[0].citizenAadhar in owners then [cs[0]] else []) + Joined(cs[1..], owners)
  }

  /** `.order_by(Complaint.date_created.desc())` */
  predicate NewestFirst(s: seq<Complaint>) {
    forall i, j :: 0 <= i < j < |s| ==> s[i].dateCreated >= s[j].dateCreated
  }

  /** A complaint no older than the head of a newest-first list can go in front of it. */
  lemma ConsNewestFirst(x: Complaint, t: seq<Complaint>)
    requires NewestFirst(t) && (t == [] || x.dateCreated >= t[0].dateCreated)
    ensures NewestFirst([x] + t)
  {
    var r := [x] + t;
    forall i, j | 0 <= i < j < |r| ensures r[i].dateCreated >= r[j].dateCreated {
      assert r[j] == t[j - 1];
      if i > 0 {
        assert r[i] == t[i - 1];
      } else if j > 1 {
        assert t[0].dateCreated >= t[j - 1].dateCreated;
      }
    }
  }

  function InsertNewestFirst(c: Complaint, s: seq<Complaint>): (r: seq<Complaint>)
    requires NewestFirst(s)
    ensures NewestFirst(r) && multiset(r) == multiset(s) + multiset{c}
    ensures |r| == |s| + 1 && (r[0] == c || (s != [] && r[0] == s[0]))
  {
    if s == [] || c.dateCreated >= s[0].dateCreated then
      ConsNewestFirst(c, s);
      [c] + s
    else
      assert s == [s[0]] + s[1..];
      assert NewestFirst(s[1..]) by {
        forall i, j | 0 <= i < j < |s| - 1 ensures s[1..][i].dateCreated >= s[1..][j].dateCreated {
          assert s[1..][i] == s[i + 1] && s[1..][j] == s[j + 1];
        }
      }
      var rest := InsertNewestFirst(c, s[1..]);
      ConsNewestFirst(s[0], rest);
      assert multiset([s[0]] + rest) == multiset{s[0]} + multiset(s[1..]) + multiset{c};
      [s[0]] + rest
  }

  /** A rearrangement of `s` with the newest complaints first (ties in some order, as in SQL). */
  function SortNewestFirst(s: seq<Complaint>): (r: seq<Complaint>)
    ensures NewestFirst(r) && multiset(r) == multiset(s)
  {
    if s == [] then []
    else
      assert s == [s[0]] + s[1..];
      InsertNewestFirst(s[0], SortNewestFirst(s[1..]))
  }

  /** The rows of `officer_complaints`. */
  function Listing(cs: seq<Complaint>, citizens: seq<Citizen>): (r: seq<Complaint>)
    ensures NewestFirst(r)
    ensures multiset(r) == multiset(Joined(cs, Aadhars(citizens)))
    ensures forall c :: c in r <==> c in cs && c.citizenAadhar in Aadhars(citizens)
  {
    var r := SortNewestFirst(Joined(cs, Aadhars(citizens)));
    assert forall c :: c in r <==> c in multiset(r);
    r
  }

  /** In a valid store the join drops nothing: every complaint is listed exactly once. */
  lemma ListingShowsEveryComplaint(cs: seq<Complaint>, citizens: seq<Citizen>)
    requires ComplaintsValid(cs, Aadhars(citizens))
    ensures multiset(Listing(cs, citizens)) == multiset(cs)
  {
  }
}

/** Job postings (controllers/jobController.js): the filtered, paged job
    search, the owner-only create, update and delete handlers, applying to a
    job, and a user's own applications. */
module JobController {
  import opened Common
  import opened JobModel
  import opened Store
  import Seqs

  // ---------------------------------------------------------------------
  // getJobs

  /** The query-string values the search reads; an absent or empty value adds
      no condition. */
  datatype JobSearch = JobSearch(
    title: Option<string>,
    location: Option<string>,
    employmentType: Option<string>,
    experienceLevel: Option<string>,
    page: Option<int>,
    limit: Option<int>)

  /** The query object the handler builds (`active: true` is always part of it). */
  datatype JobQuery = JobQuery(
    title: Option<string>,
    location: Option<string>,
    employmentType: Option<string>,
    experienceLevel: Option<string>)

  /** What the database selects for a query; `matches(pattern, text)` stands
      for the case-insensitive regular-expression test. */
  predicate Selects(q: JobQuery, matches: (string, string) -> bool, j: Job)
  {
    && j.active
    && (q.title.Some? ==> matches(q.title.value, j.title))
    && (q.location.Some? ==> matches(q.location.value, j.location))
    && (q.employmentType.Some? ==> EmploymentTypeName(j.employmentType) == q.employmentType.value)
    && (q.experienceLevel.Some? ==> ExperienceLevelName(j.experienceLevel) == q.experienceLevel.value)
  }

  /** The jobs a search asks for, read directly off the request: active ones
      meeting every condition that was given. */
  predicate Wanted(req: JobSearch, matches: (string, string) -> bool, j: Job)
  {
    && j.active
    && (Present(req.title) ==> matches(req.title.value, j.title))
    && (Present(req.location) ==> matches(req.location.value, j.location))
    && (Present(req.employmentType) ==> EmploymentTypeName(j.employmentType) == req.employmentType.value)
    && (Present(req.experienceLevel) ==> ExperienceLevelName(j.experienceLevel) == req.experienceLevel.value)
  }

  /** Builds the query one given filter at a time. */
  method BuildQuery(req: JobSearch) returns (q: JobQuery)
    ensures forall matches: (string, string) -> bool, j: Job :: Selects(q, matches, j) <==> Wanted(req, matches, j)
  {
    q := JobQuery(None, None, None, None);
    if Present(req.title) {
      q := q.(title := req.title);
    }
    if Present(req.location) {
      q := q.(location := req.location);
    }
    if Present(req.employmentType) {
      q := q.(employmentType := req.employmentType);
    }
    if Present(req.experienceLevel) {
      q := q.(experienceLevel := req.experienceLevel);
    }
  }

  /** The jobs a query selects, in storage order. */
  function Search(jobs: seq<Job>, q: JobQuery, matches: (string, string) -> bool): (r: seq<Job>)
    ensures forall j :: j in r <==> j in jobs && Selects(q, matches, j)
    ensures forall j :: multiset(r)[j] == if Selects(q, matches, j) then multiset(jobs)[j] else 0
    ensures |r| <= |jobs|
  {
    Seqs.Filter(jobs, (j: Job) => Selects(q, matches, j))
  }

  /** A given title or location the database cannot compile as a regular
      expression (such as "(" or "["); `compiles` stands for that test. */
  predicate BadPattern(req: JobSearch, compiles: string -> bool)
  {
    || (Present(req.title) && !compiles(req.title.value))
    || (Present(req.location) && !compiles(req.location.value))
  }

  /** One page of the wanted jobs, newest first, from position
      (page - 1) * limit on. Unlike the feed, the pagination descriptor counts
      only the jobs the query selects. A pattern that does not compile makes
      the count throw, and the handler fails. */
  method GetJobs(jobs: seq<Job>, req: JobSearch, matches: (string, string) -> bool, compiles: string -> bool)
    returns (query: JobQuery, r: Option<Page<Job>>)
    ensures forall j :: Selects(query, matches, j) <==> Wanted(req, matches, j)
    ensures var page, limit := OrDefault(req.page, 1), OrDefault(req.limit, 10);
      && (r.None? <==> BadPattern(req, compiles) || (page - 1) * limit < 0)
      && (r.Some? ==>
            && r.value.items == Window(Seqs.SortDesc(Search(jobs, query, matches), JobCreatedAt), (page - 1) * limit, limit)
            && (forall j :: j in r.value.items ==> j in jobs && Wanted(req, matches, j))
            && Seqs.SortedDesc(r.value.items, JobCreatedAt)
            && |r.value.items| <= Abs(limit)
            && r.value.pagination == Paginate(page, limit, |Search(jobs, query, matches)|))
  {
    query := BuildQuery(req);
    if BadPattern(req, compiles) {
      return query, None;
    }
    var selected := Search(jobs, query, matches);
    var total := |selected|;
    var ordered := Seqs.SortDesc(selected, JobCreatedAt);
    Seqs.SortDescMembers(selected, JobCreatedAt);
    Seqs.PagedFrom(ordered, req.page, req.limit, total, JobCreatedAt);
    r := Paged(ordered, req.page, req.limit, total);
  }

  // ---------------------------------------------------------------------
  // createJob, updateJob, deleteJob

  /** The position of the job with identifier `id`, if any. */
  function FindJob(js: seq<Job>, id: Id): (r: Option<nat>)
    ensures r.Some? ==> r.value < |js| && js[r.value].id == id
    ensures r.None? <==> forall i :: 0 <= i < |js| ==> js[i].id != id
  {
    Seqs.FindFirst(js, (j: Job) => j.id == id)
  }

  /** A valid body becomes a job whose company is the caller; an invalid one
      is a validation error and nothing is stored. */
  method CreateJob(db: Db, caller: Id, body: JobBody, now: Time) returns (r: Outcome)
    requires db.Valid()
    modifies db`jobs, db`nextId
    ensures db.Valid()
    ensures var j := NewJob(old(db.nextId), caller, body, now);
      && (j.None? ==> r == Failed && db.jobs == old(db.jobs) && db.nextId == old(db.nextId))
      && (j.Some? ==> r == Ok && db.jobs == old(db.jobs) + [j.value] && db.nextId == old(db.nextId) + 1)
  {
    var j := NewJob(db.nextId, caller, body, now);
    if j.None? {
      return Failed;
    }
    var id := db.NewId();
    FreshIdsAppend(db.jobs, JobIdOf, id, j.value);
    db.jobs := db.jobs + [j.value];
    r := Ok;
  }

  /** The fields an update may set on a job. */
  datatype JobPatch = JobPatch(
    title: Option<string>,
    description: Option<string>,
    location: Option<string>,
    employmentType: Option<string>,
    experienceLevel: Option<string>,
    skills: Option<seq<string>>,
    active: Option<bool>,
    expiresAt: Option<Time>)

  /** A patch the update validators refuse: a required text set to empty or
      an enumeration field set outside its values. */
  predicate BadJobPatch(patch: JobPatch)
  {
    || (patch.title.Some? && patch.title.value == "")
    || (patch.description.Some? && patch.description.value == "")
    || (patch.location.Some? && patch.location.value == "")
    || (patch.employmentType.Some? && ParseEmploymentType(patch.employmentType.value).None?)
    || (patch.experienceLevel.Some? && ParseExperienceLevel(patch.experienceLevel.value).None?)
  }

  function ApplyJobPatch(j: Job, patch: JobPatch): (r: Option<Job>)
    ensures r.None? <==> BadJobPatch(patch)
    ensures r.Some? ==>
      && r.value.id == j.id && r.value.company == j.company
      && r.value.applicants == j.applicants && r.value.salary == j.salary && r.value.createdAt == j.createdAt
      && r.value.title == (if patch.title.Some? then patch.title.value else j.title)
      && r.value.description == (if patch.description.Some? then patch.description.value else j.description)
      && r.value.location == (if patch.location.Some? then patch.location.value else j.location)
      && (patch.employmentType.None? ==> r.value.employmentType == j.employmentType)
      && (patch.employmentType.Some? ==> EmploymentTypeName(r.value.employmentType) == patch.employmentType.value)
      && (patch.experienceLevel.None? ==> r.value.experienceLevel == j.experienceLevel)
      && (patch.experienceLevel.Some? ==> ExperienceLevelName(r.value.experienceLevel) == patch.experienceLevel.value)
      && r.value.skills == (if patch.skills.Some? then patch.skills.value else j.skills)
      && r.value.active == (if patch.active.Some? then patch.active.value else j.active)
      && r.value.expiresAt == (if patch.expiresAt.Some? then patch.expiresAt.value else j.expiresAt)
  {
    if BadJobPatch(patch) then None
    else
      Some(j.(title := if patch.title.Some? then patch.title.value else j.title,
              description := if patch.description.Some? then patch.description.value else j.description,
              location := if patch.location.Some? then patch.location.value else j.location,
              employmentType := if patch.employmentType.Some? then ParseEmploymentType(patch.employmentType.value).value else j.employmentType,
              experienceLevel := if patch.experienceLevel.Some? then ParseExperienceLevel(patch.experienceLevel.value).value else j.experienceLevel,
              skills := if patch.skills.Some? then patch.skills.value else j.skills,
              active := if patch.active.Some? then patch.active.value else j.active,
              expiresAt := if patch.expiresAt.Some? then patch.expiresAt.value else j.expiresAt))
  }

  /** NotFound for a missing job, Unauthorized for anyone but its company;
      otherwise the patch is applied if it validates. */
  method UpdateJob(db: Db, caller: Id, id: Id, patch: JobPatch) returns (r: Outcome)
    requires db.Valid()
    modifies db`jobs
    ensures db.Valid()
    ensures var k := FindJob(old(db.jobs), id);
      && (k.None? ==> r == NotFound)
      && (k.Some? && old(db.jobs)[k.value].company != caller ==> r == Unauthorized)
      && (k.Some? && old(db.jobs)[k.value].company == caller ==>
            var j := ApplyJobPatch(old(db.jobs)[k.value], patch);
            && (j.None? ==> r == Failed)
            && (j.Some? ==> r == Ok && db.jobs == old(db.jobs)[k.value := j.value]))
      && (r != Ok ==> db.jobs == old(db.jobs))
  {
    var k := FindJob(db.jobs, id);
    if k.None? {
      return NotFound;
    }
    if db.jobs[k.value].company != caller {
      return Unauthorized;
    }
    var j := ApplyJobPatch(db.jobs[k.value], patch);
    if j.None? {
      return Failed;
    }
    FreshIdsReplace(db.jobs, JobIdOf, db.nextId, k.value, j.value);
    db.jobs := db.jobs[k.value := j.value];
    r := Ok;
  }

  /** NotFound for a missing job, Unauthorized for anyone but its company;
      otherwise the job is removed. */
  method DeleteJob(db: Db, caller: Id, id: Id) returns (r: Outcome)
    requires db.Valid()
    modifies db`jobs
    ensures db.Valid()
    ensures var k := FindJob(old(db.jobs), id);
      && (k.None? ==> r == NotFound)
      && (k.Some? && old(db.jobs)[k.value].company != caller ==> r == Unauthorized)
      && (k.Some? && old(db.jobs)[k.value].company == caller ==>
            r == Ok && db.jobs == old(db.jobs)[..k.value] + old(db.jobs)[k.value + 1..])
      && (r != Ok ==> db.jobs == old(db.jobs))
  {
    var k := FindJob(db.jobs, id);
    if k.None? {
      return NotFound;
    }
    if db.jobs[k.value].company != caller {
      return Unauthorized;
    }
    FreshIdsRemove(db.jobs, JobIdOf, db.nextId, k.value);
    var js := db.jobs;
    db.jobs := js[..k.value] + js[k.value + 1..];
    r := Ok;
  }

  // ---------------------------------------------------------------------
  // applyForJob

  /** Some entry of the list is by `user`. */
  predicate Lists(xs: seq<Applicant>, user: Id)
  {
    exists i :: 0 <= i < |xs| && xs[i].user == user
  }

  /** Whether some entry is by `user`, scanning from the front. */
  method HasApplied(xs: seq<Applicant>, user: Id) returns (found: bool)
    ensures found <==> Lists(xs, user)
  {
    var i := 0;
    while i < |xs|
      invariant 0 <= i <= |xs|
      invariant forall k :: 0 <= k < i ==> xs[k].user != user
    {
      if xs[i].user == user {
        return true;
      }
      i := i + 1;
    }
    return false;
  }

  /** Appending an entry for someone not yet listed keeps the list free of
      repeated users. */
  lemma ApplyKeepsApplicantsUnique(xs: seq<Applicant>, a: Applicant)
    requires ApplicantsUnique(xs) && !Lists(xs, a.user)
    ensures ApplicantsUnique(xs + [a])
  {
    var ys := xs + [a];
    forall p, q | 0 <= p < q < |ys| ensures ys[p].user != ys[q].user {
      if q == |xs| {
        assert ys[p] == xs[p];
      }
    }
  }

  /** NotFound for a missing job, BadRequest for an inactive job or a caller
      already listed; otherwise one entry for the caller, status applied and
      dated now, goes at the end. */
  method ApplyForJob(db: Db, caller: Id, id: Id, now: Time) returns (r: Outcome)
    requires db.Valid()
    modifies db`jobs
    ensures db.Valid()
    ensures var k := FindJob(old(db.jobs), id);
      && (k.None? ==> r == NotFound)
      && (k.Some? && !old(db.jobs)[k.value].active ==> r == BadRequest)
      && (k.Some? && old(db.jobs)[k.value].active && Lists(old(db.jobs)[k.value].applicants, caller) ==> r == BadRequest)
      && (k.Some? && old(db.jobs)[k.value].active && !Lists(old(db.jobs)[k.value].applicants, caller) ==>
            && r == Ok
            && db.jobs == old(db.jobs)[k.value := old(db.jobs)[k.value].(applicants := old(db.jobs)[k.value].applicants + [Applicant(caller, Applied, now)])])
      && (r != Ok ==> db.jobs == old(db.jobs))
  {
    var k := FindJob(db.jobs, id);
    if k.None? {
      return NotFound;
    }
    var j := db.jobs[k.value];
    if !j.active {
      return BadRequest;
    }
    var already := HasApplied(j.applicants, caller);
    if already {
      return BadRequest;
    }
    var j' := j.(applicants := j.applicants + [Applicant(caller, Applied, now)]);
    ApplyKeepsApplicantsUnique(j.applicants, Applicant(caller, Applied, now));
    FreshIdsReplace(db.jobs, JobIdOf, db.nextId, k.value, j');
    db.jobs := db.jobs[k.value := j'];
    r := Ok;
  }

  // ---------------------------------------------------------------------
  // getUserApplications

  /** One line of a user's applications: the job's summary and the user's entry. */
  datatype Application = Application(
    job: Id, title: string, company: Id, location: string, employmentType: EmploymentType,
    status: ApplicantStatus, appliedAt: Time)

  /** The line for job `j`, from the first entry by `user`. */
  function ApplicationOf(j: Job, user: Id): (a: Application)
    requires Lists(j.applicants, user)
    ensures a.job == j.id && a.title == j.title && a.company == j.company && a.location == j.location
    ensures a.employmentType == j.employmentType
    ensures exists i :: (0 <= i < |j.applicants| && j.applicants[i].user == user
      && a.status == j.applicants[i].status && a.appliedAt == j.applicants[i].appliedAt
      && forall h :: 0 <= h < i ==> j.applicants[h].user != user)
  {
    var i := Seqs.FindFirst(j.applicants, (x: Applicant) => x.user == user).value;
    Application(j.id, j.title, j.company, j.location, j.employmentType,
                j.applicants[i].status, j.applicants[i].appliedAt)
  }

  /** The jobs whose applicants list `user`, in storage order: the query on
      `applicants.user`. */
  function ListingJobs(js: seq<Job>, user: Id): (r: seq<Job>)
    ensures forall j :: j in r <==> j in js && Lists(j.applicants, user)
    ensures forall j :: multiset(r)[j] == if Lists(j.applicants, user) then multiset(js)[j] else 0
  {
    Seqs.Filter(js, (j: Job) => Lists(j.applicants, user))
  }

  /** One line per job that lists `user`, in the order the query returns them. */
  function Applications(js: seq<Job>, user: Id): (r: seq<Application>)
    ensures |r| == |ListingJobs(js, user)|
    ensures forall i :: 0 <= i < |r| ==> r[i] == ApplicationOf(ListingJobs(js, user)[i], user)
  {
    var found := ListingJobs(js, user);
    seq(|found|, i requires 0 <= i < |found| => ListedAt(found, user, i); ApplicationOf(found[i], user))
  }

  /** Every job of the listing lists the user. */
  lemma ListedAt(found: seq<Job>, user: Id, i: nat)
    requires forall j :: j in found ==> Lists(j.applicants, user)
    requires i < |found|
    ensures Lists(found[i].applicants, user)
  {
    assert found[i] in found;
  }

  /** The lines are exactly the lines of the jobs that list the user. */
  lemma ApplicationsMembers(js: seq<Job>, user: Id)
    ensures forall a :: a in Applications(js, user) <==>
      exists j :: j in js && Lists(j.applicants, user) && a == ApplicationOf(j, user)
  {
    var found := ListingJobs(js, user);
    var r := Applications(js, user);
    forall a | a in r ensures exists j :: j in js && Lists(j.applicants, user) && a == ApplicationOf(j, user) {
      var i :| 0 <= i < |r| && r[i] == a;
      assert found[i] in found;
    }
    forall j | j in js && Lists(j.applicants, user) ensures ApplicationOf(j, user) in r {
      var i :| 0 <= i < |found| && found[i] == j;
      assert r[i] == ApplicationOf(j, user);
    }
  }

  /** With distinct job identifiers no job has two lines: the lines name
      distinct jobs. */
  lemma ApplicationsOnePerJob(js: seq<Job>, user: Id)
    requires forall i, k :: 0 <= i < k < |js| ==> js[i].id != js[k].id
    ensures var r := Applications(js, user);
      forall i, k :: 0 <= i < k < |r| ==> r[i].job != r[k].job
  {
    var found := ListingJobs(js, user);
    var r := Applications(js, user);
    ListedOnce(js, user);
    forall i, k | 0 <= i < k < |r| ensures r[i].job != r[k].job {
      assert r[i].job == found[i].id && r[k].job == found[k].id;
    }
  }

  /** With distinct job identifiers the listing jobs have distinct identifiers. */
  lemma {:induction false} ListedOnce(js: seq<Job>, user: Id)
    requires forall i, k :: 0 <= i < k < |js| ==> js[i].id != js[k].id
    ensures var found := ListingJobs(js, user);
      forall i, k :: 0 <= i < k < |found| ==> found[i].id != found[k].id
  {
    if js != [] {
      ListedOnce(js[1..], user);
      assert js == [js[0]] + js[1..];
      var rest := ListingJobs(js[1..], user);
      forall j | j in rest ensures j.id != js[0].id {
        var t :| 0 <= t < |js[1..]| && js[1..][t] == j;
        assert js[t + 1] == j;
      }
    }
  }

  /** Unauthorized unless the path names the caller; otherwise the caller's
      applications. */
  function GetUserApplications(js: seq<Job>, caller: Id, user: Id): (r: Response<seq<Application>>)
    ensures user != caller <==> r == Refused(Unauthorized)
    ensures r.Success? ==> forall a :: a in r.data ==>
      exists j :: j in js && Lists(j.applicants, caller) && a == ApplicationOf(j, caller)
    ensures r.Success? ==> forall j :: j in js && Lists(j.applicants, caller) ==> ApplicationOf(j, caller) in r.data
    ensures r.Success? ==>
      && |r.data| == |ListingJobs(js, caller)|
      && forall i :: 0 <= i < |r.data| ==> r.data[i] == ApplicationOf(ListingJobs(js, caller)[i], caller)
  {
    ApplicationsMembers(js, caller);
    if user != caller then Refused(Unauthorized) else Success(Applications(js, caller))
  }
}

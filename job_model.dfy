/** The Job document (models/Job.js): the three enumerations, the embedded
    applicant entries and the defaults the schema fills in on creation. */
module JobModel {
  import opened Common

  datatype EmploymentType = FullTime | PartTime | Contract | Temporary | Internship

  datatype ExperienceLevel = EntryLevel | MidSeniorLevel | SeniorLevel | Director | Executive

  datatype ApplicantStatus = Applied | Reviewed | Interviewed | Offered | Rejected

  function EmploymentTypeName(e: EmploymentType): string
  {
    match e
    case FullTime => "Full-time"
    case PartTime => "Part-time"
    case Contract => "Contract"
    case Temporary => "Temporary"
    case Internship => "Internship"
  }

  function ParseEmploymentType(s: string): (r: Option<EmploymentType>)
    ensures r.Some? ==> EmploymentTypeName(r.value) == s
    ensures r.None? ==> forall e: EmploymentType :: EmploymentTypeName(e) != s
  {
    if s == "Full-time" then Some(FullTime)
    else if s == "Part-time" then Some(PartTime)
    else if s == "Contract" then Some(Contract)
    else if s == "Temporary" then Some(Temporary)
    else if s == "Internship" then Some(Internship)
    else None
  }

  function ExperienceLevelName(l: ExperienceLevel): string
  {
    match l
    case EntryLevel => "Entry level"
    case MidSeniorLevel => "Mid-Senior level"
    case SeniorLevel => "Senior level"
    case Director => "Director"
    case Executive => "Executive"
  }

  function ParseExperienceLevel(s: string): (r: Option<ExperienceLevel>)
    ensures r.Some? ==> ExperienceLevelName(r.value) == s
    ensures r.None? ==> forall l: ExperienceLevel :: ExperienceLevelName(l) != s
  {
    if s == "Entry level" then Some(EntryLevel)
    else if s == "Mid-Senior level" then Some(MidSeniorLevel)
    else if s == "Senior level" then Some(SeniorLevel)
    else if s == "Director" then Some(Director)
    else if s == "Executive" then Some(Executive)
    else None
  }

  function ApplicantStatusName(a: ApplicantStatus): string
  {
    match a
    case Applied => "applied"
    case Reviewed => "reviewed"
    case Interviewed => "interviewed"
    case Offered => "offered"
    case Rejected => "rejected"
  }

  /** Every enumeration value is read back from its name (so distinct values
      have distinct names). */
  lemma EnumNamesRoundTrip(e: EmploymentType, l: ExperienceLevel)
    ensures ParseEmploymentType(EmploymentTypeName(e)) == Some(e)
    ensures ParseExperienceLevel(ExperienceLevelName(l)) == Some(l)
  {
  }

  /** One element of `applicants`. */
  datatype Applicant = Applicant(user: Id, status: ApplicantStatus, appliedAt: Time)

  datatype Salary = Salary(min: Option<int>, max: Option<int>, currency: string)

  datatype Job = Job(
    id: Id,
    company: Id,
    title: string,
    description: string,
    location: string,
    employmentType: EmploymentType,
    experienceLevel: ExperienceLevel,
    skills: seq<string>,
    salary: Salary,
    applicants: seq<Applicant>,
    active: bool,
    createdAt: Time,
    expiresAt: Time)

  function JobIdOf(j: Job): Id { j.id }
  function JobCreatedAt(j: Job): int { j.createdAt }

  /** The fields a request body may supply when a job is created. */
  datatype JobBody = JobBody(
    title: Option<string>,
    description: Option<string>,
    location: Option<string>,
    employmentType: Option<string>,
    experienceLevel: Option<string>,
    skills: seq<string>,
    salaryMin: Option<int>,
    salaryMax: Option<int>,
    currency: Option<string>,
    active: Option<bool>,
    expiresAt: Option<Time>)

  /** A required string field is present and not empty. */
  predicate Present(s: Option<string>)
  {
    s.Some? && s.value != ""
  }

  /** What the schema's validators accept for a new job. */
  predicate ValidJobBody(body: JobBody)
  {
    && Present(body.title) && Present(body.description) && Present(body.location)
    && body.employmentType.Some? && ParseEmploymentType(body.employmentType.value).Some?
    && body.experienceLevel.Some? && ParseExperienceLevel(body.experienceLevel.value).Some?
    && body.expiresAt.Some?
  }

  /** Creating a job from a body and a company: None when validation fails;
      otherwise the document with the schema's defaults (no applicants,
      active, currency "USD", created now). */
  function NewJob(id: Id, company: Id, body: JobBody, now: Time): (r: Option<Job>)
    ensures r.Some? <==> ValidJobBody(body)
    ensures r.Some? ==>
      && r.value.id == id && r.value.company == company
      && r.value.title == body.title.value
      && r.value.description == body.description.value
      && r.value.location == body.location.value
      && EmploymentTypeName(r.value.employmentType) == body.employmentType.value
      && ExperienceLevelName(r.value.experienceLevel) == body.experienceLevel.value
      && r.value.skills == body.skills
      && r.value.salary.min == body.salaryMin && r.value.salary.max == body.salaryMax
      && r.value.applicants == []
      && r.value.active == (body.active.None? || body.active.value)
      && r.value.salary.currency == (if body.currency.Some? then body.currency.value else "USD")
      && r.value.createdAt == now
      && r.value.expiresAt == body.expiresAt.value
  {
    if !ValidJobBody(body) then None
    else
      Some(Job(id, company, body.title.value, body.description.value, body.location.value,
               ParseEmploymentType(body.employmentType.value).value,
               ParseExperienceLevel(body.experienceLevel.value).value,
               body.skills,
               Salary(body.salaryMin, body.salaryMax,
                      if body.currency.Some? then body.currency.value else "USD"),
               [],
               if body.active.Some? then body.active.value else true,
               now,
               body.expiresAt.value))
  }
}

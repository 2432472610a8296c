/** The evolved portal (app_evolved.py): validated submissions, an adult-only birth date, 23 postings. */
module EvolvedApp {
  import opened Portal
  import opened Calendar
  import opened Matcher
  import opened Validation
  import opened Text

  /** The static job catalog, in display order. */
  const Catalog: seq<JobPosting> := [
    // Engineering / IT
    JobPosting("Infosys", "Software Trainee", ["BTech", "BE"], 60, 18, 28),
    JobPosting("TCS", "Assistant System Engineer", ["BTech", "BE"], 60, 18, 28),
    JobPosting("Wipro", "Project Engineer", ["BTech", "BE"], 60, 18, 27),
    JobPosting("Accenture", "Associate Software Engineer", ["BTech", "BE"], 65, 21, 28),
    JobPosting("ISRO", "Scientist/Engineer", ["BTech", "BE"], 65, 21, 28),
    // Data / Analytics
    JobPosting("TCS", "Data Analyst Intern", ["BSc", "BTech"], 65, 21, 26),
    JobPosting("Infosys", "Data Science Trainee", ["BSc", "BTech"], 70, 21, 28),
    // BCA / MCA
    JobPosting("Infosys", "Junior Developer", ["BCA", "MCA"], 60, 18, 28),
    JobPosting("Wipro", "System Support Engineer", ["BCA", "MCA"], 55, 18, 27),
    // BSc
    JobPosting("Cognizant", "Operations Executive", ["BSc"], 55, 18, 25),
    JobPosting("Infosys", "BSc IT Trainee", ["BSc"], 60, 18, 26),
    // BCom
    JobPosting("Deloitte", "Audit Executive", ["BCom"], 60, 21, 30),
    JobPosting("KPMG", "Accounts Associate", ["BCom"], 58, 21, 30),
    // BBA / MBA
    JobPosting("HDFC Bank", "Relationship Officer", ["BBA", "MBA"], 55, 21, 30),
    JobPosting("ICICI Bank", "Management Trainee", ["MBA"], 60, 21, 30),
    // BA
    JobPosting("Digital Marketing Firm", "Content Analyst", ["BA"], 55, 18, 28),
    JobPosting("Media House", "Junior Editor", ["BA"], 55, 21, 30),
    // Diploma
    JobPosting("L&T", "Junior Technician", ["Diploma"], 55, 18, 30),
    JobPosting("TVS Motors", "Service Technician", ["Diploma"], 55, 18, 28),
    // Government / any degree
    JobPosting("Banking Exam", "Clerk", ["Any"], 55, 20, 30),
    JobPosting("Banking Exam", "Probationary Officer", ["Any"], 60, 21, 30),
    JobPosting("SSC", "CGL Officer", ["Any"], 55, 18, 32),
    JobPosting("RRB", "NTPC Graduate", ["Any"], 55, 18, 33)
  ]

  /**
   * The session state of one browser session. `name`, `age` and `eligibleJobs` are absent
   * until the first accepted submission.
   */
  class Session {
    var page: Page
    var name: Option<string>
    var age: Option<int>
    var eligibleJobs: Option<seq<Row>>

    /** A new session starts on the form, with nothing stored. */
    constructor ()
      ensures page == Form && name == None && age == None && eligibleJobs == None
    {
      page := Form;
      name := None;
      age := None;
      eligibleJobs := None;
    }

    /**
     * "Find Eligible Jobs" pressed on `today`, on the form page. The form only exists once the latest allowed
     * birth date could be built, and the date widget offers no later date of birth.
     * With any error the session is untouched; otherwise it stores the applicant's name,
     * age and matches and shows the results page.
     */
    method Submit(today: Date, sub: Submission) returns (errors: seq<ValidationError>)
      requires page == Form
      requires MaxDob(today).Some? && NotAfter(sub.dob, MaxDob(today).value)
      modifies this
      ensures errors == ErrorsOf(sub)
      ensures errors != [] ==>
        page == Form && name == old(name) && age == old(age) && eligibleJobs == old(eligibleJobs)
      ensures errors == [] ==>
        && page == Result
        && name == Some(sub.name)
        && age == Some(Age(today, sub.dob))
        && eligibleJobs == Some(Matches(Catalog, sub.degree, Average(sub.tenth, sub.twelfth), Age(today, sub.dob)))
      ensures errors == [] ==> age.Some? && age.value >= 18
    {
      errors := CollectErrors(sub);
      if errors == [] {
        var a := Age(today, sub.dob);
        var avg := Average(sub.tenth, sub.twelfth);
        var eligible := MatchJobs(Catalog, sub.degree, avg, a);
        AcceptedDobIsAdult(today, sub.dob);
        name := Some(sub.name);
        age := Some(a);
        eligibleJobs := Some(eligible);
        page := Result;
      }
    }

    /** "Go Back", shown on the results page, returns to the form and keeps everything stored. */
    method GoBack()
      requires page == Result
      modifies this`page
      ensures page == Form
    {
      page := Form;
    }
  }

  /**
   * A BA applicant averaging exactly 55 at age 25 gets the Banking Exam clerk row: the
   * wildcard degree and the non-strict percentage bound both let them in.
   */
  lemma ClerkAtThreshold()
    ensures Row("Banking Exam", "Clerk", 55, "20-30") in Matches(Catalog, "BA", Average(60.0, 50.0), 25)
  {
    var clerk := Catalog[19];
    assert clerk == JobPosting("Banking Exam", "Clerk", ["Any"], 55, 20, 30);
    assert IsEligible(clerk, "BA", Average(60.0, 50.0), 25);
    TwoDigitToString(20);
    TwoDigitToString(30);
    assert ToRow(clerk) == Row("Banking Exam", "Clerk", 55, "20-30");
    MatchesMembership(Catalog, "BA", Average(60.0, 50.0), 25);
  }

  /** No two postings share both company and role. */
  lemma CatalogKeysDistinct()
    ensures forall i, j | 0 <= i < j < |Catalog| ::
      (Catalog[i].company, Catalog[i].role) != (Catalog[j].company, Catalog[j].role)
  {
  }

  /** No two postings give the same row, so a row names its posting. */
  lemma CatalogRowsDistinct()
    ensures forall i, j | 0 <= i < j < |Catalog| :: ToRow(Catalog[i]) != ToRow(Catalog[j])
  {
    CatalogKeysDistinct();
  }

  /** A posting of the catalog is in the matches exactly when the applicant is eligible for it. */
  lemma CatalogMatchesExactly(degree: string, avg: real, age: int, k: nat)
    requires k < |Catalog|
    ensures ToRow(Catalog[k]) in Matches(Catalog, degree, avg, age) <==> IsEligible(Catalog[k], degree, avg, age)
  {
    CatalogRowsDistinct();
    MatchesExactly(Catalog, degree, avg, age, k);
  }

  /**
   * The matches list every posting of the catalog the applicant is eligible for, and no
   * other. With `Submit`'s postcondition this is what the stored `eligibleJobs` holds.
   */
  lemma CatalogMatchesAll(degree: string, avg: real, age: int)
    ensures forall k | 0 <= k < |Catalog| ::
      ToRow(Catalog[k]) in Matches(Catalog, degree, avg, age) <==> IsEligible(Catalog[k], degree, avg, age)
  {
    forall k | 0 <= k < |Catalog|
      ensures ToRow(Catalog[k]) in Matches(Catalog, degree, avg, age) <==> IsEligible(Catalog[k], degree, avg, age)
    {
      CatalogMatchesExactly(degree, avg, age, k);
    }
  }
}

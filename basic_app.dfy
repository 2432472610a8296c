/** The first portal (app.py): no validation, three postings, every submission shows results. */
module BasicApp {
  import opened Portal
  import opened Calendar
  import opened Matcher
  import opened Text

  /** The static job catalog, in display order. */
  const Catalog: seq<JobPosting> := [
    JobPosting("Infosys", "Software Trainee", ["BTech", "BE"], 60, 18, 28),
    JobPosting("TCS", "Data Analyst Intern", ["BSc", "BTech"], 65, 21, 26),
    JobPosting("Banking Exam", "Clerk", ["Any"], 55, 20, 30)
  ]

  /**
   * What the first form submits and uses. The date of birth has no upper bound here, so
   * any age, even a negative one, can come out. State, college and the two uploads are
   * collected but never used, so they are not here.
   */
  datatype Submission = Submission(name: string, dob: Date, degree: string, tenth: real, twelfth: real)

  /** The session state of one browser session; every entry but `page` is absent until a submission. */
  class Session {
    var page: Page
    var name: Option<string>
    var age: Option<int>
    var degree: Option<string>
    var avgPercent: Option<real>
    var eligibleJobs: Option<seq<Row>>

    /** A new session starts on the form, with nothing stored. */
    constructor ()
      ensures page == Form
      ensures name == None && age == None && degree == None && avgPercent == None && eligibleJobs == None
    {
      page := Form;
      name := None;
      age := None;
      degree := None;
      avgPercent := None;
      eligibleJobs := None;
    }

    /** "Find Eligible Jobs" pressed on `today`, on the form page: every submission is stored and the results page shown. */
    method Submit(today: Date, sub: Submission)
      requires page == Form
      modifies this
      ensures page == Result
      ensures name == Some(sub.name) && degree == Some(sub.degree)
      ensures age == Some(Age(today, sub.dob))
      ensures avgPercent == Some(Average(sub.tenth, sub.twelfth))
      ensures eligibleJobs == Some(Matches(Catalog, sub.degree, Average(sub.tenth, sub.twelfth), Age(today, sub.dob)))
    {
      var a := Age(today, sub.dob);
      var avg := Average(sub.tenth, sub.twelfth);
      name := Some(sub.name);
      age := Some(a);
      degree := Some(sub.degree);
      avgPercent := Some(avg);
      var eligible := MatchJobs(Catalog, sub.degree, avg, a);
      eligibleJobs := Some(eligible);
      page := Result;
    }

    /** "Go Back", shown on the results page, returns to the form and changes nothing else. */
    method GoBack()
      requires page == Result
      modifies this`page
      ensures page == Form
    {
      page := Form;
    }
  }

  /** The rows of the three postings. */
  lemma CatalogRows()
    ensures ToRow(Catalog[0]) == Row("Infosys", "Software Trainee", 60, "18-28")
    ensures ToRow(Catalog[1]) == Row("TCS", "Data Analyst Intern", 65, "21-26")
    ensures ToRow(Catalog[2]) == Row("Banking Exam", "Clerk", 55, "20-30")
  {
    TwoDigitToString(18);
    TwoDigitToString(28);
    TwoDigitToString(21);
    TwoDigitToString(26);
    TwoDigitToString(20);
    TwoDigitToString(30);
  }

  /** No two postings share both company and role. */
  lemma CatalogKeysDistinct()
    ensures forall i, j | 0 <= i < j < |Catalog| ::
      (Catalog[i].company, Catalog[i].role) != (Catalog[j].company, Catalog[j].role)
  {
  }

  /** No two postings give the same row, so a row names its posting. */
  lemma CatalogRowsDistinct()
    ensures forall i, j | 0 <= i < j < |Catalog| :: ToRow(Catalog[i]) != ToRow(Catalog[j])
  {
    CatalogKeysDistinct();
  }

  /** A posting of the catalog is in the matches exactly when the applicant is eligible for it. */
  lemma CatalogMatchesExactly(degree: string, avg: real, age: int, k: nat)
    requires k < |Catalog|
    ensures ToRow(Catalog[k]) in Matches(Catalog, degree, avg, age) <==> IsEligible(Catalog[k], degree, avg, age)
  {
    CatalogRowsDistinct();
    MatchesExactly(Catalog, degree, avg, age, k);
  }

  /**
   * The matches list every posting of the catalog the applicant is eligible for, and no
   * other. With `Submit`'s postcondition this is what the stored `eligibleJobs` holds.
   */
  lemma CatalogMatchesAll(degree: string, avg: real, age: int)
    ensures forall k | 0 <= k < |Catalog| ::
      ToRow(Catalog[k]) in Matches(Catalog, degree, avg, age) <==> IsEligible(Catalog[k], degree, avg, age)
  {
    forall k | 0 <= k < |Catalog|
      ensures ToRow(Catalog[k]) in Matches(Catalog, degree, avg, age) <==> IsEligible(Catalog[k], degree, avg, age)
    {
      CatalogMatchesExactly(degree, avg, age, k);
    }
  }

  /** A BTech applicant of 22 averaging 70 qualifies for all three postings, Infosys first. */
  lemma BTechAt22()
    ensures Matches(Catalog, "BTech", Average(70.0, 70.0), 22)
            == [Row("Infosys", "Software Trainee", 60, "18-28"),
                Row("TCS", "Data Analyst Intern", 65, "21-26"),
                Row("Banking Exam", "Clerk", 55, "20-30")]
  {
    CatalogRows();
    assert Catalog[..2][..1][..0] == [];
    assert Catalog[..3] == Catalog;
  }

  /** At 30 the same applicant is over both upper bounds of 28 and 26 and keeps only the clerk row. */
  lemma BTechAt30()
    ensures Matches(Catalog, "BTech", Average(70.0, 70.0), 30)
            == [Row("Banking Exam", "Clerk", 55, "20-30")]
  {
    CatalogRows();
    assert Catalog[..2][..1][..0] == [];
    assert Catalog[..3] == Catalog;
  }

  /**
   * An applicant who picks the degree "Any" is an ordinary applicant: only the posting that
   * lists the wildcard takes them, not the two that list specific degrees.
   */
  lemma ApplicantAnyIsOrdinary()
    ensures Matches(Catalog, "Any", Average(90.0, 90.0), 22)
            == [Row("Banking Exam", "Clerk", 55, "20-30")]
  {
    CatalogRows();
    assert Catalog[..2][..1][..0] == [];
    assert Catalog[..3] == Catalog;
  }
}

/** The eligibility matcher shared by both versions of the portal. */
module Matcher {
  import opened Portal
  import opened Text
  import opened Sequences

  /** One catalog entry: `[company, role, deg_list, min_per, min_age, max_age]`. */
  datatype JobPosting = JobPosting(
    company: string, role: string, degrees: seq<string>,
    minPercent: int, minAge: int, maxAge: int)

  /** One result row: `[company, role, min_per, "min_age-max_age"]`. */
  datatype Row = Row(company: string, role: string, minPercent: int, ageLimit: string)

  /** The catalog-side degree that every applicant degree satisfies. */
  const Wildcard: string := "Any"

  /** `degree in deg_list or "Any" in deg_list`. */
  predicate DegreeAccepted(degree: string, degrees: seq<string>) {
    degree in degrees || Wildcard in degrees
  }

  /** The three conditions of the matching loop; both bounds are inclusive. */
  predicate IsEligible(job: JobPosting, degree: string, avg: real, age: int) {
    DegreeAccepted(degree, job.degrees)
    && avg >= job.minPercent as real
    && job.minAge <= age <= job.maxAge
  }

  /** The mean of the two school percentages: it lies halfway between them. */
  function Average(tenth: real, twelfth: real): (avg: real)
    ensures avg - tenth == twelfth - avg
  {
    (tenth + twelfth) / 2.0
  }

  /** `f"{min_age}-{max_age}"`. */
  function AgeLimit(minAge: int, maxAge: int): string {
    IntToString(minAge) + "-" + IntToString(maxAge)
  }

  /** Reads an age-limit text back into its two bounds. */
  function ParseAgeLimit(s: string): Option<(nat, nat)> {
    var k := IndexOf(s, '-');
    if 0 < k < |s| - 1 && IsDigits(s[..k]) && IsDigits(s[k + 1..])
    then Some((DigitsValue(s[..k]), DigitsValue(s[k + 1..])))
    else None
  }

  /** For non-negative bounds the age-limit text records both bounds unambiguously. */
  lemma AgeLimitRoundTrip(minAge: nat, maxAge: nat)
    ensures ParseAgeLimit(AgeLimit(minAge, maxAge)) == Some((minAge, maxAge))
  {
    var a, b := IntToString(minAge), IntToString(maxAge);
    var s := AgeLimit(minAge, maxAge);
    var k := IndexOf(s, '-');
    assert s[|a|] == '-';
    assert forall i | 0 <= i < |a| :: s[i] == a[i];
    assert k == |a|;
    assert s[..k] == a;
    assert s[k + 1..] == b;
  }

  /** The row the matching loop appends for `job`. */
  function ToRow(job: JobPosting): Row {
    Row(job.company, job.role, job.minPercent, AgeLimit(job.minAge, job.maxAge))
  }

  /** The row of every posting, in catalog order. */
  function Rows(jobs: seq<JobPosting>): (rows: seq<Row>)
    ensures |rows| == |jobs|
    decreases |jobs|
  {
    if jobs == [] then [] else Rows(jobs[..|jobs| - 1]) + [ToRow(jobs[|jobs| - 1])]
  }

  /**
   * The result of matching: the rows of the eligible postings, in catalog order.
   * Each posting is decided on its own, so the result of a catalog is the result of
   * all but its last posting followed by that posting's row when it is eligible.
   */
  function Matches(jobs: seq<JobPosting>, degree: string, avg: real, age: int): (rows: seq<Row>)
    ensures |rows| <= |jobs|
    decreases |jobs|
  {
    if jobs == [] then []
    else
      var last := jobs[|jobs| - 1];
      Matches(jobs[..|jobs| - 1], degree, avg, age)
      + (if IsEligible(last, degree, avg, age) then [ToRow(last)] else [])
  }

  /** The matching loop: one pass over the catalog, appending the row of each eligible posting. */
  method MatchJobs(jobs: seq<JobPosting>, degree: string, avg: real, age: int)
    returns (eligible: seq<Row>)
    ensures eligible == Matches(jobs, degree, avg, age)
  {
    eligible := [];
    for i := 0 to |jobs|
      invariant eligible == Matches(jobs[..i], degree, avg, age)
    {
      var job := jobs[i];
      assert jobs[..i + 1][..i] == jobs[..i];
      if IsEligible(job, degree, avg, age) {
        eligible := eligible + [ToRow(job)];
      }
    }
    assert jobs[..|jobs|] == jobs;
  }

  /** An empty catalog yields no rows for any applicant, and never an error. */
  lemma MatchesEmptyCatalog(degree: string, avg: real, age: int)
    ensures Matches([], degree, avg, age) == []
  {
  }

  /**
   * Every eligible posting contributes its row, and every row comes from an eligible
   * posting of the catalog.
   */
  lemma {:induction false} MatchesMembership(jobs: seq<JobPosting>, degree: string, avg: real, age: int)
    ensures forall k | 0 <= k < |jobs| && IsEligible(jobs[k], degree, avg, age) ::
              ToRow(jobs[k]) in Matches(jobs, degree, avg, age)
    ensures forall r | r in Matches(jobs, degree, avg, age) ::
              exists k | 0 <= k < |jobs| :: IsEligible(jobs[k], degree, avg, age) && r == ToRow(jobs[k])
    decreases |jobs|
  {
    if jobs != [] {
      var init := jobs[..|jobs| - 1];
      MatchesMembership(init, degree, avg, age);
      forall r | r in Matches(jobs, degree, avg, age)
        ensures exists k | 0 <= k < |jobs| :: IsEligible(jobs[k], degree, avg, age) && r == ToRow(jobs[k])
      {
        if r in Matches(init, degree, avg, age) {
          var k :| 0 <= k < |init| && IsEligible(init[k], degree, avg, age) && r == ToRow(init[k]);
          assert jobs[k] == init[k];
        } else {
          assert IsEligible(jobs[|jobs| - 1], degree, avg, age) && r == ToRow(jobs[|jobs| - 1]);
        }
      }
      forall k | 0 <= k < |jobs| && IsEligible(jobs[k], degree, avg, age)
        ensures ToRow(jobs[k]) in Matches(jobs, degree, avg, age)
      {
        if k < |init| { assert jobs[k] == init[k]; }
      }
    }
  }

  /**
   * When no two postings share a row (as in both catalogs), a posting's row is in the
   * result exactly when the posting is eligible.
   */
  lemma MatchesExactly(jobs: seq<JobPosting>, degree: string, avg: real, age: int, k: nat)
    requires k < |jobs|
    requires forall i, j | 0 <= i < j < |jobs| :: ToRow(jobs[i]) != ToRow(jobs[j])
    ensures ToRow(jobs[k]) in Matches(jobs, degree, avg, age) <==> IsEligible(jobs[k], degree, avg, age)
  {
    MatchesMembership(jobs, degree, avg, age);
    if ToRow(jobs[k]) in Matches(jobs, degree, avg, age) {
      var j :| 0 <= j < |jobs| && IsEligible(jobs[j], degree, avg, age) && ToRow(jobs[k]) == ToRow(jobs[j]);
      assert j == k;
    }
  }

  /**
   * The bounds are inclusive: an applicant whose degree is accepted, whose average equals
   * the minimum and whose age equals either age bound gets the posting's row.
   */
  lemma BoundsInclusive(jobs: seq<JobPosting>, k: nat, degree: string)
    requires k < |jobs| && DegreeAccepted(degree, jobs[k].degrees)
    requires jobs[k].minAge <= jobs[k].maxAge
    ensures ToRow(jobs[k]) in Matches(jobs, degree, jobs[k].minPercent as real, jobs[k].minAge)
    ensures ToRow(jobs[k]) in Matches(jobs, degree, jobs[k].minPercent as real, jobs[k].maxAge)
  {
    MatchesMembership(jobs, degree, jobs[k].minPercent as real, jobs[k].minAge);
    MatchesMembership(jobs, degree, jobs[k].minPercent as real, jobs[k].maxAge);
  }

  /** A posting that lists the wildcard is matched for every applicant degree, whatever else it lists. */
  lemma WildcardAcceptsAnyDegree(jobs: seq<JobPosting>, k: nat, degree: string, avg: real, age: int)
    requires k < |jobs| && Wildcard in jobs[k].degrees
    requires avg >= jobs[k].minPercent as real && jobs[k].minAge <= age <= jobs[k].maxAge
    ensures ToRow(jobs[k]) in Matches(jobs, degree, avg, age)
  {
    MatchesMembership(jobs, degree, avg, age);
  }

  /** The result keeps catalog order: it is a subsequence of the rows of the whole catalog. */
  lemma {:induction false} MatchesInCatalogOrder(jobs: seq<JobPosting>, degree: string, avg: real, age: int)
    ensures IsSubsequence(Matches(jobs, degree, avg, age), Rows(jobs))
    decreases |jobs|
  {
    if jobs != [] {
      var init := jobs[..|jobs| - 1];
      var last := jobs[|jobs| - 1];
      var m := Matches(init, degree, avg, age);
      MatchesInCatalogOrder(init, degree, avg, age);
      SubsequenceExtend(m, Rows(init), ToRow(last));
      if IsEligible(last, degree, avg, age) {
        assert Matches(jobs, degree, avg, age) == m + [ToRow(last)];
      } else {
        assert Matches(jobs, degree, avg, age) == m;
      }
    }
  }
}

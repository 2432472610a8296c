/** The submission checks of the evolved form (app_evolved.py). */
module Validation {
  import opened Calendar
  import opened Text
  import opened Sequences

  /**
   * What the evolved form submits. Uploads are reduced to whether a file was given;
   * state and college are collected by the form but never used, so they are not here.
   */
  datatype Submission = Submission(
    name: string, dob: Date, degree: string, tenth: real, twelfth: real,
    photoUploaded: bool, certificateUploaded: bool)

  /** The degree list's "not chosen yet" entry. */
  const Placeholder: string := "Select"

  /** The five independent checks, one per required field; an error names the check that failed. */
  datatype ValidationError =
    | MissingName | MissingDegree | MissingPercentages | MissingPhoto | MissingCertificate

  /** The text the page shows for each error. */
  function Message(e: ValidationError): string {
    match e
    case MissingName => "Full Name is required"
    case MissingDegree => "Please select a Degree"
    case MissingPercentages => "10th and 12th percentages are required"
    case MissingPhoto => "Photo upload is required"
    case MissingCertificate => "Degree certificate upload is required"
  }

  /**
   * Whether the check behind `e` rejects the submission. A name is missing when
   * `name.strip()` is empty, that is when it is blank; a zero percentage counts as "not entered".
   */
  predicate Fails(e: ValidationError, sub: Submission) {
    match e
    case MissingName => IsBlank(sub.name)
    case MissingDegree => sub.degree == Placeholder
    case MissingPercentages => sub.tenth == 0.0 || sub.twelfth == 0.0
    case MissingPhoto => !sub.photoUploaded
    case MissingCertificate => !sub.certificateUploaded
  }

  /** A submission with every required field present. */
  predicate IsComplete(sub: Submission) {
    && (exists i | 0 <= i < |sub.name| :: !IsSpace(sub.name[i]))
    && sub.degree != Placeholder
    && sub.tenth != 0.0 && sub.twelfth != 0.0
    && sub.photoUploaded && sub.certificateUploaded
  }

  /** What running the check behind `e` contributes to the error list. */
  function Step(e: ValidationError, sub: Submission): seq<ValidationError> {
    if Fails(e, sub) then [e] else []
  }

  /** Every error, in the order the checks run. */
  const CheckOrder: seq<ValidationError> :=
    [MissingName, MissingDegree, MissingPercentages, MissingPhoto, MissingCertificate]

  /** The error list the form builds for `sub`: each check's contribution, in check order. */
  function ErrorsOf(sub: Submission): seq<ValidationError> {
    Step(MissingName, sub) + Step(MissingDegree, sub) + Step(MissingPercentages, sub)
    + Step(MissingPhoto, sub) + Step(MissingCertificate, sub)
  }

  /** The checks all run: the error list appends, in check order, every failing check's error. */
  method CollectErrors(sub: Submission) returns (errors: seq<ValidationError>)
    ensures errors == ErrorsOf(sub)
  {
    errors := [];
    StripEmptyIffBlank(sub.name);
    if Strip(sub.name) == [] {
      errors := errors + [MissingName];
    }
    assert errors == Step(MissingName, sub);
    if sub.degree == Placeholder {
      errors := errors + [MissingDegree];
    }
    assert errors == Step(MissingName, sub) + Step(MissingDegree, sub);
    if sub.tenth == 0.0 || sub.twelfth == 0.0 {
      errors := errors + [MissingPercentages];
    }
    assert errors == Step(MissingName, sub) + Step(MissingDegree, sub) + Step(MissingPercentages, sub);
    if !sub.photoUploaded {
      errors := errors + [MissingPhoto];
    }
    assert errors == Step(MissingName, sub) + Step(MissingDegree, sub) + Step(MissingPercentages, sub)
                     + Step(MissingPhoto, sub);
    if !sub.certificateUploaded {
      errors := errors + [MissingCertificate];
    }
  }

  /** No two errors share a text, so the messages shown identify the errors. */
  lemma MessagesDistinct(e: ValidationError, f: ValidationError)
    ensures Message(e) == Message(f) ==> e == f
  {
  }

  /** Every failing check is reported and no other: nothing is short-circuited. */
  lemma ErrorReported(sub: Submission, e: ValidationError)
    ensures e in ErrorsOf(sub) <==> Fails(e, sub)
  {
  }

  /** Running one more check keeps the error list a subsequence of the checks run so far. */
  lemma StepKeepsOrder(errs: seq<ValidationError>, done: seq<ValidationError>, e: ValidationError, sub: Submission)
    requires IsSubsequence(errs, done)
    ensures IsSubsequence(errs + Step(e, sub), done + [e])
  {
    SubsequenceExtend(errs, done, e);
    assert errs + [] == errs;
  }

  /** The errors appear in the fixed order name, degree, percentages, photo, certificate. */
  lemma ErrorsInFixedOrder(sub: Submission)
    ensures IsSubsequence(ErrorsOf(sub), CheckOrder)
  {
    var e1 := Step(MissingName, sub);
    var e2 := e1 + Step(MissingDegree, sub);
    var e3 := e2 + Step(MissingPercentages, sub);
    var e4 := e3 + Step(MissingPhoto, sub);
    var d1 := [MissingName];
    var d2 := d1 + [MissingDegree];
    var d3 := d2 + [MissingPercentages];
    var d4 := d3 + [MissingPhoto];
    StepKeepsOrder([], [], MissingName, sub);
    assert [] + e1 == e1 && [] + d1 == d1;
    StepKeepsOrder(e1, d1, MissingDegree, sub);
    StepKeepsOrder(e2, d2, MissingPercentages, sub);
    StepKeepsOrder(e3, d3, MissingPhoto, sub);
    StepKeepsOrder(e4, d4, MissingCertificate, sub);
    assert d4 + [MissingCertificate] == CheckOrder;
  }

  /** The error list is empty exactly when every required field is present. */
  lemma ErrorsEmptyIffComplete(sub: Submission)
    ensures ErrorsOf(sub) == [] <==> IsComplete(sub)
  {
  }
}

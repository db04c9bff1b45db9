/**
 * The survey response store: a read-only employee list and an append-only
 * response list, with an exact-match email lookup, a duplicate check on the
 * pair (email, survey id) and a duplicate-safe insert.
 */
module Store {
  import opened Types

  /** The employees the store is seeded with. */
  const SeedEmployees: seq<Employee> := [
    Employee("admin@company.com", "HR Manager", "HR", "L5", "Lead", "2020-01-01", Admin),
    Employee("dev1@company.com", "Developer One", "Engineering", "L2", "SE", "2022-05-15", Member),
    Employee("dev2@company.com", "Developer Two", "Engineering", "L3", "Senior SE", "2021-03-10", Member),
    Employee("sale1@company.com", "Sales rep", "Sales", "L1", "Associate", "2023-11-20", Member)
  ]

  // ---------------------------------------------------------------------
  // Employee lookup
  // ---------------------------------------------------------------------

  /**
   * `r` is the first employee of `es` whose email equals `email` exactly,
   * or `None` when no employee has that email.
   */
  ghost predicate IsFirstMatch(es: seq<Employee>, email: string, r: Option<Employee>)
  {
    match r
    case None => forall i :: 0 <= i < |es| ==> es[i].email != email
    case Some(e) =>
      exists i :: 0 <= i < |es| && es[i] == e && e.email == email &&
                  forall j :: 0 <= j < i ==> es[j].email != email
  }

  /** A front-to-back search for the first employee with the given email. */
  function FindEmployee(es: seq<Employee>, email: string): (r: Option<Employee>)
    ensures IsFirstMatch(es, email, r)
    decreases |es|
  {
    if |es| == 0 then None
    else if es[0].email == email then Some(es[0])
    else
      var r := FindEmployee(es[1..], email);
      assert r.Some? ==> exists i :: 1 <= i < |es| && es[i] == r.value && r.value.email == email &&
                                      forall j :: 0 <= j < i ==> es[j].email != email by {
        if r.Some? {
          var k :| 0 <= k < |es[1..]| && es[1..][k] == r.value && r.value.email == email &&
                   forall j :: 0 <= j < k ==> es[1..][j].email != email;
          assert forall j :: 0 <= j < k + 1 ==> es[j].email != email by {
            forall j | 0 <= j < k + 1 ensures es[j].email != email {
              if j > 0 { assert es[j] == es[1..][j - 1]; }
            }
          }
        }
      }
      r
  }

  /** A successful lookup names an email of the list. */
  lemma FoundIsListed(es: seq<Employee>, email: string)
    requires FindEmployee(es, email).Some?
    ensures exists j :: 0 <= j < |es| && es[j].email == email
  {
  }

  /** Looking an email up in an employee list that contains it always succeeds. */
  lemma {:induction false} FindEmployeeFinds(es: seq<Employee>, e: Employee)
    requires e in es
    ensures FindEmployee(es, e.email).Some?
    ensures FindEmployee(es, e.email).value.email == e.email
  {
    var i :| 0 <= i < |es| && es[i] == e;
  }

  // ---------------------------------------------------------------------
  // Duplicate check
  // ---------------------------------------------------------------------

  /** Some stored response has exactly this email and this survey id. */
  ghost predicate Responded(rs: seq<SurveyResponse>, email: string, surveyId: string)
  {
    exists i :: 0 <= i < |rs| && rs[i].email == email && rs[i].surveyId == surveyId
  }

  /** A front-to-back scan for a response with this email and survey id. */
  function HasResponse(rs: seq<SurveyResponse>, email: string, surveyId: string): (b: bool)
    ensures b <==> Responded(rs, email, surveyId)
    decreases |rs|
  {
    if |rs| == 0 then false
    else if rs[0].email == email && rs[0].surveyId == surveyId then true
    else
      var b := HasResponse(rs[1..], email, surveyId);
      assert b ==> Responded(rs, email, surveyId) by {
        if b {
          var k :| 0 <= k < |rs[1..]| && rs[1..][k].email == email && rs[1..][k].surveyId == surveyId;
          assert rs[k + 1] == rs[1..][k];
        }
      }
      assert Responded(rs, email, surveyId) ==> b by {
        if Responded(rs, email, surveyId) {
          var k :| 0 <= k < |rs| && rs[k].email == email && rs[k].surveyId == surveyId;
          assert k != 0;
          assert rs[1..][k - 1] == rs[k];
        }
      }
      b
  }

  /** The store's invariant: no two responses share the pair (email, survey id). */
  ghost predicate AtMostOnePerPair(rs: seq<SurveyResponse>)
  {
    forall i, j :: 0 <= i < j < |rs| && rs[i].email == rs[j].email ==> rs[i].surveyId != rs[j].surveyId
  }

  // ---------------------------------------------------------------------
  // Insert
  // ---------------------------------------------------------------------

  /** The stored form of a draft, with the id and timestamp the store assigns. */
  function Stamp(d: Draft, id: string, createdAt: string): (r: SurveyResponse)
    ensures r.email == d.email && r.surveyId == d.surveyId && r.answers == d.answers
    ensures r.id == id && r.createdAt == createdAt && r.employee.None?
  {
    SurveyResponse(id, d.email, d.surveyId, d.answers, createdAt, None)
  }

  /** The outcome of an insert: whether it was accepted, and the new list. */
  datatype SubmitOutcome = SubmitOutcome(accepted: bool, responses: seq<SurveyResponse>)

  /**
   * Insert on values: re-run the duplicate check, and append the stamped
   * draft only when no response has the same (email, survey id).
   */
  function Submit(rs: seq<SurveyResponse>, d: Draft, id: string, createdAt: string): (out: SubmitOutcome)
    ensures out.accepted <==> !Responded(rs, d.email, d.surveyId)
    ensures !out.accepted ==> out.responses == rs
    ensures out.accepted ==> out.responses == rs + [Stamp(d, id, createdAt)]
    ensures Responded(out.responses, d.email, d.surveyId)
  {
    if HasResponse(rs, d.email, d.surveyId) then SubmitOutcome(false, rs)
    else
      var rs' := rs + [Stamp(d, id, createdAt)];
      assert rs'[|rs|].email == d.email && rs'[|rs|].surveyId == d.surveyId;
      SubmitOutcome(true, rs')
  }

  /** Inserting keeps the at-most-one-response-per-pair invariant. */
  lemma SubmitKeepsAtMostOne(rs: seq<SurveyResponse>, d: Draft, id: string, createdAt: string)
    requires AtMostOnePerPair(rs)
    ensures AtMostOnePerPair(Submit(rs, d, id, createdAt).responses)
  {
    var out := Submit(rs, d, id, createdAt);
    if out.accepted {
      var rs' := out.responses;
      forall i, j | 0 <= i < j < |rs'| && rs'[i].email == rs'[j].email
        ensures rs'[i].surveyId != rs'[j].surveyId
      {
        if j == |rs| {
          assert rs'[i] == rs[i] && rs'[j] == Stamp(d, id, createdAt);
          assert !(rs[i].email == d.email && rs[i].surveyId == d.surveyId);
        } else {
          assert rs'[i] == rs[i] && rs'[j] == rs[j];
        }
      }
    }
  }

  /**
   * A second insert for a pair that was just submitted, whatever its answers,
   * id or timestamp, is rejected and changes nothing; so is every one after it.
   */
  lemma RepeatedSubmitRejected(rs: seq<SurveyResponse>, d: Draft, id: string, createdAt: string,
                               again: Draft, id': string, createdAt': string)
    requires again.email == d.email && again.surveyId == d.surveyId
    ensures var first := Submit(rs, d, id, createdAt);
            var second := Submit(first.responses, again, id', createdAt');
            !second.accepted && second.responses == first.responses
  {
  }

  /** An insert never removes, reorders or changes a stored response. */
  lemma SubmitOnlyAppends(rs: seq<SurveyResponse>, d: Draft, id: string, createdAt: string)
    ensures var out := Submit(rs, d, id, createdAt);
            |out.responses| == |rs| + (if out.accepted then 1 else 0) &&
            out.responses[..|rs|] == rs
  {
  }

  // ---------------------------------------------------------------------
  // Listing responses with the employee joined in
  // ---------------------------------------------------------------------

  /** `j` is `r` with its `employee` set to the first employee with `r`'s email. */
  ghost predicate JoinedFrom(es: seq<Employee>, r: SurveyResponse, j: SurveyResponse)
  {
    j.(employee := r.employee) == r && IsFirstMatch(es, r.email, j.employee)
  }

  /** Each response, in order, with its employee resolved by email. */
  function Join(rs: seq<SurveyResponse>, es: seq<Employee>): (joined: seq<SurveyResponse>)
    ensures |joined| == |rs|
    ensures forall i :: 0 <= i < |rs| ==> JoinedFrom(es, rs[i], joined[i])
  {
    seq(|rs|, i requires 0 <= i < |rs| => rs[i].(employee := FindEmployee(es, rs[i].email)))
  }

  // ---------------------------------------------------------------------
  // The store
  // ---------------------------------------------------------------------

  /** The simulated database: the employee list and the response list. */
  class SurveyStore {
    const employees: seq<Employee>
    var responses: seq<SurveyResponse>

    /** The store's invariant holds for its response list. */
    ghost predicate Valid()
      reads this
    {
      AtMostOnePerPair(responses)
    }

    /** The store as the application starts: seeded employees, no responses. */
    constructor ()
      ensures Valid()
      ensures employees == SeedEmployees && responses == []
    {
      employees := SeedEmployees;
      responses := [];
    }

    /** The first employee with exactly this email, or `None`. */
    function Login(email: string): (r: Option<Employee>)
      reads this
      ensures IsFirstMatch(employees, email, r)
    {
      FindEmployee(employees, email)
    }

    /** The same lookup as `Login`. */
    function GetEmployeeByEmail(email: string): (r: Option<Employee>)
      reads this
      ensures r == Login(email)
    {
      Login(email)
    }

    /** Whether a response with exactly this email and survey id is stored. */
    function CheckDuplicateSubmission(email: string, surveyId: string): (b: bool)
      reads this
      ensures b <==> Responded(responses, email, surveyId)
    {
      HasResponse(responses, email, surveyId)
    }

    /**
     * Insert a draft unless a response with its (email, survey id) is
     * already stored; `id` and `createdAt` are the values the store assigns.
     */
    method SubmitResponse(d: Draft, id: string, createdAt: string) returns (ok: bool)
      requires Valid()
      modifies this`responses
      ensures Valid()
      ensures ok == Submit(old(responses), d, id, createdAt).accepted
      ensures responses == Submit(old(responses), d, id, createdAt).responses
      ensures CheckDuplicateSubmission(d.email, d.surveyId)
    {
      SubmitKeepsAtMostOne(responses, d, id, createdAt);
      var isDuplicate := CheckDuplicateSubmission(d.email, d.surveyId);
      if isDuplicate {
        return false;
      }
      responses := responses + [Stamp(d, id, createdAt)];
      return true;
    }

    /** All stored responses, in order, each with its employee joined in. */
    function GetAllResponses(): (joined: seq<SurveyResponse>)
      reads this
      ensures |joined| == |responses|
      ensures forall i :: 0 <= i < |responses| ==> JoinedFrom(employees, responses[i], joined[i])
    {
      Join(responses, employees)
    }

    /** The employee list, as stored; it is fixed when the store is created. */
    function GetAllEmployees(): (es: seq<Employee>)
      reads this
      ensures es == employees
    {
      employees
    }
  }
}

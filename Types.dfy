/**
 * The record shapes shared by the response store and the dashboard:
 * employees, survey responses and their open-ended answer records.
 */
module Types {

  /** An optional value; `None` stands for the source's `null`/`undefined`. */
  datatype Option<+T> = None | Some(value: T)

  /** The two user roles. */
  datatype Role = Member | Admin

  /** An employee record: immutable reference data seeded at start-up. */
  datatype Employee = Employee(
    email: string,
    name: string,
    department: string,
    level: string,
    position: string,
    joinDate: string,
    role: Role)

  /**
   * One value of the open-ended `answers` record. The aggregation only ever
   * asks whether a value is a number, or whether it is a non-empty string;
   * everything else falls under `Other`.
   */
  datatype Answer = Num(n: int) | Text(s: string) | Other

  /** The answers of one response, keyed by question id ("q1", "q2", ...). */
  type Answers = map<string, Answer>

  /**
   * A stored survey response. `employee` is the joined employee record: it
   * is absent in the store and filled in by the join that lists responses.
   */
  datatype SurveyResponse = SurveyResponse(
    id: string,
    email: string,
    surveyId: string,
    answers: Answers,
    createdAt: string,
    employee: Option<Employee>)

  /** What a caller hands to the store: a response without id and timestamp. */
  datatype Draft = Draft(email: string, surveyId: string, answers: Answers)
}

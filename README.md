# Birthday-survey store and dashboard metrics, in Dafny

This project models the core of a small internal HR survey application.
Employees log in by email and submit a feedback survey once. An HR admin
sees aggregate metrics.

Two pieces are modelled.

- **The response store** (`services/supabase.ts`). It holds a read-only employee list and an append-only response list. It offers:
  - an exact-match email lookup (`login`, `getEmployeeByEmail`);
  - a duplicate check on the pair (email, survey id);
  - an insert that re-runs that check before appending;
  - a listing that joins each response with its employee.

  In Dafny this is the class `Store.SurveyStore` with two `seq` fields. `SubmitResponse` is an imperative method, tied to the value-level function `Store.Submit`. The store's invariant is "at most one response per (email, survey id)": it is `Valid()`, and every insert preserves it.
- **The dashboard aggregation** (`components/Dashboard.tsx`). It is a deterministic function from (employees, joined responses) to the metrics:
  - participant count and participation rate;
  - department and level histograms, with an `Unknown` bucket;
  - mean rating;
  - non-participants;
  - free text gated by an anonymity floor of three.

  The specification is the pure `Dashboard.ComputeMetrics`. `Dashboard.Aggregate` is the step-by-step version: its two counting passes are `while` loops that update a dictionary, as the source's `forEach` loops do. It is proved equal to `ComputeMetrics`. The improvement-priority rule shown beside the score is `Dashboard.ImprovementPriority`.

Files:

- `Types.dfy`: the record shapes (`Employee`, `SurveyResponse`, `Answer`, `Draft`).
- `Store.dfy`: the store.
- `Histogram.dfy`: the counting dictionary and the sum of its counts.
- `Dashboard.dfy`: the metrics.

The `answers` record is a `map<string, Answer>` with `Answer = Num(int) | Text(string) | Other`. The aggregation only asks two things of an answer:

- whether it is a number (the rating question `q1`);
- whether it is a non-empty string (the feedback question `q2`).

The engagement score is kept in tenths (`engagementTenths`), so 4.0 is 40.

The model follows the code on these points:

- Email comparison is exact, with no case folding.
- Non-participants keep employee-list order. The model proves that this order is kept.
- `Unknown` collects the responses with no employee, and also those whose employee has an empty department or level.
- `totalParticipants` is the number of responses; a repeated email counts twice.
- Feedback is disclosed from three non-empty answers on (`>= 3` at components/Dashboard.tsx:66), although the comment beside it says "> 3".

## Model

| member | source | states |
|---|---|---|
| `Store.FindEmployee` | services/supabase.ts:22 | The result is the first employee whose email equals the argument exactly. It is `None` exactly when no employee has that email. |
| `Store.FindEmployeeFinds` | services/supabase.ts:22 | Looking up the email of any listed employee succeeds and returns an employee with that email. |
| `Store.HasResponse` | services/supabase.ts:31 | True exactly when some stored response has both the same email and the same survey id (exact comparison). |
| `Store.Stamp` | services/supabase.ts:38-42 | The stored record keeps the draft's email, survey id and answers, takes the given id and timestamp, and has no employee joined in. |
| `Store.Submit` | services/supabase.ts:34-44 | Accepted exactly when no stored response has the draft's (email, survey id). A rejected insert leaves the list unchanged. An accepted one appends exactly one response, carrying the draft's email, survey id and answers. Afterwards the pair is present. |
| `Store.SubmitKeepsAtMostOne` | services/supabase.ts:34-44 | If no two stored responses share (email, survey id) before an insert, none do after it. |
| `Store.RepeatedSubmitRejected` | services/supabase.ts:35-36 | A second insert for a pair just submitted is rejected and changes nothing, whatever its answers, id or timestamp. |
| `Store.SubmitOnlyAppends` | services/supabase.ts:38-43 | An insert grows the list by one (accepted) or zero (rejected). Earlier responses keep their values and order. |
| `Store.Join` | services/supabase.ts:48-51 | Same length and order as the stored list. Each element keeps all stored fields, and its `employee` is the first employee with that email, or absent. |
| `Store.SurveyStore.constructor` | services/supabase.ts:10-17 | The store starts with the four seeded employees and no responses, and the invariant holds. |
| `Store.SurveyStore.Login` | services/supabase.ts:20-23 | Returns the first employee with exactly that email, or `None` exactly when there is none. |
| `Store.SurveyStore.GetEmployeeByEmail` | services/supabase.ts:25-27 | Gives the same result as `Login` for every email. |
| `Store.SurveyStore.CheckDuplicateSubmission` | services/supabase.ts:29-32 | True exactly when a stored response has this email and this survey id. |
| `Store.SurveyStore.SubmitResponse` | services/supabase.ts:34-44 | Result and new response list are those of `Submit` on the old list. The employee list is a constant, and the at-most-one invariant is kept. Afterwards the duplicate check for the pair is true. |
| `Store.SurveyStore.GetAllResponses` | services/supabase.ts:46-52 | Same length and order as the stored responses. Each keeps its stored fields and carries the first employee with its email, or none. |
| `Store.SurveyStore.GetAllEmployees` | services/supabase.ts:54-56 | Returns the stored employee list as it is. |
| `Histogram.Bump` | components/Dashboard.tsx:32 | Adds one to the key's count, treating a missing key as zero. All other keys are unchanged. |
| `Histogram.Tally` | components/Dashboard.tsx:29-33 | The dictionary built by the counting loops; its properties are the next two rows. |
| `Histogram.TallyCounts` | components/Dashboard.tsx:29-33 | Its keys are exactly the labels that occur. Each count is that label's number of occurrences, so it is at least one. |
| `Histogram.TallyTotal` | components/Dashboard.tsx:29-33 | The counts of a tally add up to the number of labels tallied. |
| `Dashboard.RoundDiv` | components/Dashboard.tsx:57 | The integer nearest to a/b. Ties go away from zero, which for non-negative values is `Math.round`'s half-up. |
| `Dashboard.RoundDivBetween` | components/Dashboard.tsx:44 | Rounding a quotient that lies between two integers gives a value between them. |
| `Dashboard.ParticipationRate` | components/Dashboard.tsx:57 | It is 0 without employees. Otherwise it is the percentage of participants rounded to the nearest integer, halves up. It is never negative, and at most 100 when participants do not outnumber employees. |
| `Dashboard.Rating` | components/Dashboard.tsx:43 | A rating exists exactly when the `q1` answer is a number, and then it is that number. |
| `Dashboard.Ratings` | components/Dashboard.tsx:43 | Holds exactly the numeric `q1` answers of the responses, no more values than responses. |
| `Dashboard.RatingsAppend` | components/Dashboard.tsx:43 | Collecting ratings distributes over concatenation. With the membership contract this fixes order and multiplicity, so the mean is over every rating once. |
| `Dashboard.NoRatings` | components/Dashboard.tsx:43-44 | Responses without a numeric `q1` answer give no ratings, so the score falls back to 0. |
| `Dashboard.Sum` | components/Dashboard.tsx:43 | The `reduce` sum of the ratings; `SumAppend` shows it distributes over concatenation, `SumBetween` bounds it. |
| `Dashboard.SumAppend` | components/Dashboard.tsx:43 | The sum of a concatenation is the sum of the parts. |
| `Dashboard.SumBetween` | components/Dashboard.tsx:44 | A sum of n values between lo and hi lies between n·lo and n·hi. |
| `Dashboard.EngagementTenths` | components/Dashboard.tsx:44 | 0 when no rating is numeric. Otherwise it is the mean rating in tenths, rounded to the nearest tenth with halves away from zero. |
| `Dashboard.EngagementWithinRatings` | components/Dashboard.tsx:43-44 | With at least one rating, the score lies between the smallest and the largest rating. |
| `Dashboard.EngagementOnFormScale` | components/Dashboard.tsx:43-44 | With the form's 1..5 ratings the score is 0 when there is no rating, and otherwise lies in 1.0..5.0. |
| `Dashboard.ImprovementPriority` | components/Dashboard.tsx:116 | High exactly below 3.0, Medium exactly from 3.0 to below 4.0, Low exactly from 4.0. The three cases are exhaustive and disjoint. |
| `Dashboard.Label` | components/Dashboard.tsx:31 | The bucket is never empty. A missing employee or an empty department/level gives `Unknown`. A present employee with a non-empty department/level is counted under it, and any bucket other than `Unknown` is the employee's own department/level. |
| `Dashboard.BreakdownStep` | components/Dashboard.tsx:31-32 | Counting the next response adds one to its bucket, starting from zero for a new bucket. |
| `Dashboard.Breakdown` | components/Dashboard.tsx:28-40 | The loop builds exactly the tally of the responses' buckets. |
| `Dashboard.Absentees` | components/Dashboard.tsx:48 | The filtered list is never longer than the employee list. |
| `Dashboard.AbsenteesMembers` | components/Dashboard.tsx:48 | The filter keeps exactly the employees whose email is not in the set. |
| `Dashboard.AbsenteesAppend` | components/Dashboard.tsx:48 | The filter distributes over concatenation, so it keeps employee-list order. |
| `Dashboard.ResponseEmails` | components/Dashboard.tsx:46 | Every response's email is in the set, and every email in it is some response's. |
| `Dashboard.NonParticipants` | components/Dashboard.tsx:46-48 | Holds exactly the employees whose email no response carries. |
| `Dashboard.Feedback` | components/Dashboard.tsx:53 | Feedback exists exactly when the `q2` answer is a non-empty string. |
| `Dashboard.Feedbacks` | components/Dashboard.tsx:51-53 | Holds exactly the non-empty `q2` strings of the responses; none is empty. |
| `Dashboard.FeedbacksAppend` | components/Dashboard.tsx:51-53 | Collecting feedback distributes over concatenation, so it keeps response order. |
| `Dashboard.AnonymizedFeedback` | components/Dashboard.tsx:66 | Either nothing or all the non-empty answers. Anything disclosed holds at least three texts, none empty. With three or more answers something is disclosed. |
| `Dashboard.ComputeMetrics` | components/Dashboard.tsx:25-68 | The seven dashboard figures. The participant count is the number of responses, and the non-participants are never more than the employees. The rate, breakdowns, feedback and non-participants are stated by the lemmas below, the engagement score by `EngagementLaws`. |
| `Dashboard.Aggregate` | components/Dashboard.tsx:25-68 | The step-by-step computation with two counting loops equals `ComputeMetrics`. |
| `Dashboard.FetchDashboardData` | components/Dashboard.tsx:20-68 | Reading both lists from the store and aggregating gives `ComputeMetrics` of the employees and the joined responses. |
| `Dashboard.EngagementLaws` | components/Dashboard.tsx:42-43 | The dashboard's engagement score is 0 without a numeric rating, and between 1.0 and 5.0 when ratings are on the form's 1..5 scale. |
| `Dashboard.ParticipationLaws` | components/Dashboard.tsx:55-57 | `totalParticipants` is the number of responses. The rate is never negative and is 0 without employees. It is the nearest whole percentage, and at most 100 when responses do not outnumber employees. |
| `Dashboard.BreakdownLaws` | components/Dashboard.tsx:28-40 | Each breakdown's counts add up to the number of responses. Every count is at least one. The keys are exactly the buckets that occur, and each count is that bucket's number of responses. |
| `Dashboard.UnknownBucket` | components/Dashboard.tsx:31 | A response with no employee, or with an empty department/level, puts `Unknown` among the keys. |
| `Dashboard.NonParticipantLaws` | components/Dashboard.tsx:46-48 | Every employee is either a non-participant or has an email among the responses, never both. Employee-list order is kept. |
| `Dashboard.AnonymityLaws` | components/Dashboard.tsx:50-66 | No text is disclosed when there are fewer than three non-empty answers. Otherwise all of them are, in response order. Every disclosed text is a non-empty answer of some response. |
| `Dashboard.ThirdFeedbackDisclosesAll` | components/Dashboard.tsx:66 | With two texts nothing is disclosed. A third text discloses all three, in order. |
| `Dashboard.DistinctEmailsCount` | components/Dashboard.tsx:47 | Responses with pairwise different emails have as many distinct emails as responses. |
| `Dashboard.ParticipantsWithinEmployees` | services/supabase.ts:29-44 | Suppose the store's invariant holds, every response answers one survey, and every response email belongs to an employee. Then there are no more responses than employees. |
| `Dashboard.ParticipationAtMostHundred` | components/Dashboard.tsx:57 | Under the same conditions, the participation rate over the joined responses is at most 100. |
| `Dashboard.ExampleJoin` | services/supabase.ts:48-51 | Listing a stored response from dev1 joins the seeded dev1 record in. |
| `Dashboard.OneResponseOfFour` | components/Dashboard.tsx:25-68 | Four seeded employees and one response rating 4 with "Great" give 1 participant, 25 %, a score of 4.0 (priority Low) and no disclosed text. The other three employees are non-participants. |

## Left out

- React rendering, hooks, charts and styles in `components/*.tsx`, plus `App.tsx`, `Header.tsx`, `Login.tsx`, `ThankYou.tsx` and `services/i18n.ts`. These are presentation and browser storage.
- The survey form's own gating (the submit button disabled until `q1` is set, the early return when a duplicate is known). These are UI state; the store's insert re-checks duplicates itself.
- `async`/`Promise`: every operation is modelled as synchronous and run-to-completion.
- Id generation (`Math.random`) and the timestamp (`new Date().toISOString()`) are parameters of `SubmitResponse`. Ids are not claimed to be unique.
- The submitted object is modelled as exactly `{email, survey_id, answers}` (`Draft`). That is what its only caller passes. Any further field a caller might spread into the stored record is not modelled.
- Histogram.Bump: a JavaScript plain object is not a map. A label naming an `Object.prototype` member (`constructor`, `toString`, ...) reads an inherited function and stores a string, and a label `__proto__` is not stored at all. The model counts 1 in each case. The seeded departments and levels never hit this.
- Store.SurveyStore.GetAllEmployees: the source returns the live array, so a caller that mutates the result mutates the store. The model returns the list as a value, and the employee list is a constant of the store.
- The hard-coded `monthlyTrend` series is a fixed placeholder and is not modelled.
- Answers: JavaScript numbers are modelled as integers (the form only produces 1..5). `Other` stands for every non-number, non-string value. A non-string value with a positive `length` (an array, say) would pass the source's `q2` filter; the model does not capture that.
- A store failure or exception path: the in-memory store has none.
- Dashboard.EngagementTenths: rounds the exact rational mean to tenths, halves away from zero (the rule `toFixed(1)` states). It does not reproduce binary floating-point error in `sum / n` or at the tie.
- Dashboard.ParticipationRate: rounds the exact rational `100 · p / e`, halves up. It does not reproduce floating-point error in `(p / e) * 100` before `Math.round`.

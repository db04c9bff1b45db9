/**
 * The dashboard metrics: a deterministic function from the employee list
 * and the (employee-joined) response list to participation, engagement,
 * department and level breakdowns, anonymity-gated feedback and the
 * non-participant list.
 */
module Dashboard {
  import opened Types
  import opened Histogram
  import Store

  /** The bucket for a response whose employee or category is missing. */
  const Unknown: string := "Unknown"
  /** The rating question (a 1..5 score on the survey form). */
  const RatingQuestion: string := "q1"
  /** The optional free-text question. */
  const FeedbackQuestion: string := "q2"
  /** Free-text answers are disclosed only when at least this many exist. */
  const AnonymityFloor: nat := 3

  // ---------------------------------------------------------------------
  // Rounding
  // ---------------------------------------------------------------------

  /**
   * The integer nearest to `a / b`; a value exactly half-way between two
   * integers goes to the one farther from zero.
   */
  function RoundDiv(a: int, b: int): (r: int)
    requires b > 0
    ensures a >= 0 ==> -b <= 2 * (a - r * b) < b
    ensures a < 0 ==> -b < 2 * (a - r * b) <= b
    ensures a >= 0 ==> r >= 0
  {
    if a >= 0 then (2 * a + b) / (2 * b) else -((b - 2 * a) / (2 * b))
  }

  /** Rounding a quotient that lies between two integers stays between them. */
  lemma RoundDivBetween(a: int, b: int, lo: int, hi: int)
    requires b > 0
    requires lo * b <= a <= hi * b
    ensures lo <= RoundDiv(a, b) <= hi
  {
    var r := RoundDiv(a, b);
    if r < lo {
      assert r * b <= (lo - 1) * b by { MulLeq(r, lo - 1, b); }
    } else if r > hi {
      assert (hi + 1) * b <= r * b by { MulLeq(hi + 1, r, b); }
    }
  }

  /** Multiplying by a positive number keeps the order. */
  lemma MulLeq(x: int, y: int, b: int)
    requires x <= y && b > 0
    ensures x * b <= y * b
  {
    assert y * b - x * b == (y - x) * b;
  }

  // ---------------------------------------------------------------------
  // Participation rate
  // ---------------------------------------------------------------------

  /**
   * Participants as a whole percentage of the employees, rounded to the
   * nearest integer with halves rounded up; zero when there are no employees.
   */
  function ParticipationRate(participants: nat, employees: nat): (rate: int)
    ensures rate >= 0
    ensures employees == 0 ==> rate == 0
    ensures employees > 0 ==> -(employees as int) <= 2 * (100 * participants - rate * employees) < employees
    ensures participants <= employees ==> rate <= 100
  {
    if employees > 0 then
      var rate := RoundDiv(100 * participants, employees);
      assert participants <= employees ==> rate <= 100 by {
        if participants <= employees {
          RoundDivBetween(100 * participants, employees, 0, 100);
        }
      }
      rate
    else 0
  }

  // ---------------------------------------------------------------------
  // Engagement score
  // ---------------------------------------------------------------------

  /** The numeric answer to the rating question, if the answer is a number. */
  function Rating(r: SurveyResponse): (x: Option<int>)
    ensures x.Some? <==> RatingQuestion in r.answers && r.answers[RatingQuestion].Num?
    ensures x.Some? ==> r.answers[RatingQuestion] == Num(x.value)
  {
    if RatingQuestion in r.answers && r.answers[RatingQuestion].Num? then
      Some(r.answers[RatingQuestion].n)
    else None
  }

  /** The numeric rating answers, in response order. */
  function Ratings(rs: seq<SurveyResponse>): (scores: seq<int>)
    ensures |scores| <= |rs|
    ensures forall x :: x in scores ==> exists r :: r in rs && Rating(r) == Some(x)
    ensures forall r :: r in rs && Rating(r).Some? ==> Rating(r).value in scores
    decreases |rs|
  {
    if |rs| == 0 then []
    else
      assert forall r :: r in rs <==> r == rs[0] || r in rs[1..];
      (if Rating(rs[0]).Some? then [Rating(rs[0]).value] else []) + Ratings(rs[1..])
  }

  /** Responses without a numeric rating give no ratings at all. */
  lemma {:induction false} NoRatings(rs: seq<SurveyResponse>)
    requires forall i :: 0 <= i < |rs| ==> Rating(rs[i]).None?
    ensures Ratings(rs) == []
    decreases |rs|
  {
    if |rs| > 0 {
      assert forall i :: 0 <= i < |rs| - 1 ==> rs[1..][i] == rs[i + 1];
      NoRatings(rs[1..]);
    }
  }

  /** Collecting ratings keeps response order: it distributes over concatenation. */
  lemma {:induction false} RatingsAppend(a: seq<SurveyResponse>, b: seq<SurveyResponse>)
    ensures Ratings(a + b) == Ratings(a) + Ratings(b)
    decreases |a|
  {
    if |a| > 0 {
      assert (a + b)[0] == a[0];
      assert (a + b)[1..] == a[1..] + b;
      RatingsAppend(a[1..], b);
    } else {
      assert a + b == b;
    }
  }

  /** The sum of a list of integers. */
  function Sum(s: seq<int>): int
    decreases |s|
  {
    if |s| == 0 then 0 else s[0] + Sum(s[1..])
  }

  /** Summing distributes over concatenation. */
  lemma {:induction false} SumAppend(a: seq<int>, b: seq<int>)
    ensures Sum(a + b) == Sum(a) + Sum(b)
    decreases |a|
  {
    if |a| > 0 {
      assert (a + b)[0] == a[0];
      assert (a + b)[1..] == a[1..] + b;
      SumAppend(a[1..], b);
    } else {
      assert a + b == b;
    }
  }

  /** A sum of `n` values between `lo` and `hi` lies between `n * lo` and `n * hi`. */
  lemma {:induction false} SumBetween(s: seq<int>, lo: int, hi: int)
    requires forall x :: x in s ==> lo <= x <= hi
    ensures lo * |s| <= Sum(s) <= hi * |s|
    decreases |s|
  {
    if |s| > 0 {
      assert s[0] in s;
      assert forall x :: x in s[1..] ==> x in s;
      SumBetween(s[1..], lo, hi);
      var n := |s[1..]|;
      assert |s| == n + 1;
      assert lo * (n + 1) == lo * n + lo;
      assert hi * (n + 1) == hi * n + hi;
    }
  }

  /**
   * The mean of the numeric rating answers in tenths, rounded to the
   * nearest tenth with halves away from zero; zero when there is none.
   */
  function EngagementTenths(rs: seq<SurveyResponse>): (tenths: int)
    ensures |Ratings(rs)| == 0 ==> tenths == 0
    ensures |Ratings(rs)| > 0 && Sum(Ratings(rs)) >= 0 ==>
      -|Ratings(rs)| <= 2 * (10 * Sum(Ratings(rs)) - tenths * |Ratings(rs)|) < |Ratings(rs)|
    ensures |Ratings(rs)| > 0 && Sum(Ratings(rs)) < 0 ==>
      -|Ratings(rs)| < 2 * (10 * Sum(Ratings(rs)) - tenths * |Ratings(rs)|) <= |Ratings(rs)|
  {
    var scores := Ratings(rs);
    if |scores| > 0 then RoundDiv(10 * Sum(scores), |scores|) else 0
  }

  /** The score lies between the lowest and the highest rating, in tenths. */
  lemma EngagementWithinRatings(rs: seq<SurveyResponse>, lo: int, hi: int)
    requires |Ratings(rs)| > 0
    requires forall x :: x in Ratings(rs) ==> lo <= x <= hi
    ensures 10 * lo <= EngagementTenths(rs) <= 10 * hi
  {
    SumBetween(Ratings(rs), lo, hi);
    MeanBetween(Sum(Ratings(rs)), |Ratings(rs)|, lo, hi);
  }

  /** A rounded mean in tenths lies between the bounds of the values averaged. */
  lemma MeanBetween(total: int, n: int, lo: int, hi: int)
    requires n > 0
    requires lo * n <= total <= hi * n
    ensures 10 * lo <= RoundDiv(10 * total, n) <= 10 * hi
  {
    assert (10 * lo) * n == 10 * (lo * n) && (10 * hi) * n == 10 * (hi * n);
    RoundDivBetween(10 * total, n, 10 * lo, 10 * hi);
  }

  /**
   * With the form's ratings of 1 to 5, the score is 0.0 when no rating
   * exists and otherwise lies in 1.0 .. 5.0.
   */
  lemma EngagementOnFormScale(rs: seq<SurveyResponse>)
    requires forall i :: 0 <= i < |rs| && Rating(rs[i]).Some? ==> 1 <= Rating(rs[i]).value <= 5
    ensures (forall i :: 0 <= i < |rs| ==> Rating(rs[i]).None?) ==> EngagementTenths(rs) == 0
    ensures (exists i :: 0 <= i < |rs| && Rating(rs[i]).Some?) ==> 10 <= EngagementTenths(rs) <= 50
  {
    if exists i :: 0 <= i < |rs| && Rating(rs[i]).Some? {
      var i :| 0 <= i < |rs| && Rating(rs[i]).Some?;
      assert Rating(rs[i]).value in Ratings(rs);
      EngagementWithinRatings(rs, 1, 5);
    } else {
      NoRatings(rs);
    }
  }

  /** The improvement priority shown next to the engagement score. */
  datatype Priority = High | Medium | Low

  /** High below 3.0, Medium from 3.0 up to but excluding 4.0, Low from 4.0. */
  function ImprovementPriority(tenths: int): (p: Priority)
    ensures p == High <==> tenths < 30
    ensures p == Medium <==> 30 <= tenths < 40
    ensures p == Low <==> 40 <= tenths
  {
    if tenths < 30 then High else if tenths < 40 then Medium else Low
  }

  // ---------------------------------------------------------------------
  // Department and level breakdowns
  // ---------------------------------------------------------------------

  /** The two ways responses are grouped. */
  datatype Dimension = Department | Level

  /** The employee's own department or level. */
  function Category(e: Employee, dim: Dimension): string
  {
    match dim
    case Department => e.department
    case Level => e.level
  }

  /**
   * The bucket a response is counted in: its employee's department or
   * level, or `Unknown` when the employee is missing or the field is empty.
   */
  function Label(r: SurveyResponse, dim: Dimension): (bucket: string)
    ensures bucket != ""
    ensures r.employee.None? ==> bucket == Unknown
    ensures r.employee.Some? && Category(r.employee.value, dim) == "" ==> bucket == Unknown
    ensures r.employee.Some? && Category(r.employee.value, dim) != "" ==> bucket == Category(r.employee.value, dim)
    ensures bucket != Unknown ==> r.employee.Some? && bucket == Category(r.employee.value, dim)
  {
    match r.employee
    case None => Unknown
    case Some(e) => if Category(e, dim) == "" then Unknown else Category(e, dim)
  }

  /** The bucket of every response, in response order. */
  function Labels(rs: seq<SurveyResponse>, dim: Dimension): (labels: seq<string>)
    ensures |labels| == |rs|
    ensures forall i :: 0 <= i < |rs| ==> labels[i] == Label(rs[i], dim)
  {
    seq(|rs|, i requires 0 <= i < |rs| => Label(rs[i], dim))
  }

  /** The buckets that occur are those of some response. */
  lemma LabelsOccur(rs: seq<SurveyResponse>, dim: Dimension)
    ensures forall k :: k in Labels(rs, dim) <==> exists i :: 0 <= i < |rs| && Label(rs[i], dim) == k
  {
    var labels := Labels(rs, dim);
    forall k | k in labels ensures exists i :: 0 <= i < |rs| && Label(rs[i], dim) == k {
      var i :| 0 <= i < |labels| && labels[i] == k;
    }
  }

  /** Counting the next response bumps its bucket in the tally of the ones before. */
  lemma BreakdownStep(rs: seq<SurveyResponse>, i: nat, dim: Dimension)
    requires i < |rs|
    ensures Tally(Labels(rs[..i + 1], dim)) == Bump(Tally(Labels(rs[..i], dim)), Label(rs[i], dim))
  {
    assert Labels(rs[..i + 1], dim) == Labels(rs[..i], dim) + [Label(rs[i], dim)];
    TallySnoc(Labels(rs[..i], dim), Label(rs[i], dim));
  }

  /** Count the responses per bucket, one response at a time. */
  method Breakdown(rs: seq<SurveyResponse>, dim: Dimension) returns (counts: map<string, nat>)
    ensures counts == Tally(Labels(rs, dim))
  {
    counts := map[];
    var i := 0;
    while i < |rs|
      invariant 0 <= i <= |rs|
      invariant counts == Tally(Labels(rs[..i], dim))
    {
      var key := Label(rs[i], dim);
      BreakdownStep(rs, i, dim);
      counts := Bump(counts, key);
      i := i + 1;
    }
    assert rs[..i] == rs;
  }

  // ---------------------------------------------------------------------
  // Non-participants
  // ---------------------------------------------------------------------

  /** The emails that appear among the responses. */
  function ResponseEmails(rs: seq<SurveyResponse>): (emails: set<string>)
    ensures forall i :: 0 <= i < |rs| ==> rs[i].email in emails
    ensures forall x :: x in emails ==> exists i :: 0 <= i < |rs| && rs[i].email == x
  {
    set r | r in rs :: r.email
  }

  /** The employees, in list order, whose email is not in `emails`. */
  function Absentees(es: seq<Employee>, emails: set<string>): (out: seq<Employee>)
    ensures |out| <= |es|
    decreases |es|
  {
    if |es| == 0 then []
    else if es[0].email in emails then Absentees(es[1..], emails)
    else [es[0]] + Absentees(es[1..], emails)
  }

  /** The filter keeps exactly the listed employees whose email is not in `emails`. */
  lemma {:induction false} AbsenteesMembers(es: seq<Employee>, emails: set<string>)
    ensures forall e :: e in Absentees(es, emails) <==> e in es && e.email !in emails
    decreases |es|
  {
    if |es| > 0 {
      AbsenteesMembers(es[1..], emails);
      assert forall e :: e in es <==> e == es[0] || e in es[1..];
    }
  }

  /** Filtering keeps list order: it distributes over concatenation. */
  lemma {:induction false} AbsenteesAppend(a: seq<Employee>, b: seq<Employee>, emails: set<string>)
    ensures Absentees(a + b, emails) == Absentees(a, emails) + Absentees(b, emails)
    decreases |a|
  {
    if |a| > 0 {
      assert (a + b)[1..] == a[1..] + b;
      AbsenteesAppend(a[1..], b, emails);
    } else {
      assert a + b == b;
    }
  }

  /** The employees who have not answered, in employee-list order. */
  function NonParticipants(es: seq<Employee>, rs: seq<SurveyResponse>): (out: seq<Employee>)
    ensures forall e :: e in out <==> e in es && forall i :: 0 <= i < |rs| ==> rs[i].email != e.email
  {
    AbsenteesMembers(es, ResponseEmails(rs));
    Absentees(es, ResponseEmails(rs))
  }

  // ---------------------------------------------------------------------
  // Anonymized feedback
  // ---------------------------------------------------------------------

  /** The free-text answer to the feedback question, if it is a non-empty string. */
  function Feedback(r: SurveyResponse): (f: Option<string>)
    ensures f.Some? <==> FeedbackQuestion in r.answers && r.answers[FeedbackQuestion].Text?
                          && r.answers[FeedbackQuestion].s != ""
    ensures f.Some? ==> f.value != "" && r.answers[FeedbackQuestion] == Text(f.value)
  {
    if FeedbackQuestion in r.answers && r.answers[FeedbackQuestion].Text?
       && r.answers[FeedbackQuestion].s != "" then
      Some(r.answers[FeedbackQuestion].s)
    else None
  }

  /** The non-empty free-text answers, in response order. */
  function Feedbacks(rs: seq<SurveyResponse>): (texts: seq<string>)
    ensures |texts| <= |rs|
    ensures forall s :: s in texts ==> s != ""
    ensures forall s :: s in texts ==> exists r :: r in rs && Feedback(r) == Some(s)
    ensures forall r :: r in rs && Feedback(r).Some? ==> Feedback(r).value in texts
    decreases |rs|
  {
    if |rs| == 0 then []
    else
      assert forall r :: r in rs <==> r == rs[0] || r in rs[1..];
      (if Feedback(rs[0]).Some? then [Feedback(rs[0]).value] else []) + Feedbacks(rs[1..])
  }

  /** Collecting feedback keeps response order: it distributes over concatenation. */
  lemma {:induction false} FeedbacksAppend(a: seq<SurveyResponse>, b: seq<SurveyResponse>)
    ensures Feedbacks(a + b) == Feedbacks(a) + Feedbacks(b)
    decreases |a|
  {
    if |a| > 0 {
      assert (a + b)[0] == a[0];
      assert (a + b)[1..] == a[1..] + b;
      FeedbacksAppend(a[1..], b);
    } else {
      assert a + b == b;
    }
  }

  /** All the free-text answers when there are enough of them, and none otherwise. */
  function AnonymizedFeedback(rs: seq<SurveyResponse>): (out: seq<string>)
    ensures out == [] || out == Feedbacks(rs)
    ensures out == [] || |out| >= AnonymityFloor
    ensures |Feedbacks(rs)| >= AnonymityFloor ==> out != []
    ensures forall s :: s in out ==> s != ""
  {
    var texts := Feedbacks(rs);
    if |texts| >= AnonymityFloor then texts else []
  }

  // ---------------------------------------------------------------------
  // The metrics
  // ---------------------------------------------------------------------

  /** The dashboard figures; the engagement score is kept in tenths. */
  datatype Metrics = Metrics(
    totalParticipants: nat,
    participationRate: int,
    engagementTenths: int,
    departmentBreakdown: map<string, nat>,
    levelBreakdown: map<string, nat>,
    anonymizedFeedback: seq<string>,
    nonParticipants: seq<Employee>)
  {
    /** The breakdown along one dimension. */
    function CountsBy(dim: Dimension): map<string, nat>
    {
      match dim
      case Department => departmentBreakdown
      case Level => levelBreakdown
    }
  }

  /** The metrics of a response list against an employee list. */
  function ComputeMetrics(employees: seq<Employee>, responses: seq<SurveyResponse>): (m: Metrics)
    ensures m.totalParticipants == |responses|
    ensures |m.nonParticipants| <= |employees|
  {
    Metrics(
      |responses|,
      ParticipationRate(|responses|, |employees|),
      EngagementTenths(responses),
      Tally(Labels(responses, Department)),
      Tally(Labels(responses, Level)),
      AnonymizedFeedback(responses),
      NonParticipants(employees, responses))
  }

  /** The aggregation step by step: two counting passes, then the other figures. */
  method Aggregate(employees: seq<Employee>, responses: seq<SurveyResponse>) returns (m: Metrics)
    ensures m == ComputeMetrics(employees, responses)
  {
    var totalEmployees := |employees|;
    var totalParticipants := |responses|;
    var deptCounts := Breakdown(responses, Department);
    var levelCounts := Breakdown(responses, Level);
    var engagement := EngagementTenths(responses);
    var nonParticipants := NonParticipants(employees, responses);
    var feedbacks := Feedbacks(responses);
    m := Metrics(
      totalParticipants,
      ParticipationRate(totalParticipants, totalEmployees),
      engagement,
      deptCounts,
      levelCounts,
      if |feedbacks| >= AnonymityFloor then feedbacks else [],
      nonParticipants);
  }

  /** Read both lists from the store and aggregate them. */
  method FetchDashboardData(store: Store.SurveyStore) returns (m: Metrics)
    ensures m == ComputeMetrics(store.employees, Store.Join(store.responses, store.employees))
  {
    var responses := store.GetAllResponses();
    var employees := store.GetAllEmployees();
    m := Aggregate(employees, responses);
  }

  // ---------------------------------------------------------------------
  // Laws of the metrics
  // ---------------------------------------------------------------------

  /**
   * One participant per response; the rate is a rounded percentage, zero
   * without employees and at most 100 while responses do not outnumber
   * employees.
   */
  lemma ParticipationLaws(es: seq<Employee>, rs: seq<SurveyResponse>)
    ensures var m := ComputeMetrics(es, rs);
      && m.totalParticipants == |rs|
      && m.participationRate >= 0
      && (|es| == 0 ==> m.participationRate == 0)
      && (|es| > 0 ==> -|es| <= 2 * (100 * |rs| - m.participationRate * |es|) < |es|)
      && (|rs| <= |es| ==> m.participationRate <= 100)
  {
  }

  /** A breakdown of the metrics is the tally of the responses' buckets. */
  lemma CountsByIsTally(es: seq<Employee>, rs: seq<SurveyResponse>, dim: Dimension)
    ensures ComputeMetrics(es, rs).CountsBy(dim) == Tally(Labels(rs, dim))
  {
    var m := ComputeMetrics(es, rs);
    assert m.departmentBreakdown == Tally(Labels(rs, Department));
    assert m.levelBreakdown == Tally(Labels(rs, Level));
  }

  /**
   * The dashboard's engagement score: 0 without a numeric rating, and
   * between 1.0 and 5.0 when every rating is on the form's 1..5 scale.
   */
  lemma EngagementLaws(es: seq<Employee>, rs: seq<SurveyResponse>)
    requires forall i :: 0 <= i < |rs| && Rating(rs[i]).Some? ==> 1 <= Rating(rs[i]).value <= 5
    ensures (forall i :: 0 <= i < |rs| ==> Rating(rs[i]).None?) ==> ComputeMetrics(es, rs).engagementTenths == 0
    ensures (exists i :: 0 <= i < |rs| && Rating(rs[i]).Some?) ==> 10 <= ComputeMetrics(es, rs).engagementTenths <= 50
  {
    EngagementOnFormScale(rs);
  }

  /**
   * Each breakdown has exactly the buckets that occur, counts each bucket's
   * responses, has no zero count, and its counts add up to the number of
   * responses.
   */
  lemma BreakdownLaws(es: seq<Employee>, rs: seq<SurveyResponse>, dim: Dimension)
    ensures var b := ComputeMetrics(es, rs).CountsBy(dim);
      && Total(b) == |rs|
      && (forall k :: k in b ==> b[k] >= 1)
      && (forall k :: k in b <==> exists i :: 0 <= i < |rs| && Label(rs[i], dim) == k)
      && (forall k :: k in b ==> b[k] == multiset(Labels(rs, dim))[k])
  {
    var labels := Labels(rs, dim);
    CountsByIsTally(es, rs, dim);
    TallyTotal(labels);
    TallyCounts(labels);
    LabelsOccur(rs, dim);
  }

  /** A response without employee, or with an empty field, is counted under `Unknown`. */
  lemma UnknownBucket(es: seq<Employee>, rs: seq<SurveyResponse>, dim: Dimension, i: nat)
    requires i < |rs|
    requires rs[i].employee.None? || Category(rs[i].employee.value, dim) == ""
    ensures Unknown in ComputeMetrics(es, rs).CountsBy(dim)
  {
    var labels := Labels(rs, dim);
    assert labels[i] == Unknown;
    CountsByIsTally(es, rs, dim);
    TallyCounts(labels);
  }

  /**
   * The non-participants are exactly the employees no response names, in
   * employee-list order; every employee is either one of them or has answered.
   */
  lemma NonParticipantLaws(es: seq<Employee>, es': seq<Employee>, rs: seq<SurveyResponse>)
    ensures var out := ComputeMetrics(es, rs).nonParticipants;
      forall e :: e in es ==> (e in out <==> e.email !in ResponseEmails(rs))
    ensures NonParticipants(es + es', rs) == NonParticipants(es, rs) + NonParticipants(es', rs)
  {
    AbsenteesAppend(es, es', ResponseEmails(rs));
  }

  /**
   * Free text is disclosed all or nothing: nothing when fewer than three
   * non-empty answers exist, otherwise every one of them in response order.
   */
  lemma AnonymityLaws(es: seq<Employee>, rs: seq<SurveyResponse>)
    ensures var out := ComputeMetrics(es, rs).anonymizedFeedback;
      && (|Feedbacks(rs)| < AnonymityFloor ==> out == [])
      && (|Feedbacks(rs)| >= AnonymityFloor ==> out == Feedbacks(rs))
      && (out == [] || |out| >= AnonymityFloor)
      && (forall s :: s in out ==> s != "" && exists i :: 0 <= i < |rs| && Feedback(rs[i]) == Some(s))
  {
  }

  /**
   * With two free-text answers nothing is disclosed; a response bringing a
   * third discloses all three, in order.
   */
  lemma ThirdFeedbackDisclosesAll(rs: seq<SurveyResponse>, r: SurveyResponse)
    requires |Feedbacks(rs)| == AnonymityFloor - 1
    requires Feedback(r).Some?
    ensures AnonymizedFeedback(rs) == []
    ensures AnonymizedFeedback(rs + [r]) == Feedbacks(rs) + [Feedback(r).value]
  {
    FeedbacksAppend(rs, [r]);
    assert Feedbacks([r]) == [Feedback(r).value] by {
      assert [r][1..] == [];
    }
  }

  // ---------------------------------------------------------------------
  // Participation against the store's invariant
  // ---------------------------------------------------------------------

  /** The emails of an employee list. */
  function EmployeeEmails(es: seq<Employee>): set<string>
  {
    set e | e in es :: e.email
  }

  /** An employee list has no more distinct emails than entries. */
  lemma {:induction false} EmployeeEmailsCount(es: seq<Employee>)
    ensures |EmployeeEmails(es)| <= |es|
    decreases |es|
  {
    if |es| > 0 {
      EmployeeEmailsCount(es[1..]);
      assert EmployeeEmails(es) == {es[0].email} + EmployeeEmails(es[1..]) by {
        assert forall e :: e in es <==> e == es[0] || e in es[1..];
      }
    }
  }

  /** The emails of a non-empty response list: the first one and those of the rest. */
  lemma ResponseEmailsCons(rs: seq<SurveyResponse>)
    requires |rs| > 0
    ensures ResponseEmails(rs) == {rs[0].email} + ResponseEmails(rs[1..])
  {
    assert forall r :: r in rs <==> r == rs[0] || r in rs[1..];
  }

  /** Responses with pairwise different emails have as many emails as responses. */
  lemma {:induction false} DistinctEmailsCount(rs: seq<SurveyResponse>)
    requires forall i, j :: 0 <= i < j < |rs| ==> rs[i].email != rs[j].email
    ensures |ResponseEmails(rs)| == |rs|
    decreases |rs|
  {
    if |rs| > 0 {
      var tail := rs[1..];
      assert forall k :: 0 <= k < |tail| ==> tail[k] == rs[k + 1];
      DistinctEmailsCount(tail);
      ResponseEmailsCons(rs);
      assert forall k :: 0 <= k < |tail| ==> tail[k].email != rs[0].email;
      assert rs[0].email !in ResponseEmails(tail);
    }
  }

  /**
   * When every response answers one survey, the store's invariant holds and
   * every response comes from a known employee (as after a successful
   * login), there are no more responses than employees.
   */
  lemma ParticipantsWithinEmployees(es: seq<Employee>, rs: seq<SurveyResponse>, surveyId: string)
    requires Store.AtMostOnePerPair(rs)
    requires forall i :: 0 <= i < |rs| ==> rs[i].surveyId == surveyId
    requires forall i :: 0 <= i < |rs| ==> Store.FindEmployee(es, rs[i].email).Some?
    ensures |rs| <= |es|
  {
    assert forall i, j :: 0 <= i < j < |rs| ==> rs[i].email != rs[j].email;
    DistinctEmailsCount(rs);
    AnsweredAreEmployees(es, rs);
    SubsetCount(ResponseEmails(rs), EmployeeEmails(es));
    EmployeeEmailsCount(es);
  }

  /** Responses from known employees carry employee emails only. */
  lemma AnsweredAreEmployees(es: seq<Employee>, rs: seq<SurveyResponse>)
    requires forall i :: 0 <= i < |rs| ==> Store.FindEmployee(es, rs[i].email).Some?
    ensures ResponseEmails(rs) <= EmployeeEmails(es)
  {
    forall r | r in rs ensures r.email in EmployeeEmails(es) {
      var i :| 0 <= i < |rs| && rs[i] == r;
      Store.FoundIsListed(es, r.email);
    }
  }

  /** A subset has no more elements than its superset. */
  lemma {:induction false} SubsetCount(a: set<string>, b: set<string>)
    requires a <= b
    ensures |a| <= |b|
    decreases |b|
  {
    if a != {} {
      var x :| x in a;
      SubsetCount(a - {x}, b - {x});
    }
  }

  /** Under the same conditions the participation rate is at most 100. */
  lemma ParticipationAtMostHundred(es: seq<Employee>, rs: seq<SurveyResponse>, surveyId: string)
    requires Store.AtMostOnePerPair(rs)
    requires forall i :: 0 <= i < |rs| ==> rs[i].surveyId == surveyId
    requires forall i :: 0 <= i < |rs| ==> Store.FindEmployee(es, rs[i].email).Some?
    ensures ComputeMetrics(es, Store.Join(rs, es)).participationRate <= 100
  {
    ParticipantsWithinEmployees(es, rs, surveyId);
    var joined := Store.Join(rs, es);
    assert ComputeMetrics(es, joined).participationRate == ParticipationRate(|joined|, |es|);
  }

  /** The response of the worked example below, with dev1 joined in. */
  function ExampleResponse(): SurveyResponse
  {
    SurveyResponse("r1", "dev1@company.com", "bday-survey-2024",
                   map[RatingQuestion := Num(4), FeedbackQuestion := Text("Great")],
                   "2024-06-01T10:00:00.000Z", Some(Store.SeedEmployees[1]))
  }

  /** Listing the stored example response joins dev1's record in. */
  lemma ExampleJoin()
    ensures Store.Join([ExampleResponse().(employee := None)], Store.SeedEmployees) == [ExampleResponse()]
  {
    var es := Store.SeedEmployees;
    assert Store.FindEmployee(es, "dev1@company.com") == Some(es[1]);
  }

  /** The example's rating, feedback and score. */
  lemma ExampleScores()
    ensures Ratings([ExampleResponse()]) == [4]
    ensures Feedbacks([ExampleResponse()]) == ["Great"]
    ensures EngagementTenths([ExampleResponse()]) == 40
  {
    assert [ExampleResponse()][1..] == [];
    assert Sum([4]) == 4 by { assert [4][1..] == []; }
  }

  /** One participant out of four employees is 25 percent. */
  lemma ExampleRate()
    ensures ParticipationRate(1, 4) == 25
  {
    assert RoundDiv(100, 4) == 25;
  }

  /** The example's department and level counts. */
  lemma ExampleTallies()
    ensures Tally(Labels([ExampleResponse()], Department)) == map["Engineering" := 1]
    ensures Tally(Labels([ExampleResponse()], Level)) == map["L2" := 1]
  {
    assert Labels([ExampleResponse()], Department) == ["Engineering"];
    TallySnoc([], "Engineering");
    assert Labels([ExampleResponse()], Level) == ["L2"];
    TallySnoc([], "L2");
  }

  /** The example's set of answering emails. */
  lemma ExampleEmails()
    ensures ResponseEmails([ExampleResponse()]) == {"dev1@company.com"}
  {
    assert [ExampleResponse()][1..] == [];
  }

  /** The last two seeded employees have not answered. */
  lemma ExampleFilterTail()
    ensures var es := Store.SeedEmployees;
            Absentees(es[2..], {"dev1@company.com"}) == [es[2], es[3]]
  {
    var es, emails := Store.SeedEmployees, {"dev1@company.com"};
    assert Absentees(es[3..], emails) == [es[3]] by { assert es[3..][1..] == []; }
    assert es[2..][1..] == es[3..];
  }

  /** Filtering dev1 out of the seeded employees. */
  lemma ExampleFilter()
    ensures var es := Store.SeedEmployees;
            Absentees(es, {"dev1@company.com"}) == [es[0], es[2], es[3]]
  {
    var es, emails := Store.SeedEmployees, {"dev1@company.com"};
    ExampleFilterTail();
    assert Absentees(es[1..], emails) == [es[2], es[3]] by { assert es[1..][1..] == es[2..]; }
  }

  /** The example's non-participants: everyone but dev1, in list order. */
  lemma ExampleAbsentees()
    ensures var es := Store.SeedEmployees;
            NonParticipants(es, [ExampleResponse()]) == [es[0], es[2], es[3]]
  {
    ExampleEmails();
    ExampleFilter();
  }

  /**
   * Four seeded employees, one response from dev1 rating 4 with the text
   * "Great": one participant, 25 percent, a score of 4.0 (priority Low),
   * no disclosed feedback, and the three other employees as non-participants.
   */
  lemma OneResponseOfFour()
    ensures ComputeMetrics(Store.SeedEmployees, [ExampleResponse()]) ==
              Metrics(1, 25, 40, map["Engineering" := 1], map["L2" := 1], [],
                      [Store.SeedEmployees[0], Store.SeedEmployees[2], Store.SeedEmployees[3]])
    ensures ImprovementPriority(40) == Low
  {
    ExampleRate();
    ExampleScores();
    ExampleTallies();
    ExampleAbsentees();
  }
}

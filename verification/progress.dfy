/** The "Interview Readiness" score shown in the page header. */
module Progress {

  const MaxScore: nat := 100
  /** Points per recorded practice session of either kind. */
  const PointsPerSession: nat := 5
  /** Extra points per completed mock interview. */
  const PointsPerMockInterview: nat := 15

  /** The readiness score for `sessions` history records and
      `mockInterviews` completed mock interviews: five points per record
      plus fifteen per interview, capped at one hundred. */
  function ReadinessScore(sessions: nat, mockInterviews: nat): (score: nat)
    ensures score <= MaxScore
    ensures score <= PointsPerSession * sessions + PointsPerMockInterview * mockInterviews
    ensures score == MaxScore || score == PointsPerSession * sessions + PointsPerMockInterview * mockInterviews
  {
    var raw := PointsPerSession * sessions + PointsPerMockInterview * mockInterviews;
    if raw < MaxScore then raw else MaxScore
  }

  /** The score never falls when either count grows. */
  lemma ReadinessMonotone(sessions: nat, mockInterviews: nat, sessions': nat, mockInterviews': nat)
    requires sessions <= sessions' && mockInterviews <= mockInterviews'
    ensures ReadinessScore(sessions, mockInterviews) <= ReadinessScore(sessions', mockInterviews')
  {
  }

  /** One more record and `extra` more interviews raise the score by
      `5 + 15 * extra` points, up to the cap. */
  lemma ReadinessStep(sessions: nat, mockInterviews: nat, extra: nat)
    ensures var before := ReadinessScore(sessions, mockInterviews);
            var gain := PointsPerSession + PointsPerMockInterview * extra;
            ReadinessScore(sessions + 1, mockInterviews + extra)
              == if before + gain < MaxScore then before + gain else MaxScore
  {
  }
}

/** Submitting today's line: the "already written" shortcut, the guard on
    the scoring response, and the mapping from a failure to the one alert
    the user sees. The ad, the scoring service and the save request are
    outside the model: their outcomes are parameters. */
module DiarySubmit {
  import opened Wrappers
  import opened Utf16
  import opened DateUtils

  // ----- Substring search -----

  /** `sub` occurs in `s` starting at index `i`. */
  predicate OccursAt(s: string, sub: string, i: int) {
    0 <= i && i + |sub| <= |s| && s[i..i + |sub|] == sub
  }

  /** `s.includes(sub)`. */
  function Contains(s: string, sub: string): (r: bool)
    ensures r <==> exists i :: OccursAt(s, sub, i)
    decreases |s|
  {
    if |sub| > |s| then
      assert forall i :: !OccursAt(s, sub, i);
      false
    else if s[..|sub|] == sub then
      assert OccursAt(s, sub, 0);
      true
    else
      var r := Contains(s[1..], sub);
      forall i ensures OccursAt(s[1..], sub, i) <==> OccursAt(s, sub, i + 1) {
        if 0 <= i && i + |sub| <= |s| - 1 {
          assert s[1..][i..i + |sub|] == s[i + 1..i + 1 + |sub|];
        }
      }
      assert !OccursAt(s, sub, 0);
      assert forall i :: OccursAt(s, sub, i) ==> OccursAt(s[1..], sub, i - 1);
      r
  }

  /** A text without the first character of `sub` does not contain it. */
  lemma MissingFirstCharacter(s: string, sub: string)
    requires sub != [] && forall i :: 0 <= i < |s| ==> s[i] != sub[0]
    ensures !Contains(s, sub)
  {
    forall i | 0 <= i && i + |sub| <= |s| ensures !OccursAt(s, sub, i) {
      assert s[i..i + |sub|][0] == s[i];
    }
  }

  // ----- Failures and their alerts -----

  /** What reaches the `catch`: an `Error` (or a subclass such as
      `ApiError`) with its message, or any other thrown value. */
  datatype Thrown = ErrorObject(message: string) | NonError

  const LoginAlert: string := "로그인이 필요해요."
  const AnalysisAlert: string := "일기 분석에 실패했어요. 다시 시도해주세요."
  const NetworkAlert: string := "네트워크 연결을 확인해주세요."
  const SaveAlert: string := "저장에 실패했어요. 다시 시도해주세요."
  const UnknownAlert: string := "알 수 없는 오류가 있어요. 다시 시도해주세요."

  /** The alert for a failure, by the first keyword the message contains. */
  function FailureAlert(e: Thrown): string {
    match e
    case NonError => UnknownAlert
    case ErrorObject(m) =>
      if Contains(m, "로그인") then LoginAlert
      else if Contains(m, "GPT") then AnalysisAlert
      else if Contains(m, "네트워크") then NetworkAlert
      else SaveAlert
  }

  /** The alert texts are pairwise different. */
  lemma AlertsDistinct()
    ensures |{LoginAlert, AnalysisAlert, NetworkAlert, SaveAlert, UnknownAlert}| == 5
  {
    assert LoginAlert[0] == '로' && AnalysisAlert[0] == '일' && NetworkAlert[0] == '네';
    assert SaveAlert[0] == '저' && UnknownAlert[0] == '알';
  }

  /** Each alert is chosen exactly when its keyword is the first of
      '로그인', 'GPT', '네트워크' in the message; anything but an `Error`
      gets the unknown-error alert. */
  lemma FailureAlertPrecedence(e: Thrown)
    ensures var a := FailureAlert(e);
      && (a == UnknownAlert <==> e.NonError?)
      && (a == LoginAlert <==> e.ErrorObject? && Contains(e.message, "로그인"))
      && (a == AnalysisAlert <==> e.ErrorObject? && !Contains(e.message, "로그인") && Contains(e.message, "GPT"))
      && (a == NetworkAlert <==> e.ErrorObject? && !Contains(e.message, "로그인") && !Contains(e.message, "GPT")
                                 && Contains(e.message, "네트워크"))
      && (a == SaveAlert <==> e.ErrorObject? && !Contains(e.message, "로그인") && !Contains(e.message, "GPT")
                              && !Contains(e.message, "네트워크"))
  {
    AlertsDistinct();
  }

  // ----- The scoring response -----

  /** A JavaScript value in the `score` field: a number or something else. */
  datatype ScoreField = Number(value: int) | NotNumber

  /** The scoring service's answer; `line` is absent when it is undefined. */
  datatype ScoreResponse = ScoreResponse(line: Option<string>, score: ScoreField)

  const GuardMessage: string := "GPT 응답이 올바르지 않습니다."

  /** The guard: a response that is missing, has no (or an empty) line or
      has a score that is not a number is thrown away as an `Error`. */
  function CheckResponse(response: Option<ScoreResponse>): (r: Result<(string, int), Thrown>)
    ensures r.Success? <==> response.Some? && response.value.line.Some? && response.value.line.value != ""
                             && response.value.score.Number?
    ensures r.Success? ==> r.value == (response.value.line.value, response.value.score.value)
    ensures r.Failure? ==> r.error == ErrorObject(GuardMessage)
  {
    match response
    case None => Failure(ErrorObject(GuardMessage))
    case Some(resp) =>
      if resp.line.None? || resp.line.value == "" || resp.score.NotNumber? then Failure(ErrorObject(GuardMessage))
      else Success((resp.line.value, resp.score.value))
  }

  lemma GuardMessageHasNoLogin(m: string)
    requires m == GuardMessage
    ensures !Contains(m, "로그인")
  {
    assert forall i :: 0 <= i < |m| ==> m[i] != '로';
    MissingFirstCharacter(m, "로그인");
  }

  lemma GuardMessageHasGpt(m: string)
    requires m == GuardMessage
    ensures Contains(m, "GPT")
  {
    assert OccursAt(m, "GPT", 0);
  }

  /** A rejected response is reported as a failed analysis. */
  lemma GuardFailureIsAnalysis()
    ensures FailureAlert(ErrorObject(GuardMessage)) == AnalysisAlert
  {
    GuardMessageHasNoLogin(GuardMessage);
    GuardMessageHasGpt(GuardMessage);
    FailureAlertPrecedence(ErrorObject(GuardMessage));
  }

  /** The diary service's "login required" error asks the user to log in. */
  lemma LoginRequiredIsLogin()
    ensures FailureAlert(ErrorObject("로그인이 필요합니다.")) == LoginAlert
  {
    var m := "로그인이 필요합니다.";
    assert OccursAt(m, "로그인", 0);
    FailureAlertPrecedence(ErrorObject(m));
  }

  lemma NetworkMessageKeywords(m: string)
    requires m == "네트워크 연결을 확인해주세요."
    ensures !Contains(m, "로그인") && !Contains(m, "GPT") && Contains(m, "네트워크")
  {
    assert forall i :: 0 <= i < |m| ==> m[i] != '로' && m[i] != 'G';
    MissingFirstCharacter(m, "로그인");
    MissingFirstCharacter(m, "GPT");
    assert OccursAt(m, "네트워크", 0);
  }

  /** The transport's network error asks the user to check the network. */
  lemma NetworkErrorIsNetwork()
    ensures FailureAlert(ErrorObject("네트워크 연결을 확인해주세요.")) == NetworkAlert
  {
    NetworkMessageKeywords("네트워크 연결을 확인해주세요.");
    FailureAlertPrecedence(ErrorObject("네트워크 연결을 확인해주세요."));
  }

  // ----- handleSubmit -----

  const StatsPath: string := "/stats"

  /** What `handleSubmit` does, in order. */
  datatype Effect =
    | ShowAd
    | Analyze(text: Text)
    | Save(date: string, content: string, emotion: int)
    | Navigate(path: string, skipComplete: bool)
    | Alert(message: string)

  /** `handleSubmit` for today's date `today`, given what the scoring call
      (a response or a throw) and the save (nothing or a throw) come to. */
  function HandleSubmit(hasTodayDiary: bool, trimmedValue: Text, today: CivilDate,
                        analysis: Result<Option<ScoreResponse>, Thrown>, save: Option<Thrown>): seq<Effect>
  {
    if hasTodayDiary then [Navigate(StatsPath, true)]
    else [ShowAd, Analyze(trimmedValue)] + AfterAnalysis(today, analysis, save)
  }

  /** What follows the analysis: the alert for a failed or rejected
      analysis, or the save and then the page change or the alert. */
  function AfterAnalysis(today: CivilDate, analysis: Result<Option<ScoreResponse>, Thrown>,
                         save: Option<Thrown>): seq<Effect>
  {
    match analysis
    case Failure(e) => [Alert(FailureAlert(e))]
    case Success(response) =>
      match CheckResponse(response)
      case Failure(e) => [Alert(FailureAlert(e))]
      case Success((line, score)) =>
        var saving := Save(FormatDate(today, "-"), line, score);
        match save
        case Some(e) => [saving, Alert(FailureAlert(e))]
        case None => [saving, Navigate(StatsPath, false)]
  }

  function AlertCount(trace: seq<Effect>): (n: nat)
    ensures n <= |trace|
    ensures n == 0 <==> forall i :: 0 <= i < |trace| ==> !trace[i].Alert?
  {
    if trace == [] then 0
    else (if trace[0].Alert? then 1 else 0) + AlertCount(trace[1..])
  }

  /** With today's line already written, submitting only opens the
      statistics page, skipping the completion screen: no ad, no analysis,
      no save. */
  lemma AlreadyWrittenOnlyNavigates(trimmedValue: Text, today: CivilDate,
                                    analysis: Result<Option<ScoreResponse>, Thrown>, save: Option<Thrown>)
    ensures var trace := HandleSubmit(true, trimmedValue, today, analysis, save);
      && trace == [Navigate(StatsPath, true)]
      && forall i :: 0 <= i < |trace| ==> !trace[i].ShowAd? && !trace[i].Analyze? && !trace[i].Save?
  {
  }

  /** The analysis succeeds and its response passes the guard. */
  predicate Scored(analysis: Result<Option<ScoreResponse>, Thrown>) {
    analysis.Success? && CheckResponse(analysis.value).Success?
  }

  /** Otherwise the ad comes first and the analysis of the trimmed text
      second, and the completion screen is never skipped. */
  lemma SubmitStartsWithAd(trimmedValue: Text, today: CivilDate,
                           analysis: Result<Option<ScoreResponse>, Thrown>, save: Option<Thrown>)
    ensures var trace := HandleSubmit(false, trimmedValue, today, analysis, save);
      && |trace| >= 3
      && trace[..2] == [ShowAd, Analyze(trimmedValue)]
      && forall i :: 0 <= i < |trace| ==> !trace[i].Navigate? || !trace[i].skipComplete
  {
    var trace := HandleSubmit(false, trimmedValue, today, analysis, save);
    var tail := AfterAnalysis(today, analysis, save);
    assert forall i :: 2 <= i < |trace| ==> trace[i] == tail[i - 2];
  }

  /** The submission ends either on the statistics page with no alert, or
      with exactly one alert and no page change; it reaches the page exactly
      when the analysis is scored and the save succeeds. */
  lemma SubmitEndsOnce(trimmedValue: Text, today: CivilDate,
                       analysis: Result<Option<ScoreResponse>, Thrown>, save: Option<Thrown>)
    ensures var trace := HandleSubmit(false, trimmedValue, today, analysis, save);
      var succeeded := Scored(analysis) && save.None?;
      && trace != []
      && (trace[|trace| - 1] == Navigate(StatsPath, false) <==> succeeded)
      && (!succeeded ==> trace[|trace| - 1].Alert?)
      && AlertCount(trace) == if succeeded then 0 else 1
  {
    var start := [ShowAd, Analyze(trimmedValue)];
    var tail := AfterAnalysis(today, analysis, save);
    AlertCountAppend(start, tail);
    if |tail| == 2 {
      AlertCountAppend([tail[0]], [tail[1]]);
      assert tail == [tail[0]] + [tail[1]];
    }
  }

  /** The one alert of a failed submission is chosen from what was thrown:
      the scoring call's own failure, the guard's `Error` for a rejected
      response (an analysis failure), or the save's failure. */
  lemma SubmitFailureAlert(trimmedValue: Text, today: CivilDate,
                           analysis: Result<Option<ScoreResponse>, Thrown>, save: Option<Thrown>)
    ensures var trace := HandleSubmit(false, trimmedValue, today, analysis, save);
      && trace != []
      && (analysis.Failure? ==> trace[|trace| - 1] == Alert(FailureAlert(analysis.error)))
      && (analysis.Success? && !Scored(analysis) ==> trace[|trace| - 1] == Alert(AnalysisAlert))
      && (Scored(analysis) && save.Some? ==> trace[|trace| - 1] == Alert(FailureAlert(save.value)))
  {
    var trace := HandleSubmit(false, trimmedValue, today, analysis, save);
    var tail := AfterAnalysis(today, analysis, save);
    assert trace[|trace| - 1] == tail[|tail| - 1];
    if analysis.Success? && !Scored(analysis) {
      GuardFailureIsAnalysis();
    }
  }

  /** Something is saved exactly when the analysis is scored. */
  lemma SubmitSavesOnlyWhenScored(trimmedValue: Text, today: CivilDate,
                                  analysis: Result<Option<ScoreResponse>, Thrown>, save: Option<Thrown>)
    ensures var trace := HandleSubmit(false, trimmedValue, today, analysis, save);
      Scored(analysis) <==> exists i :: 0 <= i < |trace| && trace[i].Save?
  {
    AfterAnalysisSaves(today, analysis, save);
    SavesAfterPrefix([ShowAd, Analyze(trimmedValue)], AfterAnalysis(today, analysis, save));
  }

  lemma SavesAfterPrefix(start: seq<Effect>, tail: seq<Effect>)
    requires forall i :: 0 <= i < |start| ==> !start[i].Save?
    requires tail != [] && forall i :: 1 <= i < |tail| ==> !tail[i].Save?
    ensures (exists i :: 0 <= i < |start + tail| && (start + tail)[i].Save?) <==> tail[0].Save?
  {
    var t := start + tail;
    if tail[0].Save? {
      assert t[|start|].Save?;
    } else {
      forall i | 0 <= i < |t| ensures !t[i].Save? {
        if i >= |start| {
          assert t[i] == tail[i - |start|];
        }
      }
    }
  }

  lemma AfterAnalysisSaves(today: CivilDate, analysis: Result<Option<ScoreResponse>, Thrown>, save: Option<Thrown>)
    ensures var tail := AfterAnalysis(today, analysis, save);
      && tail != []
      && (tail[0].Save? <==> Scored(analysis))
      && forall i :: 1 <= i < |tail| ==> !tail[i].Save?
  {
  }

  /** What is saved is the scored line and score under today's date, right
      after the analysis. */
  lemma SubmitSavesScoredLine(trimmedValue: Text, today: CivilDate,
                              analysis: Result<Option<ScoreResponse>, Thrown>, save: Option<Thrown>)
    requires Scored(analysis)
    ensures var trace := HandleSubmit(false, trimmedValue, today, analysis, save);
      && |trace| == 4
      && trace[2] == Save(FormatDate(today, "-"), CheckResponse(analysis.value).value.0,
                          CheckResponse(analysis.value).value.1)
  {
    var trace := HandleSubmit(false, trimmedValue, today, analysis, save);
    assert trace[2] == AfterAnalysis(today, analysis, save)[0];
  }

  lemma {:induction false} AlertCountAppend(a: seq<Effect>, b: seq<Effect>)
    ensures AlertCount(a + b) == AlertCount(a) + AlertCount(b)
  {
    if a == [] {
      assert a + b == b;
    } else {
      AlertCountAppend(a[1..], b);
      assert (a + b)[1..] == a[1..] + b;
    }
  }

  /** For a four-digit year the saved date reads back as today and falls in
      today's month, so the calendar and the graph of this month show it. */
  lemma SavedDateIsToday(today: CivilDate)
    requires IsValidDate(today) && 1000 <= today.year <= 9999
    ensures ParseDate(FormatDate(today, "-")) == Some(today)
    ensures IsSameMonth(FormatDate(today, "-"), today.year, today.month)
  {
    ParseFormatDate(today);
  }
}

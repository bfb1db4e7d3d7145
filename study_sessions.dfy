/**
 * The saved-session list of the signed-in user: loading it, saving the
 * current analysis, deleting a session and producing its share link.
 *
 * Each database call is an input saying how it went (the rows read, or
 * whether the write succeeded); the signed-in user, the page origin and
 * the freshly generated share token are inputs as well.
 */
module StudySessions {
  import opened Base
  import opened Analysis

  /** A row of the `study_sessions` table as the query returns it. */
  datatype Row = Row(
    id: string,
    userId: string,
    title: string,
    notes: string,
    importantPoints: seq<string>,
    summary: string,
    mcqs: seq<Mcq>,
    shortQuestions: seq<QuestionAnswer>,
    longQuestions: seq<QuestionAnswer>,
    vivaQuestions: seq<QuestionAnswer>,
    createdAt: string,
    updatedAt: string,
    shareToken: Option<string>)

  /** A session as the page holds it: the row without its owner. */
  datatype StudySession = StudySession(
    id: string,
    title: string,
    notes: string,
    importantPoints: seq<string>,
    summary: string,
    mcqs: seq<Mcq>,
    shortQuestions: seq<QuestionAnswer>,
    longQuestions: seq<QuestionAnswer>,
    vivaQuestions: seq<QuestionAnswer>,
    createdAt: string,
    updatedAt: string,
    shareToken: Option<string>)
  {
    /** The analysis the session was saved from. */
    function Analysis(): AnalysisData {
      AnalysisData(importantPoints, summary, mcqs, shortQuestions, longQuestions, vivaQuestions)
    }
  }

  /** The values sent by `saveSession`; the database adds the id, the timestamps and the token. */
  datatype Insert = Insert(
    userId: string,
    title: string,
    notes: string,
    importantPoints: seq<string>,
    summary: string,
    mcqs: seq<Mcq>,
    shortQuestions: seq<QuestionAnswer>,
    longQuestions: seq<QuestionAnswer>,
    vivaQuestions: seq<QuestionAnswer>)

  /** The outcome of the list query: rows, a `null` data field, or an error. */
  datatype Query = Rows(rows: seq<Row>) | NullData | QueryError

  // ---------------------------------------------------------------------------
  // Pure list functions

  function FromRow(row: Row): StudySession {
    StudySession(row.id, row.title, row.notes, row.importantPoints, row.summary, row.mcqs,
      row.shortQuestions, row.longQuestions, row.vivaQuestions, row.createdAt, row.updatedAt,
      row.shareToken)
  }

  /** The rows as sessions, one for one and in the order the query returned them. */
  function FormatRows(rows: seq<Row>): (r: seq<StudySession>)
    ensures |r| == |rows|
    ensures forall k :: 0 <= k < |r| ==> r[k] == FromRow(rows[k])
  {
    seq(|rows|, k requires 0 <= k < |rows| => FromRow(rows[k]))
  }

  function Payload(userId: string, title: string, notes: string, data: AnalysisData): Insert {
    Insert(userId, title, notes, data.importantPoints, data.summary, data.mcqs,
      data.shortQuestions, data.longQuestions, data.vivaQuestions)
  }

  /** A stored row holds what was inserted. */
  predicate Holds(row: Row, ins: Insert) {
    && row.userId == ins.userId && row.title == ins.title && row.notes == ins.notes
    && row.importantPoints == ins.importantPoints && row.summary == ins.summary
    && row.mcqs == ins.mcqs && row.shortQuestions == ins.shortQuestions
    && row.longQuestions == ins.longQuestions && row.vivaQuestions == ins.vivaQuestions
  }

  /** A saved analysis, once read back, gives the same title, notes and analysis. */
  lemma SavedSessionReadsBack(userId: string, title: string, notes: string, data: AnalysisData, row: Row)
    requires Holds(row, Payload(userId, title, notes, data))
    ensures FromRow(row).Analysis() == data
    ensures FromRow(row).title == title && FromRow(row).notes == notes
    ensures FromRow(row).id == row.id
  {
  }

  /** The list without the sessions carrying `id`, the others in their order. */
  function Without(ss: seq<StudySession>, id: string): (r: seq<StudySession>)
    ensures |r| <= |ss|
    ensures forall k :: 0 <= k < |r| ==> r[k].id != id
    ensures forall s :: s in r <==> s in ss && s.id != id
  {
    if ss == [] then []
    else (if ss[0].id == id then [] else [ss[0]]) + Without(ss[1..], id)
  }

  /** Filtering works piecewise, so the kept sessions stay in order. */
  lemma {:induction false} WithoutAppend(a: seq<StudySession>, b: seq<StudySession>, id: string)
    ensures Without(a + b, id) == Without(a, id) + Without(b, id)
  {
    if a != [] {
      assert (a + b)[1..] == a[1..] + b;
      WithoutAppend(a[1..], b, id);
    } else {
      assert a + b == b;
    }
  }

  /** A list without the id is left as it is, so deleting twice is deleting once. */
  lemma {:induction false} WithoutAbsent(ss: seq<StudySession>, id: string)
    requires forall k :: 0 <= k < |ss| ==> ss[k].id != id
    ensures Without(ss, id) == ss
  {
    if ss != [] {
      WithoutAbsent(ss[1..], id);
    }
  }

  lemma WithoutIdempotent(ss: seq<StudySession>, id: string)
    ensures Without(Without(ss, id), id) == Without(ss, id)
  {
    WithoutAbsent(Without(ss, id), id);
  }

  /** `sessions.find(s => s.id === id)`: the first session with that id. */
  function FindSession(ss: seq<StudySession>, id: string): (r: Option<StudySession>)
    ensures r.Some? ==> exists k :: 0 <= k < |ss| && ss[k] == r.value && forall j :: 0 <= j < k ==> ss[j].id != id
    ensures r.Some? ==> r.value in ss && r.value.id == id
    ensures r.None? <==> forall k :: 0 <= k < |ss| ==> ss[k].id != id
  {
    if ss == [] then None
    else if ss[0].id == id then Some(ss[0])
    else
      var r := FindSession(ss[1..], id);
      assert r.Some? ==> exists k :: 1 <= k < |ss| && ss[k] == r.value && forall j :: 0 <= j < k ==> ss[j].id != id by {
        if r.Some? {
          var k :| 0 <= k < |ss[1..]| && ss[1..][k] == r.value && forall j :: 0 <= j < k ==> ss[1..][j].id != id;
          assert ss[k + 1] == r.value;
          assert forall j :: 0 <= j < k + 1 ==> ss[j].id != id by {
            forall j | 0 <= j < k + 1 ensures ss[j].id != id {
              if j > 0 {
                assert ss[j] == ss[1..][j - 1];
              }
            }
          }
        }
      }
      r
  }

  /** `session?.share_token` is truthy: present and not empty. */
  predicate HasToken(found: Option<StudySession>) {
    found.Some? && found.value.shareToken.Some? && found.value.shareToken.value != ""
  }

  function ShareUrl(origin: string, token: string): string {
    origin + "/share/" + token
  }

  /** The list with `token` set on every session carrying `id`. */
  function Stamp(ss: seq<StudySession>, id: string, token: string): (r: seq<StudySession>)
    ensures |r| == |ss|
    ensures forall k :: 0 <= k < |ss| ==>
      r[k] == if ss[k].id == id then ss[k].(shareToken := Some(token)) else ss[k]
  {
    seq(|ss|, k requires 0 <= k < |ss| => if ss[k].id == id then ss[k].(shareToken := Some(token)) else ss[k])
  }

  /** Stamping changes the token of the sessions with that id and nothing else. */
  lemma StampOnlyTouchesId(ss: seq<StudySession>, id: string, token: string, k: nat)
    requires k < |ss|
    ensures Stamp(ss, id, token)[k].id == ss[k].id
    ensures Stamp(ss, id, token)[k].Analysis() == ss[k].Analysis()
    ensures ss[k].id == id ==> Stamp(ss, id, token)[k].shareToken == Some(token)
    ensures ss[k].id != id ==> Stamp(ss, id, token)[k] == ss[k]
  {
  }

  /** The first session with the id, after stamping, is the first one before, with the token. */
  lemma {:induction false} FindAfterStamp(ss: seq<StudySession>, id: string, token: string)
    requires FindSession(ss, id).Some?
    ensures FindSession(Stamp(ss, id, token), id) == Some(FindSession(ss, id).value.(shareToken := Some(token)))
  {
    var r := Stamp(ss, id, token);
    if ss[0].id != id {
      StampTail(ss, id, token);
      FindAfterStamp(ss[1..], id, token);
      assert r[0] == ss[0];
    } else {
      assert r[0] == ss[0].(shareToken := Some(token));
    }
  }

  lemma StampTail(ss: seq<StudySession>, id: string, token: string)
    requires ss != []
    ensures Stamp(ss, id, token)[1..] == Stamp(ss[1..], id, token)
  {
    var r := Stamp(ss, id, token);
    var t := Stamp(ss[1..], id, token);
    assert |r[1..]| == |t|;
    forall k | 0 <= k < |t| ensures r[1..][k] == t[k] {
      assert r[1..][k] == r[k + 1];
    }
  }

  /**
   * `generateShareLink` on a list: the link (or `None` for `null`) and the
   * list afterwards. `token` is the freshly generated UUID and `updateOk`
   * says whether the token was written.
   */
  function ShareResult(ss: seq<StudySession>, id: string, origin: string, token: string, updateOk: bool)
    : (seq<StudySession>, Option<string>)
  {
    var found := FindSession(ss, id);
    if HasToken(found) then (ss, Some(ShareUrl(origin, found.value.shareToken.value)))
    else if updateOk then (Stamp(ss, id, token), Some(ShareUrl(origin, token)))
    else (ss, None)
  }

  /** A link is produced unless a token had to be written and the write failed, which changes nothing. */
  lemma ShareOutcomes(ss: seq<StudySession>, id: string, origin: string, token: string, updateOk: bool)
    ensures var (after, link) := ShareResult(ss, id, origin, token, updateOk);
      && (link.None? <==> !HasToken(FindSession(ss, id)) && !updateOk)
      && (link.None? ==> after == ss)
      && (HasToken(FindSession(ss, id)) ==> after == ss)
  {
  }

  /**
   * Once a link was produced for a session in the list, asking again
   * gives the same link, whatever token would be generated and whether
   * a write would succeed, and changes nothing.
   */
  lemma ShareTwiceSameLink(ss: seq<StudySession>, id: string, origin: string,
                           token: string, updateOk: bool, token2: string, updateOk2: bool)
    requires FindSession(ss, id).Some?
    requires token != ""
    requires ShareResult(ss, id, origin, token, updateOk).1.Some?
    ensures var (after, link) := ShareResult(ss, id, origin, token, updateOk);
      ShareResult(after, id, origin, token2, updateOk2) == (after, link)
  {
    if !HasToken(FindSession(ss, id)) {
      FindAfterStamp(ss, id, token);
    }
  }

  /** For an id missing from the list, each call writes a new token and gives a new link. */
  lemma ShareMissingIdNewEachTime(ss: seq<StudySession>, id: string, origin: string, token: string, token2: string)
    requires forall k :: 0 <= k < |ss| ==> ss[k].id != id
    requires token != token2
    ensures var (after, link) := ShareResult(ss, id, origin, token, true);
      && after == ss
      && ShareResult(after, id, origin, token2, true).1 != link
  {
    var after := Stamp(ss, id, token);
    assert after == ss;
    var u1 := ShareUrl(origin, token);
    var u2 := ShareUrl(origin, token2);
    assert u1[|origin| + 7..] == token && u2[|origin| + 7..] == token2;
  }

  // ---------------------------------------------------------------------------
  // The hook's state

  class SessionStore {
    var sessions: seq<StudySession>
    var loading: bool

    constructor ()
      ensures sessions == [] && loading
    {
      sessions := [];
      loading := true;
    }

    /** `fetchSessions`; `signedIn` says whether there is a user, `query` how the read went. */
    method Fetch(signedIn: bool, query: Query)
      modifies this
      ensures !loading
      ensures !signedIn ==> sessions == []
      ensures signedIn && query.Rows? ==> sessions == FormatRows(query.rows)
      ensures signedIn && query.NullData? ==> sessions == []
      ensures signedIn && query.QueryError? ==> sessions == old(sessions)
    {
      if !signedIn {
        sessions := [];
        loading := false;
        return;
      }
      if query.Rows? {
        sessions := FormatRows(query.rows);
      } else if query.NullData? {
        sessions := FormatRows([]);
      }
      loading := false;
    }

    /**
     * `saveSession`: what would be inserted (nothing without a user) and the
     * boolean result. The list itself is not touched; the refresh that
     * follows a successful insert is a separate `Fetch`.
     */
    method Save(user: Option<string>, title: string, notes: string, data: AnalysisData, insertOk: bool)
      returns (sent: Option<Insert>, ok: bool)
      ensures sent.Some? <==> user.Some?
      ensures sent.Some? ==> sent.value.userId == user.value && sent.value.title == title && sent.value.notes == notes
      ensures sent.Some? ==> forall row :: Holds(row, sent.value) ==> FromRow(row).Analysis() == data
      ensures ok <==> user.Some? && insertOk
    {
      if user.None? {
        return None, false;
      }
      sent := Some(Payload(user.value, title, notes, data));
      forall row | Holds(row, sent.value) ensures FromRow(row).Analysis() == data {
        SavedSessionReadsBack(user.value, title, notes, data, row);
      }
      ok := insertOk;
    }

    /** `deleteSession`: on success every session with the id leaves the list. */
    method Delete(id: string, deleteOk: bool) returns (ok: bool)
      modifies this
      ensures ok == deleteOk
      ensures sessions == if deleteOk then Without(old(sessions), id) else old(sessions)
      ensures loading == old(loading)
    {
      if !deleteOk {
        return false;
      }
      sessions := Without(sessions, id);
      ok := true;
    }

    /** `generateShareLink`, with `token` the UUID it would generate and `updateOk` the write's outcome. */
    method ShareLink(id: string, origin: string, token: string, updateOk: bool) returns (link: Option<string>)
      modifies this
      ensures (sessions, link) == ShareResult(old(sessions), id, origin, token, updateOk)
      ensures loading == old(loading)
    {
      var session := FindSession(sessions, id);
      if HasToken(session) {
        return Some(ShareUrl(origin, session.value.shareToken.value));
      }
      if !updateOk {
        return None;
      }
      sessions := Stamp(sessions, id, token);
      link := Some(ShareUrl(origin, token));
    }
  }
}

/**
 * `POST /api/schedule/generate`: validates the request body, asks the
 * text-generation service for a schedule, and turns its reply into a
 * response: the reply parsed as JSON, else the JSON inside the first
 * "```json" fenced block, else an error. JSON parsing is a parameter
 * (`parse`, partial: `None` where `JSON.parse` throws), used both for the
 * request body and for the reply.
 */
module ScheduleGenerate {
  import opened Options
  import opened JsText

  /** A parsed JSON value. */
  datatype JValue =
    | JNull
    | JBool(b: bool)
    | JNum(n: real)
    | JStr(s: string)
    | JArr(items: seq<JValue>)
    | JObj(fields: map<string, JValue>)

  datatype Payload = ScheduleBody(schedule: JValue) | ErrorBody(error: string)

  datatype Response = Response(status: int, payload: Payload)

  /** What the completion call gave: it threw, or it returned a message whose content may be null. */
  datatype Upstream = UpstreamThrew | Replied(content: Option<string>)

  const MissingUserOrGoals: string := "Missing user or goals"
  const ParseFailed: string := "Failed to parse schedule from GPT-4o."
  const GenerateFailed: string := "Failed to generate schedule"

  /** The opening and closing fences of `/```json\n([\s\S]+?)```/`. */
  const Opener: string := "```json\n"
  const Closer: string := "```"

  // ---------------------------------------------------------------------------
  // Request body
  // ---------------------------------------------------------------------------

  /** JavaScript truthiness of a property value; `None` is `undefined`. */
  predicate Truthy(v: Option<JValue>) {
    match v
    case None => false
    case Some(JNull) => false
    case Some(JBool(b)) => b
    case Some(JNum(n)) => n != 0.0
    case Some(JStr(s)) => s != ""
    case Some(JArr(_)) => true
    case Some(JObj(_)) => true
  }

  predicate IsArray(v: Option<JValue>) {
    v.Some? && v.value.JArr?
  }

  /** `body[key]` for a body that is not null: an object's own field, `undefined` for any other value. */
  function Property(body: JValue, key: string): Option<JValue> {
    if body.JObj? && key in body.fields then Some(body.fields[key]) else None
  }

  /** The 400 check: `!user || !goals || !Array.isArray(goals)`. */
  predicate MissingInput(body: JValue) {
    var user := Property(body, "user");
    var goals := Property(body, "goals");
    !Truthy(user) || !Truthy(goals) || !IsArray(goals)
  }

  // ---------------------------------------------------------------------------
  // The fenced block
  // ---------------------------------------------------------------------------

  predicate OccursAt(s: string, pat: string, k: int) {
    0 <= k && k + |pat| <= |s| && s[k..k + |pat|] == pat
  }

  /** The first position at or after `i` where `pat` occurs. */
  function FindFrom(s: string, pat: string, i: nat): (r: Option<nat>)
    ensures r.Some? ==> i <= r.value && OccursAt(s, pat, r.value)
    ensures r.Some? ==> forall j :: i <= j < r.value ==> !OccursAt(s, pat, j)
    ensures r.None? ==> forall j :: i <= j ==> !OccursAt(s, pat, j)
    decreases |s| - i
  {
    if i + |pat| > |s| then None
    else if s[i..i + |pat|] == pat then Some(i)
    else FindFrom(s, pat, i + 1)
  }

  /** `text.match(/```json\n([\s\S]+?)```/)?.[1]`, computed by two searches. */
  function ExtractFenced(s: string): Option<string> {
    match FindFrom(s, Opener, 0)
    case None => None
    case Some(i) =>
      match FindFrom(s, Closer, i + |Opener| + 1)
      case None => None
      case Some(k) => Some(s[i + |Opener|..k])
  }

  /** The pattern matches at `i` with its group `s[i + 8..k]`: the opener at `i`, a non-empty group, the closer at `k`. */
  predicate FenceAt(s: string, i: int, k: int) {
    OccursAt(s, Opener, i) && i + |Opener| + 1 <= k && OccursAt(s, Closer, k)
  }

  /**
   * The two searches compute the regular expression's match: there is none
   * exactly when the pattern matches nowhere, and otherwise the group is the
   * one of the leftmost match, whose lazy group ends at the nearest closer.
   */
  lemma ExtractFencedIsFirstLazyMatch(s: string)
    ensures ExtractFenced(s).None? <==> forall i, k :: !FenceAt(s, i, k)
    ensures ExtractFenced(s).Some? ==>
      exists i, k ::
        && FenceAt(s, i, k)
        && ExtractFenced(s).value == s[i + |Opener|..k]
        && (forall i', k' :: i' < i ==> !FenceAt(s, i', k'))
        && (forall k' :: k' < k ==> !FenceAt(s, i, k'))
  {
    match FindFrom(s, Opener, 0)
    case None =>
      assert forall i, k :: !FenceAt(s, i, k) by {
        forall i, k ensures !FenceAt(s, i, k) {
          if 0 <= i { assert !OccursAt(s, Opener, i); }
        }
      }
    case Some(o) =>
      match FindFrom(s, Closer, o + |Opener| + 1)
      case None =>
        forall i, k ensures !FenceAt(s, i, k) {
          if OccursAt(s, Opener, i) {
            assert o <= i;
          }
        }
      case Some(c) =>
        assert FenceAt(s, o, c);
        assert forall i', k' :: i' < o ==> !FenceAt(s, i', k');
    }

  // ---------------------------------------------------------------------------
  // The handler
  // ---------------------------------------------------------------------------

  /** `chatResponse.choices[0].message.content?.trim() || ''`. */
  function ReplyText(content: Option<string>): string {
    Trim(content.GetOr(""))
  }

  /** The reply handling: parse, else parse the fenced block, else the two errors. */
  function ScheduleFromReply(text: string, parse: string -> Option<JValue>): (r: Response)
    ensures r.status == 200 <==> r.payload.ScheduleBody?
    ensures r.status == 200 || r.status == 500
  {
    match parse(text)
    case Some(v) => Response(200, ScheduleBody(v))
    case None =>
      match ExtractFenced(text)
      case None => Response(500, ErrorBody(ParseFailed))
      case Some(inner) =>
        match parse(inner)
        case Some(v) => Response(200, ScheduleBody(v))
        case None => Response(500, ErrorBody(GenerateFailed))
  }

  /**
   * POST. A request whose body does not parse, or parses to null (so that
   * destructuring it throws), and a completion call that throws, end in the
   * catch-all 500.
   */
  function Post(requestText: string, upstream: Upstream, parse: string -> Option<JValue>): (r: Response)
    ensures r.status == 200 <==> r.payload.ScheduleBody?
    ensures r.status in {200, 400, 500}
  {
    match parse(requestText)
    case None => Response(500, ErrorBody(GenerateFailed))
    case Some(body) =>
      if body.JNull? then Response(500, ErrorBody(GenerateFailed))
      else if MissingInput(body) then Response(400, ErrorBody(MissingUserOrGoals))
      else
        match upstream
        case UpstreamThrew => Response(500, ErrorBody(GenerateFailed))
        case Replied(content) => ScheduleFromReply(ReplyText(content), parse)
  }

  // ---------------------------------------------------------------------------
  // Properties
  // ---------------------------------------------------------------------------

  /**
   * A missing or falsy `user` or `goals`, or a `goals` that is not an array,
   * gives 400 "Missing user or goals", and a valid body never does.
   */
  lemma BadInputIs400(requestText: string, upstream: Upstream, parse: string -> Option<JValue>)
    requires parse(requestText).Some? && !parse(requestText).value.JNull?
    ensures Post(requestText, upstream, parse) == Response(400, ErrorBody(MissingUserOrGoals))
        <==> MissingInput(parse(requestText).value)
  {
  }

  /** A body that is not JSON, or is `null` (destructuring it throws), gets the catch-all 500. */
  lemma UnreadableBodyIs500(requestText: string, upstream: Upstream, parse: string -> Option<JValue>)
    requires parse(requestText).None? || parse(requestText).value.JNull?
    ensures Post(requestText, upstream, parse) == Response(500, ErrorBody(GenerateFailed))
  {
  }

  /** The body `{}` gets 400. */
  lemma EmptyObjectIs400(requestText: string, upstream: Upstream, parse: string -> Option<JValue>)
    requires parse(requestText) == Some(JObj(map[]))
    ensures Post(requestText, upstream, parse) == Response(400, ErrorBody(MissingUserOrGoals))
  {
  }

  /** Destructuring a body that is not an object (an array, a string, a number) yields no `user` and no `goals`: such a body gets 400. */
  lemma NonObjectBodyIs400(requestText: string, upstream: Upstream, parse: string -> Option<JValue>, body: JValue)
    requires parse(requestText) == Some(body) && !body.JObj? && !body.JNull?
    ensures Property(body, "user") == None && Property(body, "goals") == None
    ensures Post(requestText, upstream, parse) == Response(400, ErrorBody(MissingUserOrGoals))
  {
  }

  /** The 400 answer is decided before the completion call: it is the same whatever that call would give. */
  lemma RejectionIgnoresUpstream(requestText: string, u1: Upstream, u2: Upstream, parse: string -> Option<JValue>)
    requires Post(requestText, u1, parse).status == 400
    ensures Post(requestText, u2, parse) == Post(requestText, u1, parse)
  {
  }

  /**
   * For a valid body the response is decided by the trimmed reply text: a
   * throwing completion call gives the catch-all 500.
   */
  lemma ValidBodyReachesReply(requestText: string, content: Option<string>, parse: string -> Option<JValue>)
    requires parse(requestText).Some? && !parse(requestText).value.JNull?
    requires !MissingInput(parse(requestText).value)
    ensures Post(requestText, Replied(content), parse) == ScheduleFromReply(ReplyText(content), parse)
    ensures Post(requestText, UpstreamThrew, parse) == Response(500, ErrorBody(GenerateFailed))
  {
  }

  /**
   * The reply's outcomes: text that parses gives 200 with it; otherwise no
   * fenced block gives "Failed to parse schedule from GPT-4o.", and a fenced
   * block gives 200 with its parse or, when it does not parse, the catch-all 500.
   */
  lemma ReplyOutcomes(text: string, parse: string -> Option<JValue>)
    ensures parse(text).Some? ==> ScheduleFromReply(text, parse) == Response(200, ScheduleBody(parse(text).value))
    ensures parse(text).None? && ExtractFenced(text).None? ==>
      ScheduleFromReply(text, parse) == Response(500, ErrorBody(ParseFailed))
    ensures parse(text).None? && ExtractFenced(text).Some? && parse(ExtractFenced(text).value).Some? ==>
      ScheduleFromReply(text, parse) == Response(200, ScheduleBody(parse(ExtractFenced(text).value).value))
    ensures parse(text).None? && ExtractFenced(text).Some? && parse(ExtractFenced(text).value).None? ==>
      ScheduleFromReply(text, parse) == Response(500, ErrorBody(GenerateFailed))
  {
  }

  /** A reply made of one fenced block whose content has no backtick yields that content. */
  lemma SingleBlockExtract(inner: string)
    requires |inner| >= 1 && '`' !in inner
    ensures ExtractFenced(Opener + inner + Closer) == Some(inner)
  {
    var s := Opener + inner + Closer;
    var c := |Opener| + |inner|;
    assert s[..|Opener|] == Opener;
    assert FindFrom(s, Opener, 0) == Some(0);
    assert OccursAt(s, Closer, c) by { assert s[c..c + |Closer|] == Closer; }
    assert FindFrom(s, Closer, |Opener| + 1) == Some(c) by {
      forall j | |Opener| + 1 <= j < c ensures !OccursAt(s, Closer, j) {
        assert s[j] == inner[j - |Opener|];
        assert s[j..j + |Closer|][0] == s[j] != Closer[0];
      }
    }
    assert s[|Opener|..c] == inner;
  }

  /** The fenced example: the group is the text between the fences. */
  lemma FencedExampleExtract()
    ensures ExtractFenced("```json\n[{\"day\":\"Monday\"}]\n```") == Some("[{\"day\":\"Monday\"}]\n")
  {
    var inner := "[{\"day\":\"Monday\"}]\n";
    assert Opener + inner + Closer == "```json\n[{\"day\":\"Monday\"}]\n```";
    assert '`' !in inner;
    SingleBlockExtract(inner);
  }

  /** A reply holding just that block yields the schedule in it when the block parses. */
  lemma FencedExample(requestText: string, parse: string -> Option<JValue>, schedule: JValue)
    requires parse(requestText).Some? && !parse(requestText).value.JNull?
    requires !MissingInput(parse(requestText).value)
    requires parse("```json\n[{\"day\":\"Monday\"}]\n```") == None
    requires parse("[{\"day\":\"Monday\"}]\n") == Some(schedule)
    ensures Post(requestText, Replied(Some("```json\n[{\"day\":\"Monday\"}]\n```")), parse)
         == Response(200, ScheduleBody(schedule))
  {
    var s := "```json\n[{\"day\":\"Monday\"}]\n```";
    TrimOfTrimmed(s);
    assert ReplyText(Some(s)) == s;
    FencedExampleExtract();
    ValidBodyReachesReply(requestText, Some(s), parse);
  }
}

/** The response listener of scripts/find_square_and_return.js (lines 25-54):
    one capture slot that every network response may fill or overwrite.
    Each response is handled as one atomic step. */
module CaptureSlot {
  import opened Wrappers
  import opened JsValue

  /** The body of a response: what JSON.parse returned, or a failure to
      read or parse it. */
  datatype Body = Parsed(json: Value) | Unreadable

  /** What the listener sees of one response. A missing content-type header
      is `None`. */
  datatype Response = Response(url: string, status: int, contentType: Option<string>, body: Body)

  /** The captured square: `{ url, status, json }`. */
  datatype Capture = Capture(url: string, status: int, json: Value)

  const ApiMarker := "/api/v1/"
  const SquarePath := "/api/v1/speedTests/square"
  const LookupPath := "/api/v1/speedTests/squares/lookup"
  const JsonMediaType := "application/json"

  /** `sub` occurs in `s` starting at index `i`. */
  predicate OccursAt(s: string, sub: string, i: int) {
    0 <= i <= |s| - |sub| && s[i..i + |sub|] == sub
  }

  /** `s.includes(sub)`. */
  predicate Contains(s: string, sub: string) {
    exists i :: 0 <= i <= |s| - |sub| && OccursAt(s, sub, i)
  }

  /** The two exact square-lookup URL patterns. */
  predicate IsSquareUrl(url: string) {
    Contains(url, SquarePath) || Contains(url, LookupPath)
  }

  /** A content-type header that is present and mentions JSON. */
  predicate IsJsonContentType(ct: Option<string>) {
    ct.Some? && ct.value != "" && Contains(ct.value, JsonMediaType)
  }

  /** `j && j.data && (j.data.id || j.data.squareNumber || j.data.providers)` */
  predicate LooksLikeSquare(j: Value) {
    Truthy(j) && Truthy(Get(j, "data")) &&
    (Truthy(Get(Get(j, "data"), "id")) || Truthy(Get(Get(j, "data"), "squareNumber")) || Truthy(Get(Get(j, "data"), "providers")))
  }

  function CaptureOf(r: Response): Capture
    requires r.body.Parsed?
  {
    Capture(r.url, r.status, r.body.json)
  }

  /** A response that the exact-pattern branch stores. */
  predicate ExactHit(r: Response) {
    IsSquareUrl(r.url) && r.body.Parsed?
  }

  /** A response that the shape heuristic would store into an empty slot. */
  predicate HeuristicHit(r: Response) {
    Contains(r.url, ApiMarker) && IsJsonContentType(r.contentType) &&
    r.body.Parsed? && LooksLikeSquare(r.body.json)
  }

  /** The new content of the slot after the listener has handled `r`, in the
      order the listener tests things: the API marker, the exact patterns,
      then the heuristic, which looks at the slot as the exact branch left it. */
  function Step(slot: Option<Capture>, r: Response): Option<Capture> {
    if !Contains(r.url, ApiMarker) then slot
    else
      var afterExact := if ExactHit(r) then Some(CaptureOf(r)) else slot;
      if afterExact.None? && HeuristicHit(r) then Some(CaptureOf(r)) else afterExact
  }

  /** The slot after a whole stream of responses, handled in arrival order. */
  function Run(slot: Option<Capture>, rs: seq<Response>): Option<Capture>
    decreases |rs|
  {
    if rs == [] then slot else Run(Step(slot, rs[0]), rs[1..])
  }

  /** The longer lookup path contains the shorter square path, so the second
      exact pattern never matches a URL the first one misses; and both
      patterns contain the API marker. */
  lemma SquarePatternsNested(url: string)
    ensures Contains(url, LookupPath) ==> Contains(url, SquarePath)
    ensures Contains(url, SquarePath) ==> Contains(url, ApiMarker)
    ensures IsSquareUrl(url) <==> Contains(url, SquarePath)
  {
    assert LookupPath[..|SquarePath|] == SquarePath;
    assert SquarePath[..|ApiMarker|] == ApiMarker;
    if Contains(url, LookupPath) {
      var i :| 0 <= i <= |url| - |LookupPath| && OccursAt(url, LookupPath, i);
      PrefixOccurs(url, LookupPath, SquarePath, i);
    }
    if Contains(url, SquarePath) {
      var i :| 0 <= i <= |url| - |SquarePath| && OccursAt(url, SquarePath, i);
      PrefixOccurs(url, SquarePath, ApiMarker, i);
    }
  }

  /** Where a string occurs, so does each of its prefixes. */
  lemma PrefixOccurs(s: string, long: string, short: string, i: int)
    requires OccursAt(s, long, i)
    requires |short| <= |long| && long[..|short|] == short
    ensures OccursAt(s, short, i)
  {
    assert s[i..i + |short|] == s[i..i + |long|][..|short|];
  }

  /** The whole capture rule in one statement: an exact-pattern response
      whose body parses always overwrites the slot; otherwise a heuristic
      match fills the slot only while it is empty; anything else, including
      every URL without the API marker and every unreadable body, leaves
      the slot as it was. */
  lemma StepCases(slot: Option<Capture>, r: Response)
    ensures Step(slot, r) == (if ExactHit(r) then Some(CaptureOf(r))
                              else if slot.None? && HeuristicHit(r) then Some(CaptureOf(r))
                              else slot)
    ensures !Contains(r.url, ApiMarker) ==> Step(slot, r) == slot
    ensures r.body.Unreadable? ==> Step(slot, r) == slot
  {
    SquarePatternsNested(r.url);
  }

  /** Once something is captured the slot is never emptied again. */
  lemma {:induction false} RunKeepsCapture(slot: Option<Capture>, rs: seq<Response>)
    requires slot.Some?
    ensures Run(slot, rs).Some?
    decreases |rs|
  {
    if rs != [] {
      StepCases(slot, rs[0]);
      RunKeepsCapture(Step(slot, rs[0]), rs[1..]);
    }
  }

  /** Handling a stream in two parts is handling it in one. */
  lemma {:induction false} RunAppend(slot: Option<Capture>, a: seq<Response>, b: seq<Response>)
    ensures Run(slot, a + b) == Run(Run(slot, a), b)
    decreases |a|
  {
    if a == [] {
      assert a + b == b;
    } else {
      assert (a + b)[0] == a[0];
      assert (a + b)[1..] == a[1..] + b;
      RunAppend(Step(slot, a[0]), a[1..], b);
    }
  }

  /** After a capture, a stream without exact-pattern hits changes nothing. */
  lemma {:induction false} RunWithoutExactHits(slot: Option<Capture>, rs: seq<Response>)
    requires slot.Some?
    requires forall j :: 0 <= j < |rs| ==> !ExactHit(rs[j])
    ensures Run(slot, rs) == slot
    decreases |rs|
  {
    if rs != [] {
      StepCases(slot, rs[0]);
      RunWithoutExactHits(Step(slot, rs[0]), rs[1..]);
    }
  }

  /** The last exact-pattern hit of a stream decides the capture, whatever
      came before it, heuristic or exact. */
  lemma LastExactHitWins(slot: Option<Capture>, rs: seq<Response>, k: nat)
    requires k < |rs| && ExactHit(rs[k])
    requires forall j :: k < j < |rs| ==> !ExactHit(rs[j])
    ensures Run(slot, rs) == Some(CaptureOf(rs[k]))
  {
    var after := rs[k + 1..];
    SplitAt(rs, k);
    RunAppend(slot, rs[..k], [rs[k]]);
    StepCases(Run(slot, rs[..k]), rs[k]);
    var held := Some(CaptureOf(rs[k]));
    assert Run(slot, rs[..k + 1]) == held;
    forall j | 0 <= j < |after|
      ensures !ExactHit(after[j])
    {
      assert after[j] == rs[k + 1 + j];
    }
    RunWithoutExactHits(held, after);
    RunAppend(slot, rs[..k + 1], after);
  }

  /** An empty slot that sees no exact-pattern hit ends up holding the first
      heuristic match, if there is one. */
  lemma FirstHeuristicHitWins(rs: seq<Response>, k: nat)
    requires forall j :: 0 <= j < |rs| ==> !ExactHit(rs[j])
    requires k < |rs| && HeuristicHit(rs[k])
    requires forall j :: 0 <= j < k ==> !HeuristicHit(rs[j])
    ensures Run(None, rs) == Some(CaptureOf(rs[k]))
  {
    var before, after := rs[..k], rs[k + 1..];
    forall j | 0 <= j < k
      ensures !ExactHit(before[j]) && !HeuristicHit(before[j])
    {
      assert before[j] == rs[j];
    }
    StaysEmpty(before);
    StepCases(None, rs[k]);
    var held := Some(CaptureOf(rs[k]));
    SplitAt(rs, k);
    assert Run(None, rs[..k + 1]) == held by {
      RunAppend(None, before, [rs[k]]);
    }
    forall j | 0 <= j < |after|
      ensures !ExactHit(after[j])
    {
      assert after[j] == rs[k + 1 + j];
    }
    RunWithoutExactHits(held, after);
    RunAppend(None, rs[..k + 1], after);
  }

  /** Cutting a stream around position `k`. */
  lemma SplitAt<T>(s: seq<T>, k: nat)
    requires k < |s|
    ensures s[..k + 1] == s[..k] + [s[k]]
    ensures s == s[..k + 1] + s[k + 1..]
    ensures s == s[..k] + s[k..] && s[k..] == [s[k]] + s[k + 1..]
  {
  }

  /** A stream with neither kind of hit leaves an empty slot empty. */
  lemma {:induction false} StaysEmpty(rs: seq<Response>)
    requires forall j :: 0 <= j < |rs| ==> !ExactHit(rs[j]) && !HeuristicHit(rs[j])
    ensures Run(None, rs) == None
    decreases |rs|
  {
    if rs != [] {
      StepCases(None, rs[0]);
      StaysEmpty(rs[1..]);
    }
  }

  /** The listener's state: the variable `capturedSquare`. */
  class Listener {
    var captured: Option<Capture>

    constructor ()
      ensures captured == None
    {
      captured := None;
    }

    /** The `page.on('response', ...)` callback, for one response. */
    method OnResponse(r: Response)
      modifies this
      ensures captured == Step(old(captured), r)
    {
      if !Contains(r.url, ApiMarker) {
        return;
      }
      if IsSquareUrl(r.url) {
        match r.body
        case Parsed(j) =>
          captured := Some(Capture(r.url, r.status, j));
        case Unreadable =>
      }
      if captured.None? && IsJsonContentType(r.contentType) {
        match r.body
        case Parsed(j) =>
          if LooksLikeSquare(j) {
            captured := Some(Capture(r.url, r.status, j));
          }
        case Unreadable =>
      }
    }
  }

}
